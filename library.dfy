/** The `Library` namespace: one book record. */
module Library {

  /**
   * The value of a book: the copy that `LibraryManager` keeps in its vector.
   * Its four fields are what the getters of the stored copy return.
   */
  datatype Record = Record(title: string, author: string, year: int, genre: string)

  /** `Library::Book`, whose setters change its fields in place. */
  class Book {
    var title: string
    var author: string
    var year: int
    var genre: string

    /** Any title, author, year and genre is accepted; the genre defaults to "Unknown". */
    constructor (title: string, author: string, year: int, genre: string := "Unknown")
      ensures GetTitle() == title && GetAuthor() == author
      ensures GetYear() == year && GetGenre() == genre
    {
      this.title := title;
      this.author := author;
      this.year := year;
      this.genre := genre;
    }

    method SetTitle(newTitle: string)
      modifies this
      ensures GetTitle() == newTitle
      ensures GetAuthor() == old(GetAuthor()) && GetYear() == old(GetYear()) && GetGenre() == old(GetGenre())
    {
      title := newTitle;
    }

    method SetAuthor(newAuthor: string)
      modifies this
      ensures GetAuthor() == newAuthor
      ensures GetTitle() == old(GetTitle()) && GetYear() == old(GetYear()) && GetGenre() == old(GetGenre())
    {
      author := newAuthor;
    }

    method SetYear(newYear: int)
      modifies this
      ensures GetYear() == newYear
      ensures GetTitle() == old(GetTitle()) && GetAuthor() == old(GetAuthor()) && GetGenre() == old(GetGenre())
    {
      year := newYear;
    }

    method SetGenre(newGenre: string)
      modifies this
      ensures GetGenre() == newGenre
      ensures GetTitle() == old(GetTitle()) && GetAuthor() == old(GetAuthor()) && GetYear() == old(GetYear())
    {
      genre := newGenre;
    }

    function GetTitle(): string
      reads this
    {
      title
    }

    function GetAuthor(): string
      reads this
    {
      author
    }

    function GetYear(): int
      reads this
    {
      year
    }

    function GetGenre(): string
      reads this
    {
      genre
    }

    /** The copy of this book that copy construction (as in `push_back`) makes. */
    function Value(): Record
      reads this
    {
      Record(GetTitle(), GetAuthor(), GetYear(), GetGenre())
    }
  }
}
