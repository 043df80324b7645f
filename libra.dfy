/**
 * The top level of the program: the author query that `FIND_BOOK_BY_AUTHOR`
 * runs over a manager's records, and the scenario of `main`.
 */
module Libra {
  import opened Library
  import opened Management
  import Algorithms

  /** A record written by `author`. */
  function HasAuthor(author: string): Record -> bool
  {
    (r: Record) => r.author == author
  }

  /**
   * The records of `manager` whose author is `author`, in collection order:
   * exactly those, each as often as it is stored, and none by anyone else.
   */
  function FilterByAuthor(manager: LibraryManager, author: string): (r: seq<Record>)
    reads manager
    ensures forall i :: 0 <= i < |r| ==> r[i].author == author
    ensures forall x :: multiset(r)[x] == if x.author == author then multiset(manager.books)[x] else 0
    ensures Algorithms.IsSubsequence(r, manager.books)
  {
    var r := Algorithms.Filter(manager.books, HasAuthor(author));
    assert forall x :: multiset(r)[x] == if x.author == author then multiset(manager.books)[x] else 0 by {
      forall x {
        Algorithms.FilterMultiset(manager.books, HasAuthor(author), x);
      }
    }
    Algorithms.FilterIsSubsequence(manager.books, HasAuthor(author));
    r
  }

  /** Sorting the three books of `main` by author can only give Huxley, Orwell, Lee. */
  lemma SortedByAuthorInDemo(r1: Record, r2: Record, r3: Record, t: seq<Record>)
    requires r1.author == "George Orwell" && r2.author == "Harper Lee" && r3.author == "Aldous Huxley"
    requires SortedBy(ByAuthor, t) && multiset(t) == multiset([r1, r2, r3])
    ensures t == [r3, r1, r2]
  {
    assert Strings.Less(r3.author, r1.author);
    assert Strings.Less(r1.author, r2.author);
    assert Strings.Less(r3.author, r2.author);
    assert StrictlySortedBy(ByAuthor, [r3, r1, r2]);
    assert multiset([r3, r1, r2]) == multiset([r1, r2, r3]);
    SortedUnique(ByAuthor, [r3, r1, r2], t);
  }

  lemma RemoveInDemo(r1: Record, r2: Record, r3: Record)
    requires r1.title == "1984" && r2.title != "1984" && r3.title != "1984"
    ensures Without([r3, r1, r2], "1984") == [r3, r2]
  {
    assert [r3, r1, r2] == [r3] + ([r1] + [r2]);
    Algorithms.FilterAppend([r3], [r1] + [r2], LacksTitle("1984"));
    Algorithms.FilterAppend([r1], [r2], LacksTitle("1984"));
  }

  lemma FilterInDemo(r2: Record, r3: Record)
    requires r2.author == "Harper Lee" && r3.author != "Harper Lee"
    ensures Algorithms.Filter([r3, r2], HasAuthor("Harper Lee")) == [r2]
  {
    assert [r3, r2] == [r3] + [r2];
    Algorithms.FilterAppend([r3], [r2], HasAuthor("Harper Lee"));
  }

  /**
   * The scenario of `main`: three books added, sorted by author, "1984"
   * removed, then the books by Harper Lee listed. Returns the collection
   * after each step and the result of the author query.
   */
  method Demo() returns (added: seq<Record>, sorted: seq<Record>, removed: seq<Record>, byLee: seq<Record>)
    ensures added == [Record("1984", "George Orwell", 1949, "Dystopian"),
                      Record("To Kill a Mockingbird", "Harper Lee", 1960, "Fiction"),
                      Record("Brave New World", "Aldous Huxley", 1932, "Science Fiction")]
    ensures sorted == [added[2], added[0], added[1]]
    ensures removed == [added[2], added[1]]
    ensures byLee == [added[1]]
  {
    var manager := new LibraryManager();
    var book1 := new Book("1984", "George Orwell", 1949, "Dystopian");
    var book2 := new Book("To Kill a Mockingbird", "Harper Lee", 1960, "Fiction");
    var book3 := new Book("Brave New World", "Aldous Huxley", 1932, "Science Fiction");
    manager.AddBook(book1);
    manager.AddBook(book2);
    manager.AddBook(book3);
    added := manager.books;
    assert added == [Record("1984", "George Orwell", 1949, "Dystopian"),
                     Record("To Kill a Mockingbird", "Harper Lee", 1960, "Fiction"),
                     Record("Brave New World", "Aldous Huxley", 1932, "Science Fiction")];
    var r1, r2, r3 := added[0], added[1], added[2];

    manager.SortBooksBy("author");
    SortedByAuthorInDemo(r1, r2, r3, manager.books);
    sorted := manager.books;

    manager.RemoveBook("1984");
    RemoveInDemo(r1, r2, r3);
    removed := manager.books;

    byLee := FilterByAuthor(manager, "Harper Lee");
    FilterInDemo(r2, r3);
  }

  /**
   * A book built without a genre gets "Unknown", and renaming it after
   * `addBook` leaves the copy in the collection as it was.
   */
  method AddThenRename() returns (stored: seq<Record>, renamed: string)
    ensures stored == [Record("Dune", "Frank Herbert", 1965, "Unknown")]
    ensures renamed == "Dune Messiah"
  {
    var manager := new LibraryManager();
    var book := new Book("Dune", "Frank Herbert", 1965);
    manager.AddBook(book);
    book.SetTitle("Dune Messiah");
    stored := manager.books;
    renamed := book.GetTitle();
  }
}
