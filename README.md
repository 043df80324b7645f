# libra: a verified model of an in-memory book collection

`libra.cpp` keeps a list of books in memory. A `Library::Book` is a record of
title, author, year and genre, with a constructor, setters and getters. A
`Management::LibraryManager` owns a `vector<Book>`. It appends copies of books,
removes books by title, finds the first book with a given title and sorts the
vector in place by title, author or year. A macro, `FIND_BOOK_BY_AUTHOR`,
selects the books of one author, and `main` runs a fixed scenario.

This project models that program in Dafny and proves what each operation does.

- `wrappers.dfy` (module `Wrappers`): `Option`, used where the source returns a
  pointer that may be null.
- `strings.dfy` (module `Strings`): `std::string`'s `<`, which is lexicographic
  by character code, with a proper prefix first. The lemmas prove it is a strict
  total order; the comparators of `sortBooksBy` rely on that.
- `algorithms.dfy` (module `Algorithms`): the two `<algorithm>` searches the
  manager uses. `Filter` is the range `remove_if` + `erase` leaves behind.
  `FindFirst` is the position `find_if` stops at.
- `library.dfy` (module `Library`): `Book` is a class whose setters change its
  fields in place. `Record` is the value of a book, that is, the copy the
  manager's vector holds. `Book.Value()` makes that copy.
- `management.dfy` (module `Management`): `LibraryManager` is a class with a
  `books: seq<Record>` field that its methods change in place:
  - `RemoveBook` is the `remove_if` compaction loop followed by `erase`.
  - `Sort` is an in-place, unstable selection sort standing for `std::sort`.
  - A ghost `log` records the kind of each line `LOG_OPERATION` would append.
  - The module also has the sort criteria, the comparators and the lemmas
    about removal and sorting.
- `libra.dfy` (module `Libra`): the author query `FilterByAuthor` and the
  scenario of `main`.

`removeBook` removes every record whose title matches, not only the first one.
`remove_if` moves every non-matching record to the front in order, and `erase`
drops the whole tail. So any reading in which only the first match, or a
partition-dependent range, goes away is not what the code does. The model
follows the code.

## Model

| member | source | states |
|---|---|---|
| Strings.Irreflexive | libra.cpp:76 | no string is `<` itself |
| Strings.Asymmetric | libra.cpp:76 | `a < b` and `b < a` never both hold |
| Strings.Transitive | libra.cpp:80 | `a < b` and `b < c` give `a < c` |
| Strings.Trichotomy | libra.cpp:80 | any two strings are equal or ordered one way |
| Strings.LessOrEqualTotalOrder | libra.cpp:75-81 | `<=` on strings is reflexive, antisymmetric, transitive and total, so the title and author keys can be sorted |
| Algorithms.Filter | libra.cpp:51-56 | the survivors are no more than the input and all satisfy the keep predicate |
| Algorithms.FilterAppend | libra.cpp:51-56 | filtering distributes over concatenation, so it can be done element by element from the front, as `remove_if` does |
| Algorithms.FilterMultiset | libra.cpp:51-56 | each kept value occurs exactly as often as in the input; every other value is gone |
| Algorithms.FilterIsSubsequence | libra.cpp:51-56 | the survivors keep their original relative order |
| Algorithms.FilterKeepsAll | libra.cpp:54 | nothing is dropped, and the length is unchanged, exactly when every element is kept |
| Algorithms.FilterIdempotent | libra.cpp:51-56 | filtering twice with the same predicate equals filtering once |
| Algorithms.FindFirst | libra.cpp:61-64 | `find_if` returns the smallest index satisfying the predicate, or none exactly when no element does |
| Library.Book.constructor | libra.cpp:17-18 | the getters return the given title, author, year and genre afterwards; the genre is "Unknown" when it is not given |
| Library.Book.SetTitle | libra.cpp:20 | `getTitle` returns the new title; author, year and genre are unchanged |
| Library.Book.SetAuthor | libra.cpp:21 | `getAuthor` returns the new author; title, year and genre are unchanged |
| Library.Book.SetYear | libra.cpp:22 | `getYear` returns the new year; title, author and genre are unchanged |
| Library.Book.SetGenre | libra.cpp:23 | `getGenre` returns the new genre; title, author and year are unchanged |
| Management.LessThenNotAfter | libra.cpp:75-85 | for each criterion, a record less than one whose key is at most a third record's is less than the third |
| Management.NotLessIsNotAfter | libra.cpp:75-85 | a comparator that says "not less" means the key is at least the other's key (both directions) |
| Management.SortedByComparator | libra.cpp:73-86 | non-decreasing in the key is the same as "no record is less than an earlier one", which is what `std::sort` guarantees for its comparator |
| Management.SortedUnique | libra.cpp:73-86 | when all keys differ, a sorted permutation is unique: any sorted permutation of a strictly sorted sequence equals it |
| Management.HeadsAgree | libra.cpp:73-86 | a strictly sorted sequence and any sorted permutation of it start with the same record |
| Management.SelectMinimum | libra.cpp:75-85 | swapping a minimum of the unsorted part into place keeps the records and grows the sorted, partitioned prefix by one |
| Management.RemoveCharacterization | libra.cpp:51-56 | removal keeps exactly the records not titled `t`, each as often as before, in their original order; none titled `t` remains |
| Management.RemoveAbsent | libra.cpp:54 | removal changes nothing, and keeps the length, exactly when no record has that title |
| Management.RemoveUnique | libra.cpp:51-56 | removing a title held by exactly one record deletes just that record and shortens the collection by one |
| Management.RemoveIdempotent | libra.cpp:50-57 | removing the same title twice equals removing it once |
| Management.FindAfterRemove | libra.cpp:60-64 | after removing `t`, the search for `t` finds nothing |
| Management.LibraryManager.constructor | libra.cpp:40-43 | a new manager holds no books and has logged nothing |
| Management.LibraryManager.AddBook | libra.cpp:45-48 | the collection becomes the old one with a copy of the book appended, and one `Added` event is logged |
| Management.LibraryManager.RemoveBook | libra.cpp:50-58 | the collection becomes exactly the old records not titled `t`, in order, and `findBookByTitle(t)` then finds nothing; with no match nothing changes; a `Removed` event is logged exactly when some record matched |
| Management.LibraryManager.FindBookByTitle | libra.cpp:60-65 | the result is the index of the first record titled `t`, or none exactly when no record has that title |
| Management.LibraryManager.SortBooksBy | libra.cpp:73-87 | "title", "author" and "year" leave a permutation of the old records that is non-decreasing in that key; any other string leaves the collection identical; nothing is logged |
| Management.LibraryManager.Sort | libra.cpp:75-85 | sorting by one criterion leaves a permutation of the old records that is non-decreasing in its key |
| Libra.FilterByAuthor | libra.cpp:102-110 | the result is exactly the records by the author, each as often as stored, in collection order |
| Libra.SortedByAuthorInDemo | libra.cpp:129 | sorting the three books of the scenario by author can only give Huxley, Orwell, Lee |
| Libra.RemoveInDemo | libra.cpp:133 | removing "1984" from that order leaves Huxley, Lee |
| Libra.FilterInDemo | libra.cpp:137 | the books by Harper Lee among those two are the Mockingbird record alone |
| Libra.Demo | libra.cpp:112-140 | the scenario's collection is Orwell, Lee, Huxley after the adds; Huxley, Orwell, Lee after sorting by author; Huxley, Lee after removing "1984"; and the Harper Lee query returns only the Mockingbird record |
| Libra.AddThenRename | libra.cpp:45-46 | a book built without a genre is stored with genre "Unknown", and renaming the original after `addBook` does not change the stored copy |

## Left out

- `Book::display` and `listBooks` (libra.cpp:30-35, 67-71) only write to standard output. The listing order is the `books` sequence itself.
- The text `LOG_OPERATION` writes, and the log file itself (libra.cpp:91-100), are file I/O that is silently skipped on failure. The model keeps only the kind of each event in a ghost `log`. The "Removed" line prints a moved-from element whose value is unspecified, so no per-event content is modelled.
- `findBookByTitle` returns a pointer into the vector (libra.cpp:64). The model returns an index, so the pointer's aliasing and its invalidation by later changes are not modelled.
- `Management.LibraryManager.Sort`: the exact order `std::sort` produces, including how it orders records with equal keys, is not modelled. Any sorted permutation satisfies the contract, and the selection sort in the body is one such permutation.
- `Strings.Less` compares Dafny characters by code point. `std::char_traits<char>` compares bytes as `unsigned char`, which is the same order for one-byte characters. Multi-byte text is not modelled byte by byte.
- `year` is an unbounded `int`. The source's 32-bit `int` is never used in arithmetic, only compared, so there is no wrap-around to model.
- The source does not build as written: the macros are used before they are defined (libra.cpp:47, 55 vs 91), and `FIND_BOOK_BY_AUTHOR` reads the private `books` (libra.cpp:105). The model follows the evident intent of both.
- The `cout` lines of `main` and of `FIND_BOOK_BY_AUTHOR` are output only. `Libra.Demo` returns what they would list.
