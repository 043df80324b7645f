/** The `Management` namespace: the collection of books and its operations. */
module Management {
  import opened Wrappers
  import opened Library
  import Strings
  import Algorithms

  /** The kind of line `LOG_OPERATION` appends to the log. */
  datatype Operation = Added | Removed

  /** The keys `sortBooksBy` recognises: "title", "author" and "year". */
  datatype Criterion = ByTitle | ByAuthor | ByYear

  /** The comparator `sortBooksBy` hands to `std::sort` for criterion `c`. */
  predicate Less(c: Criterion, a: Record, b: Record)
  {
    match c
    case ByTitle => Strings.Less(a.title, b.title)
    case ByAuthor => Strings.Less(a.author, b.author)
    case ByYear => a.year < b.year
  }

  /** The key of `a` is at most the key of `b` under criterion `c`. */
  predicate NotAfter(c: Criterion, a: Record, b: Record)
  {
    match c
    case ByTitle => Strings.LessOrEqual(a.title, b.title)
    case ByAuthor => Strings.LessOrEqual(a.author, b.author)
    case ByYear => a.year <= b.year
  }

  /** The records of `s` are non-decreasing in the key of criterion `c`. */
  predicate SortedBy(c: Criterion, s: seq<Record>)
  {
    forall i, j :: 0 <= i < j < |s| ==> NotAfter(c, s[i], s[j])
  }

  /** The records of `s` are strictly increasing in the key of criterion `c`. */
  predicate StrictlySortedBy(c: Criterion, s: seq<Record>)
  {
    forall i, j :: 0 <= i < j < |s| ==> Less(c, s[i], s[j])
  }

  /** The comparator is a strict weak order whose incomparability is key equality. */
  lemma LessThenNotAfter(c: Criterion, a: Record, b: Record, d: Record)
    requires Less(c, a, b) && NotAfter(c, b, d)
    ensures Less(c, a, d)
  {
    match c
    case ByTitle =>
      if Strings.Less(b.title, d.title) { Strings.Transitive(a.title, b.title, d.title); }
    case ByAuthor =>
      if Strings.Less(b.author, d.author) { Strings.Transitive(a.author, b.author, d.author); }
    case ByYear =>
  }

  lemma NotLessIsNotAfter(c: Criterion, a: Record, b: Record)
    ensures !Less(c, a, b) <==> NotAfter(c, b, a)
  {
    match c
    case ByTitle =>
      Strings.Trichotomy(a.title, b.title);
      Strings.Asymmetric(a.title, b.title);
      Strings.Irreflexive(a.title);
    case ByAuthor =>
      Strings.Trichotomy(a.author, b.author);
      Strings.Asymmetric(a.author, b.author);
      Strings.Irreflexive(a.author);
    case ByYear =>
  }

  /**
   * Sorted in the key is what `std::sort` promises for its comparator: no
   * record is less than a record before it.
   */
  lemma SortedByComparator(c: Criterion, s: seq<Record>)
    ensures SortedBy(c, s) <==> forall i, j :: 0 <= i < j < |s| ==> !Less(c, s[j], s[i])
  {
    forall i, j | 0 <= i < j < |s| {
      NotLessIsNotAfter(c, s[j], s[i]);
    }
  }

  /**
   * When the keys are all different there is only one sorted order: a sorted
   * permutation of a strictly sorted sequence is that sequence.
   */
  lemma {:induction false} SortedUnique(c: Criterion, s: seq<Record>, t: seq<Record>)
    requires StrictlySortedBy(c, s) && SortedBy(c, t)
    requires multiset(s) == multiset(t)
    ensures s == t
  {
    assert |s| == |multiset(s)| == |t|;
    if s != [] {
      HeadsAgree(c, s, t);
      TailMultiset(s);
      TailMultiset(t);
      assert StrictlySortedBy(c, s[1..]) by {
        forall i, j | 0 <= i < j < |s| - 1 ensures Less(c, s[1..][i], s[1..][j]) {
          assert s[1..][i] == s[i + 1] && s[1..][j] == s[j + 1];
        }
      }
      assert SortedBy(c, t[1..]) by {
        forall i, j | 0 <= i < j < |t| - 1 ensures NotAfter(c, t[1..][i], t[1..][j]) {
          assert t[1..][i] == t[i + 1] && t[1..][j] == t[j + 1];
        }
      }
      SortedUnique(c, s[1..], t[1..]);
      assert s == [s[0]] + s[1..] && t == [t[0]] + t[1..];
    }
  }

  /** A strictly sorted sequence and a sorted permutation of it start with the same record. */
  lemma HeadsAgree(c: Criterion, s: seq<Record>, t: seq<Record>)
    requires StrictlySortedBy(c, s) && SortedBy(c, t)
    requires multiset(s) == multiset(t) && s != []
    ensures |t| > 0 && s[0] == t[0]
  {
    assert s[0] in multiset(t);
    var l :| 0 <= l < |t| && t[l] == s[0];
    assert NotAfter(c, t[0], s[0]);
    assert t[0] in multiset(s);
    var k :| 0 <= k < |s| && s[k] == t[0];
    NotLessIsNotAfter(c, s[0], t[0]);
    assert !Less(c, s[0], s[k]);
  }

  lemma TailMultiset(s: seq<Record>)
    requires s != []
    ensures multiset(s[1..]) == multiset(s) - multiset{s[0]}
  {
    assert s == [s[0]] + s[1..];
  }

  /** The first `i` records of `s` are sorted by `c`. */
  predicate SortedPrefix(c: Criterion, s: seq<Record>, i: nat)
  {
    forall p, q :: 0 <= p < q < i && q < |s| ==> NotAfter(c, s[p], s[q])
  }

  /** No record among the first `i` of `s` has a larger key than a record after them. */
  predicate Partitioned(c: Criterion, s: seq<Record>, i: nat)
  {
    forall p, q :: 0 <= p < i <= q < |s| ==> NotAfter(c, s[p], s[q])
  }

  /**
   * One step of selection sort: swapping a minimum of `s[i..]` into place `i`
   * keeps the records and grows the sorted, partitioned prefix by one.
   */
  lemma SelectMinimum(c: Criterion, s: seq<Record>, i: nat, m: nat)
    requires i <= m < |s|
    requires SortedPrefix(c, s, i) && Partitioned(c, s, i)
    requires forall k :: i <= k < |s| ==> NotAfter(c, s[m], s[k])
    ensures multiset(s[i := s[m]][m := s[i]]) == multiset(s)
    ensures SortedPrefix(c, s[i := s[m]][m := s[i]], i + 1)
    ensures Partitioned(c, s[i := s[m]][m := s[i]], i + 1)
  {
    var t := s[i := s[m]][m := s[i]];
    SwapPermutes(s, i, m);
    forall p, q | 0 <= p < q < i + 1 && q < |t|
      ensures NotAfter(c, t[p], t[q])
    {
      assert t[p] == s[p];
      assert t[q] == if q < i then s[q] else s[m];
    }
    forall p, q | 0 <= p < i + 1 <= q < |t|
      ensures NotAfter(c, t[p], t[q])
    {
      var from := if q == m then i else q;
      assert t[q] == s[from];
      assert t[p] == if p < i then s[p] else s[m];
    }
  }

  /** Swapping two records keeps the same records. */
  lemma SwapPermutes(s: seq<Record>, i: nat, m: nat)
    requires i <= m < |s|
    ensures multiset(s[i := s[m]][m := s[i]]) == multiset(s)
  {
    var t := s[i := s[m]];
    assert multiset(t) == multiset(s) - multiset{s[i]} + multiset{s[m]};
    assert multiset(t[m := s[i]]) == multiset(t) - multiset{t[m]} + multiset{s[i]};
  }

  /** A record matching the removal key of `removeBook`. */
  function HasTitle(title: string): Record -> bool
  {
    (r: Record) => r.title == title
  }

  /** A record that survives `removeBook(title)`. */
  function LacksTitle(title: string): Record -> bool
  {
    (r: Record) => r.title != title
  }

  /** The records `removeBook(title)` leaves: all those not titled `title`, in order. */
  function Without(s: seq<Record>, title: string): seq<Record>
  {
    Algorithms.Filter(s, LacksTitle(title))
  }

  /** Some record of `s` has title `title`. */
  predicate HasBookTitled(s: seq<Record>, title: string)
  {
    exists i :: 0 <= i < |s| && s[i].title == title
  }

  /**
   * Removal keeps exactly the records not titled `title`, each as often as
   * before, in their original relative order; no record titled `title` is left.
   */
  lemma RemoveCharacterization(s: seq<Record>, title: string)
    ensures forall i :: 0 <= i < |Without(s, title)| ==> Without(s, title)[i].title != title
    ensures forall x :: multiset(Without(s, title))[x] == if x.title == title then 0 else multiset(s)[x]
    ensures Algorithms.IsSubsequence(Without(s, title), s)
  {
    forall x {
      Algorithms.FilterMultiset(s, LacksTitle(title), x);
    }
    Algorithms.FilterIsSubsequence(s, LacksTitle(title));
  }

  /** Removal changes nothing exactly when no record has the title. */
  lemma RemoveAbsent(s: seq<Record>, title: string)
    ensures Without(s, title) == s <==> !HasBookTitled(s, title)
    ensures |Without(s, title)| == |s| <==> !HasBookTitled(s, title)
  {
    Algorithms.FilterKeepsAll(s, LacksTitle(title));
  }

  /** Removing a title held by exactly one record deletes that record and shortens by one. */
  lemma RemoveUnique(s: seq<Record>, title: string, k: nat)
    requires k < |s| && s[k].title == title
    requires forall j :: 0 <= j < |s| && j != k ==> s[j].title != title
    ensures Without(s, title) == s[..k] + s[k + 1..]
    ensures |Without(s, title)| == |s| - 1
  {
    var keep := LacksTitle(title);
    assert s == s[..k] + ([s[k]] + s[k + 1..]);
    Algorithms.FilterAppend(s[..k], [s[k]] + s[k + 1..], keep);
    Algorithms.FilterAppend([s[k]], s[k + 1..], keep);
    Algorithms.FilterKeepsAll(s[..k], keep);
    Algorithms.FilterKeepsAll(s[k + 1..], keep);
  }

  /** Removing the same title twice is removing it once. */
  lemma RemoveIdempotent(s: seq<Record>, title: string)
    ensures Without(Without(s, title), title) == Without(s, title)
  {
    Algorithms.FilterIdempotent(s, LacksTitle(title));
  }

  /** After `removeBook(title)`, `findBookByTitle(title)` finds nothing. */
  lemma FindAfterRemove(s: seq<Record>, title: string)
    ensures Algorithms.FindFirst(Without(s, title), HasTitle(title)) == None
  {
  }

  /** `Management::LibraryManager`: an ordered vector of book copies. */
  class LibraryManager {
    var books: seq<Record>
    /** The kinds of the lines appended to the log, oldest first. */
    ghost var log: seq<Operation>

    constructor ()
      ensures books == [] && log == []
    {
      books := [];
      log := [];
    }

    /** Appends a copy of `book`; later changes to `book` do not reach the collection. */
    method AddBook(book: Book)
      modifies this
      ensures books == old(books) + [book.Value()]
      ensures log == old(log) + [Added]
    {
      books := books + [book.Value()];
      log := log + [Added];
    }

    /**
     * `remove_if` compacts the records not titled `title` to the front in
     * order; `erase` then drops the rest. The removal is logged only when
     * at least one record matched.
     */
    method RemoveBook(title: string)
      modifies this
      ensures books == Without(old(books), title)
      ensures FindBookByTitle(title) == None
      ensures !HasBookTitled(old(books), title) ==> books == old(books)
      ensures log == if HasBookTitled(old(books), title) then old(log) + [Removed] else old(log)
    {
      ghost var original := books;
      var kept := 0;
      var i := 0;
      while i < |books|
        invariant |books| == |original|
        invariant kept <= i <= |books|
        invariant books[..kept] == Without(original[..i], title)
        invariant forall k :: i <= k < |books| ==> books[k] == original[k]
        invariant log == old(log)
      {
        assert original[..i + 1] == original[..i] + [original[i]];
        Algorithms.FilterAppend(original[..i], [original[i]], LacksTitle(title));
        if books[i].title != title {
          books := books[kept := books[i]];
          kept := kept + 1;
        }
        i := i + 1;
      }
      assert original[..i] == original;
      RemoveAbsent(original, title);
      FindAfterRemove(original, title);
      if kept != |books| {
        log := log + [Removed];
        books := books[..kept];
      } else {
        assert books[..kept] == books;
      }
    }

    /** The index of the first record titled `title`, or `None` (the null pointer). */
    function FindBookByTitle(title: string): (r: Option<nat>)
      reads this
      ensures r.Some? ==> r.value < |books| && books[r.value].title == title
      ensures r.Some? ==> forall j :: 0 <= j < r.value ==> books[j].title != title
      ensures r.None? <==> !HasBookTitled(books, title)
    {
      Algorithms.FindFirst(books, HasTitle(title))
    }

    /** Sorting on "title", "author" or "year"; any other criterion changes nothing. */
    method SortBooksBy(criteria: string)
      modifies this
      ensures multiset(books) == multiset(old(books)) && log == old(log)
      ensures criteria == "title" ==> SortedBy(ByTitle, books)
      ensures criteria == "author" ==> SortedBy(ByAuthor, books)
      ensures criteria == "year" ==> SortedBy(ByYear, books)
      ensures criteria != "title" && criteria != "author" && criteria != "year" ==> books == old(books)
    {
      if criteria == "title" {
        Sort(ByTitle);
      } else if criteria == "author" {
        Sort(ByAuthor);
      } else if criteria == "year" {
        Sort(ByYear);
      }
    }

    /** `std::sort` with the comparator of `c`: an in-place, unstable selection sort. */
    method Sort(c: Criterion)
      modifies this
      ensures SortedBy(c, books) && multiset(books) == multiset(old(books))
      ensures log == old(log)
    {
      var i := 0;
      while i < |books|
        invariant i <= |books| == |old(books)|
        invariant multiset(books) == multiset(old(books))
        invariant SortedPrefix(c, books, i) && Partitioned(c, books, i)
        invariant log == old(log)
        decreases |books| - i
      {
        var m := i;
        var j := i + 1;
        while j < |books|
          modifies {}
          invariant i <= m < j <= |books|
          invariant forall k :: i <= k < j ==> NotAfter(c, books[m], books[k])
        {
          NotLessIsNotAfter(c, books[j], books[m]);
          if Less(c, books[j], books[m]) {
            forall k | i <= k < j
              ensures NotAfter(c, books[j], books[k])
            {
              LessThenNotAfter(c, books[j], books[m], books[k]);
            }
            m := j;
          }
          j := j + 1;
        }
        SelectMinimum(c, books, i, m);
        books := books[i := books[m]][m := books[i]];
        i := i + 1;
      }
    }
  }
}
