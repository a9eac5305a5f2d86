/** The order of books in a list (BookComparator) and the grouping of series under an author
    (LibraryByAuthorView.cpp, fillAuthorSubtree and isSubtreeUpToDate). */
module BookOrder {
  import opened Order

  /** A book object; its fields may change while it stays the same object. */
  type BookId = int

  datatype Info = Info(title: string, series: string, index: int)

  /** The fields of all books at one moment. */
  type Infos = BookId -> Info

  // ---------- the comparator ----------

  predicate BookLess(a: Info, b: Info)
  {
    if a.series == b.series then
      if a.series != "" && a.index != b.index then a.index < b.index else StrLess(a.title, b.title)
    else if a.series == "" then StrLess(a.title, b.series)
    else if b.series == "" then !StrLess(b.title, a.series)
    else StrLess(a.series, b.series)
  }

  /** The word a book is filed under. */
  function Heading(a: Info): string { if a.series == "" then a.title else a.series }

  /** Under one heading, books of the series come first, by number and title; then books of that title. */
  predicate BeforeUnderHeading(a: Info, b: Info)
  {
    a.series != "" && (b.series == "" || a.index < b.index || (a.index == b.index && StrLess(a.title, b.title)))
  }

  /** The comparator files by heading first. */
  lemma BookLessByHeading(a: Info, b: Info)
    ensures BookLess(a, b) <==>
      StrLess(Heading(a), Heading(b)) || (Heading(a) == Heading(b) && BeforeUnderHeading(a, b))
  {
    StrTrichotomy(Heading(a), Heading(b));
    StrTrichotomy(a.title, b.title);
  }

  /** So books are ordered by the first symbol in which the words they are filed under differ: the title, or the title
      of the series. */
  lemma BooksDiverge(a: Info, b: Info, k: nat)
    ensures
      var p, q := if a.series == "" then a.title else a.series, if b.series == "" then b.title else b.series;
      && (DifferAt(p, q, k) ==> (BookLess(a, b) <==> p[k] < q[k]))
      && (p < q ==> BookLess(a, b) && !BookLess(b, a))
  {
    hide BookLess, StrLess;
    var p, q := if a.series == "" then a.title else a.series, if b.series == "" then b.title else b.series;
    BookLessByHeading(a, b);
    BookLessByHeading(b, a);
    if DifferAt(p, q, k) {
      StringsDiverge(p, q, k);
    } else if p < q {
      StringPrefixFirst(p, q);
    }
  }

  predicate Tied(a: Info, b: Info) { !BookLess(a, b) && !BookLess(b, a) }

  /** Tied books agree in everything the comparator looks at. */
  lemma TiedMeansEqual(a: Info, b: Info)
    ensures Tied(a, b) <==> a.series == b.series && a.title == b.title && (a.series != "" ==> a.index == b.index)
  {
    BookLessByHeading(a, b);
    BookLessByHeading(b, a);
    StrTrichotomy(Heading(a), Heading(b));
    StrTrichotomy(a.title, b.title);
  }

  /** A strict weak order, as sorting needs it. */
  lemma BookLessIsStrictWeak(a: Info, b: Info, c: Info)
    ensures !BookLess(a, a)
    ensures BookLess(a, b) ==> !BookLess(b, a)
    ensures BookLess(a, b) && BookLess(b, c) ==> BookLess(a, c)
    ensures Tied(a, b) && Tied(b, c) ==> Tied(a, c)
  {
    TiedMeansEqual(a, a);
    TiedMeansEqual(a, b);
    TiedMeansEqual(b, c);
    TiedMeansEqual(a, c);
    BookLessAsymmetric(a, b);
    if BookLess(a, b) && BookLess(b, c) {
      BookLessTransitive(a, b, c);
    }
  }

  lemma BookLessAsymmetric(a: Info, b: Info)
    ensures BookLess(a, b) ==> !BookLess(b, a)
  {
    hide BookLess;
    BookLessByHeading(a, b);
    BookLessByHeading(b, a);
    StrTrichotomy(Heading(a), Heading(b));
    StrTrichotomy(a.title, b.title);
  }

  lemma BookLessTransitive(a: Info, b: Info, c: Info)
    requires BookLess(a, b) && BookLess(b, c)
    ensures BookLess(a, c)
  {
    hide BookLess;
    BookLessByHeading(a, b);
    BookLessByHeading(b, c);
    BookLessByHeading(a, c);
    if StrLess(Heading(a), Heading(b)) && StrLess(Heading(b), Heading(c)) {
      StrTransitive(Heading(a), Heading(b), Heading(c));
    }
    if StrLess(a.title, b.title) && StrLess(b.title, c.title) {
      StrTransitive(a.title, b.title, c.title);
    }
  }

  // ---------- series numbers of a machine ----------

  /** A number of 32 bits with a sign. */
  predicate IsInt32(x: int) { -0x8000_0000 <= x < 0x8000_0000 }

  /** What is left of a number in 32 bits. */
  function Wrapped(x: int): (r: int)
    ensures IsInt32(r)
  {
    (x + 0x8000_0000) % 0x1_0000_0000 - 0x8000_0000
  }

  /** The comparator as it is, with the difference of the series numbers taken in 32 bits. */
  predicate MachineLess(a: Info, b: Info)
  {
    if a.series == b.series then
      var comp := Wrapped(a.index - b.index);
      if a.series != "" && comp != 0 then comp < 0 else StrLess(a.title, b.title)
    else BookLess(a, b)
  }

  /** The series numbers of two books of one series are too far apart for their difference. */
  predicate Overflows(a: Info, b: Info)
  {
    a.series == b.series != "" && !IsInt32(a.index - b.index)
  }

  /** Up to such pairs, and only up to them, the comparator orders books by the numbers themselves. */
  lemma MachineLessExactly(a: Info, b: Info)
    requires IsInt32(a.index) && IsInt32(b.index)
    ensures (MachineLess(a, b) <==> BookLess(a, b)) <==> !Overflows(a, b)
  {
    hide StrLess;
    WrappedIs(a.index - b.index);
  }

  lemma WrappedIs(x: int)
    requires -0x1_0000_0000 < x < 0x1_0000_0000
    ensures Wrapped(x) ==
            if x < -0x8000_0000 then x + 0x1_0000_0000 else if x >= 0x8000_0000 then x - 0x1_0000_0000 else x
  {
  }

  /** No two of the books overflow. */
  ghost predicate NoOverflow(books: seq<BookId>, info: Infos)
  {
    forall a <- books, b <- books ::
      IsInt32(info(a).index) && IsInt32(info(b).index) && !Overflows(info(a), info(b))
  }

  /** On books whose series numbers are close enough it is a strict weak order, and sorting by it is sorting by the
      numbers themselves. */
  lemma MachineLessIsStrictWeak(books: seq<BookId>, info: Infos)
    requires NoOverflow(books, info)
    ensures forall x <- books :: !MachineLess(info(x), info(x))
    ensures forall x <- books, y <- books :: MachineLess(info(x), info(y)) ==> !MachineLess(info(y), info(x))
    ensures forall x <- books, y <- books, z <- books ::
      MachineLess(info(x), info(y)) && MachineLess(info(y), info(z)) ==> MachineLess(info(x), info(z))
    ensures forall x <- books, y <- books, z <- books ::
      && !MachineLess(info(x), info(y)) && !MachineLess(info(y), info(x))
      && !MachineLess(info(y), info(z)) && !MachineLess(info(z), info(y)) ==>
      !MachineLess(info(x), info(z)) && !MachineLess(info(z), info(x))
    ensures
      (forall i, j :: 0 <= i < j < |books| ==> !MachineLess(info(books[j]), info(books[i]))) <==>
      SortedBooks(books, info)
  {
    hide MachineLess, BookLess, Overflows;
    forall x <- books, y <- books
      ensures MachineLess(info(x), info(y)) <==> BookLess(info(x), info(y))
    {
      MachineLessExactly(info(x), info(y));
    }
    forall x <- books, y <- books, z <- books
      ensures !BookLess(info(x), info(x)) && (BookLess(info(x), info(y)) ==> !BookLess(info(y), info(x)))
      ensures BookLess(info(x), info(y)) && BookLess(info(y), info(z)) ==> BookLess(info(x), info(z))
      ensures Tied(info(x), info(y)) && Tied(info(y), info(z)) ==> Tied(info(x), info(z))
    {
      BookLessIsStrictWeak(info(x), info(y), info(z));
    }
  }

  /** Otherwise three books can each come before the next one. */
  lemma MachineLessCycles()
    ensures
      var a, b, c := Info("t", "s", -2000000000), Info("t", "s", 0), Info("t", "s", 2000000000);
      MachineLess(a, b) && MachineLess(b, c) && MachineLess(c, a)
  {
    WrappedIs(-2000000000);
    WrappedIs(4000000000);
  }

  // ---------- sorting ----------

  ghost predicate SortedBooks(books: seq<BookId>, info: Infos)
  {
    forall i, j :: 0 <= i < j < |books| ==> !BookLess(info(books[j]), info(books[i]))
  }

  /** What the standard sort promises for a strict weak order. */
  method SortBooks(books: seq<BookId>, info: Infos) returns (sorted: seq<BookId>)
    ensures SortedBooks(sorted, info) && multiset(sorted) == multiset(books)
  {
    sorted := [];
    for n := 0 to |books|
      invariant SortedBooks(sorted, info) && multiset(sorted) == multiset(books[..n])
    {
      assert books[..n + 1] == books[..n] + [books[n]];
      sorted := InsertBook(sorted, books[n], info);
    }
    assert books[..|books|] == books;
  }

  method InsertBook(sorted: seq<BookId>, book: BookId, info: Infos) returns (r: seq<BookId>)
    requires SortedBooks(sorted, info)
    ensures SortedBooks(r, info) && multiset(r) == multiset(sorted) + multiset{book}
  {
    hide BookLess;
    var k: nat := |sorted|;
    while k > 0 && BookLess(info(book), info(sorted[k - 1]))
      invariant k <= |sorted| && forall j :: k <= j < |sorted| ==> BookLess(info(book), info(sorted[j]))
    {
      k := k - 1;
    }
    r := sorted[..k] + [book] + sorted[k..];
    assert sorted == sorted[..k] + sorted[k..];
    InsertedIsSorted(sorted, k, book, info);
  }

  lemma InsertedIsSorted(sorted: seq<BookId>, k: nat, book: BookId, info: Infos)
    requires SortedBooks(sorted, info) && k <= |sorted|
    requires k > 0 ==> !BookLess(info(book), info(sorted[k - 1]))
    requires forall j :: k <= j < |sorted| ==> BookLess(info(book), info(sorted[j]))
    ensures SortedBooks(sorted[..k] + [book] + sorted[k..], info)
  {
    hide BookLess;
    var r := sorted[..k] + [book] + sorted[k..];
    forall i, j | 0 <= i < j < |r|
      ensures !BookLess(info(r[j]), info(r[i]))
    {
      if i == k {
        BookLessIsStrictWeak(info(book), info(r[j]), info(book));
      } else if j == k {
        NotBelowLast(sorted, k, i, book, info);
      } else {
        var a, b := if i < k then i else i - 1, if j < k then j else j - 1;
        assert r[i] == sorted[a] && r[j] == sorted[b];
      }
    }
  }

  lemma NotBelowLast(sorted: seq<BookId>, k: nat, i: nat, book: BookId, info: Infos)
    requires SortedBooks(sorted, info) && i < k <= |sorted| && !BookLess(info(book), info(sorted[k - 1]))
    ensures !BookLess(info(book), info(sorted[i]))
  {
    hide BookLess;
    if i < k - 1 && BookLess(info(book), info(sorted[i])) {
      var a, b, c := info(book), info(sorted[i]), info(sorted[k - 1]);
      BookLessIsStrictWeak(a, b, c);
      NotLessTransitive(a, c, b);
    }
  }

  /** Negated transitivity, the other face of a strict weak order. */
  lemma NotLessTransitive(a: Info, b: Info, c: Info)
    requires !BookLess(a, b) && !BookLess(b, c)
    ensures !BookLess(a, c)
  {
    hide BookLess;
    if BookLess(a, c) {
      if BookLess(b, a) {
        BookLessTransitive(b, a, c);
      } else if BookLess(c, b) {
        BookLessTransitive(a, c, b);
      } else {
        TiedMeansEqual(a, b);
        TiedMeansEqual(b, c);
        TiedMeansEqual(a, c);
      }
    }
  }

  // ---------- series stand together ----------

  function SeriesOf(book: BookId, info: Infos): string { info(book).series }

  /** In a sorted list nothing stands between two books of one series. */
  lemma SeriesAreAdjacent(books: seq<BookId>, info: Infos, i: nat, k: nat, j: nat)
    requires SortedBooks(books, info) && i < k < j < |books|
    requires SeriesOf(books[i], info) == SeriesOf(books[j], info) != ""
    ensures SeriesOf(books[k], info) == SeriesOf(books[i], info)
  {
    hide BookLess;
    var a, b, c := info(books[i]), info(books[k]), info(books[j]);
    BookLessByHeading(b, a);
    BookLessByHeading(c, b);
    StrTrichotomy(Heading(a), Heading(b));
    StrTrichotomy(Heading(b), Heading(c));
  }
}
