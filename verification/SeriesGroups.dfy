/** The subtree under an author: books, and series nodes for series with several books (LibraryByAuthorView.cpp). */
module SeriesGroups {
  import opened BookOrder

  datatype Child = BookNode(book: BookId) | SeriesNode(books: seq<BookId>)

  function BooksOf(c: Child): seq<BookId> { if c.BookNode? then [c.book] else c.books }

  /** The books of a list of nodes, as they are displayed. */
  function Flatten(children: seq<Child>): seq<BookId>
  {
    if children == [] then [] else Flatten(children[..|children| - 1]) + BooksOf(children[|children| - 1])
  }

  lemma FlattenLast(children: seq<Child>, c: Child)
    ensures Flatten(children + [c]) == Flatten(children) + BooksOf(c)
  {
    hide BooksOf;
    assert (children + [c])[..|children|] == children;
  }

  lemma ConcatAssociates<T>(a: seq<T>, b: seq<T>, c: seq<T>)
    ensures (a + b) + c == a + (b + c)
  {
  }

  lemma {:induction false} FlattenConcat(a: seq<Child>, b: seq<Child>)
    ensures Flatten(a + b) == Flatten(a) + Flatten(b)
  {
    if b == [] {
      assert a + b == a;
    } else {
      hide Flatten, BooksOf;
      var front, last := b[..|b| - 1], b[|b| - 1];
      assert b == front + [last];
      ConcatAssociates(a, front, [last]);
      FlattenConcat(a, front);
      FlattenLast(a + front, last);
      FlattenLast(front, last);
      ConcatAssociates(Flatten(a), Flatten(front), BooksOf(last));
    }
  }

  lemma FlattenFirst(c: Child, rest: seq<Child>)
    ensures Flatten([c] + rest) == BooksOf(c) + Flatten(rest)
  {
    FlattenConcat([c], rest);
    FlattenLast([], c);
    assert [] + [c] == [c];
  }

  // ---------- grouping ----------

  /** How many books at the front belong to the series of the first one. */
  function RunLength(books: seq<BookId>, series: string, info: Infos): (n: nat)
    ensures n <= |books|
    ensures forall i :: 0 <= i < n ==> SeriesOf(books[i], info) == series
    ensures n < |books| ==> SeriesOf(books[n], info) != series
  {
    if books == [] || SeriesOf(books[0], info) != series then 0 else 1 + RunLength(books[1..], series, info)
  }

  /** Every run of two or more books of one series becomes a series node; other books stand alone. */
  function Grouped(books: seq<BookId>, info: Infos): seq<Child>
    decreases |books|
  {
    if books == [] then []
    else
      var series := SeriesOf(books[0], info);
      var n := RunLength(books, series, info);
      if series == "" || n == 1 then [BookNode(books[0])] + Grouped(books[1..], info)
      else [SeriesNode(books[..n])] + Grouped(books[n..], info)
  }

  /** How many books the first node takes. */
  function FirstCount(books: seq<BookId>, info: Infos): (m: nat)
    requires books != []
    ensures 1 <= m <= |books|
  {
    var n := RunLength(books, SeriesOf(books[0], info), info);
    if SeriesOf(books[0], info) == "" || n == 1 then 1 else n
  }

  lemma GroupedSplits(books: seq<BookId>, info: Infos)
    requires books != []
    ensures
      var m := FirstCount(books, info);
      var first := if m == 1 then BookNode(books[0]) else SeriesNode(books[..m]);
      Grouped(books, info) == [first] + Grouped(books[m..], info) && BooksOf(first) == books[..m]
  {
  }

  /** Grouping keeps every book and the order. */
  lemma {:induction false} GroupedFlattens(books: seq<BookId>, info: Infos)
    ensures Flatten(Grouped(books, info)) == books
    decreases |books|
  {
    if books != [] {
      hide Flatten, Grouped, FirstCount, BooksOf;
      GroupedSplits(books, info);
      var m := FirstCount(books, info);
      GroupedFlattens(books[m..], info);
      FlattenFirst(Grouped(books, info)[0], Grouped(books[m..], info));
      assert books == books[..m] + books[m..];
    }
  }

  /** What is right about a node of a grouped list: a series node holds all books of its series, and there are at
      least two; a book standing alone is the only one of its series or has none. */
  ghost predicate NodeRight(c: Child, books: seq<BookId>, info: Infos)
  {
    match c
    case BookNode(b) =>
      b in books && (SeriesOf(b, info) != "" ==> forall i, j ::
        0 <= i < j < |books| ==> !(SeriesOf(books[i], info) == SeriesOf(books[j], info) == SeriesOf(b, info)))
    case SeriesNode(bs) =>
      && |bs| >= 2 && SeriesOf(bs[0], info) != ""
      && forall b :: b in bs <==> b in books && SeriesOf(b, info) == SeriesOf(bs[0], info)
  }

  /** Books of one series stand next to each other. */
  ghost predicate SeriesTogether(books: seq<BookId>, info: Infos)
  {
    forall i, k, j :: 0 <= i < k < j < |books| && SeriesOf(books[i], info) == SeriesOf(books[j], info) != "" ==>
      SeriesOf(books[k], info) == SeriesOf(books[i], info)
  }

  lemma SortedIsTogether(books: seq<BookId>, info: Infos)
    requires SortedBooks(books, info)
    ensures SeriesTogether(books, info)
  {
    hide SortedBooks;
    forall i, k, j | 0 <= i < k < j < |books| && SeriesOf(books[i], info) == SeriesOf(books[j], info) != ""
      ensures SeriesOf(books[k], info) == SeriesOf(books[i], info)
    {
      SeriesAreAdjacent(books, info, i, k, j);
    }
  }

  lemma TogetherAt(books: seq<BookId>, info: Infos, i: nat, k: nat, j: nat)
    requires SeriesTogether(books, info) && i < k < j < |books|
    requires SeriesOf(books[i], info) == SeriesOf(books[j], info) != ""
    ensures SeriesOf(books[k], info) == SeriesOf(books[i], info)
  {
  }

  /** What comes after the first run contains nothing of its series. */
  lemma RunIsAll(books: seq<BookId>, info: Infos, n: nat)
    requires SeriesTogether(books, info) && books != [] && SeriesOf(books[0], info) != ""
    requires n == RunLength(books, SeriesOf(books[0], info), info)
    ensures n >= 1
    ensures forall j :: n <= j < |books| ==> SeriesOf(books[j], info) != SeriesOf(books[0], info)
  {
    hide SeriesTogether, SeriesOf;
    forall j | n <= j < |books|
      ensures SeriesOf(books[j], info) != SeriesOf(books[0], info)
    {
      if n < j && SeriesOf(books[j], info) == SeriesOf(books[0], info) {
        TogetherAt(books, info, 0, n, j);
      }
    }
  }

  lemma TailTogether(books: seq<BookId>, info: Infos, n: nat)
    requires SeriesTogether(books, info) && n <= |books|
    ensures SeriesTogether(books[n..], info)
  {
  }

  /** A node right for the rest of the list is right for the whole list when the front is of other series. */
  lemma NodeStaysRight(c: Child, books: seq<BookId>, info: Infos, n: nat)
    requires n <= |books| && NodeRight(c, books[n..], info)
    requires forall i, j :: 0 <= i < n <= j < |books| ==>
      SeriesOf(books[i], info) == "" || SeriesOf(books[i], info) != SeriesOf(books[j], info)
    ensures NodeRight(c, books, info)
  {
    var rest := books[n..];
    assert forall i :: n <= i < |books| ==> books[i] == rest[i - n];
    match c
    case BookNode(b) =>
      var k :| 0 <= k < |rest| && rest[k] == b;
      assert books[n + k] == b;
    case SeriesNode(bs) =>
      assert bs[0] in bs;
      var k :| 0 <= k < |rest| && rest[k] == bs[0];
      assert books[n + k] == bs[0];
      forall b | b in books && SeriesOf(b, info) == SeriesOf(bs[0], info)
        ensures b in rest
      {
        var i :| 0 <= i < |books| && books[i] == b;
        assert i >= n;
      }
      assert forall b :: b in rest ==> b in books;
  }

  /** In a list whose series stand together, every node of its grouping is right. */
  lemma {:induction false} GroupedIsRight(books: seq<BookId>, info: Infos, c: Child)
    requires SeriesTogether(books, info) && c in Grouped(books, info)
    ensures NodeRight(c, books, info)
    decreases |books|
  {
    hide NodeRight, SeriesTogether, FirstCount, BooksOf;
    assert books != [];
    hide Grouped;
    GroupedSplits(books, info);
    var m := FirstCount(books, info);
    if c == Grouped(books, info)[0] {
      FirstNodeRight(books, info);
    } else {
      TailTogether(books, info, m);
      GroupedIsRight(books[m..], info, c);
      FrontApart(books, info);
      NodeStaysRight(c, books, info, m);
    }
  }

  lemma FirstNodeRight(books: seq<BookId>, info: Infos)
    requires SeriesTogether(books, info) && books != []
    ensures Grouped(books, info) != [] && NodeRight(Grouped(books, info)[0], books, info)
  {
    hide SeriesTogether, SeriesOf;
    var series := SeriesOf(books[0], info);
    var n := RunLength(books, series, info);
    if series != "" {
      RunIsAll(books, info, n);
      if n == 1 {
        assert forall i :: 0 < i < |books| ==> SeriesOf(books[i], info) != series;
      } else {
        assert forall i :: 0 <= i < n ==> books[..n][i] == books[i];
        assert books == books[..n] + books[n..];
        assert forall b :: b in books[n..] ==> SeriesOf(b, info) != series;
      }
    }
  }

  /** The first node's books share no series with the rest. */
  lemma FrontApart(books: seq<BookId>, info: Infos)
    requires SeriesTogether(books, info) && books != []
    ensures forall i, j :: 0 <= i < FirstCount(books, info) <= j < |books| ==>
      SeriesOf(books[i], info) == "" || SeriesOf(books[i], info) != SeriesOf(books[j], info)
  {
    hide SeriesTogether, SeriesOf;
    if SeriesOf(books[0], info) != "" {
      RunIsAll(books, info, RunLength(books, SeriesOf(books[0], info), info));
    }
  }

  // ---------- one node per series ----------

  predicate HasNode(children: seq<Child>, series: string, info: Infos)
  {
    exists c <- children :: c.SeriesNode? && c.books != [] && SeriesOf(c.books[0], info) == series
  }

  lemma {:induction false} InFlatten(children: seq<Child>, b: BookId)
    requires b in Flatten(children)
    ensures exists c <- children :: b in BooksOf(c)
  {
    var n := |children| - 1;
    assert children[n] in children && forall c :: c in children[..n] ==> c in children;
    if b !in BooksOf(children[n]) {
      InFlatten(children[..n], b);
    }
  }

  /** The node holding a book that has another one of its series beside it is that series' node. */
  lemma HoldsSeries(c: Child, books: seq<BookId>, info: Infos, i: nat, j: nat, b: BookId)
    requires NodeRight(c, books, info) && b in BooksOf(c) && SeriesOf(b, info) != ""
    requires i < j < |books| && SeriesOf(books[i], info) == SeriesOf(books[j], info) == SeriesOf(b, info)
    ensures c.SeriesNode? && c.books != [] && SeriesOf(c.books[0], info) == SeriesOf(b, info)
  {
  }

  lemma RightSeriesNode(c: Child, books: seq<BookId>, info: Infos)
    requires NodeRight(c, books, info) && c.SeriesNode?
    ensures |c.books| >= 2 && SeriesOf(c.books[0], info) != ""
    ensures forall b :: b in c.books ==> b in books && SeriesOf(b, info) == SeriesOf(c.books[0], info)
  {
  }

  lemma SeveralHaveNode(books: seq<BookId>, info: Infos, i: nat, j: nat)
    requires SeriesTogether(books, info) && i < j < |books|
    requires SeriesOf(books[i], info) == SeriesOf(books[j], info) != ""
    ensures HasNode(Grouped(books, info), SeriesOf(books[i], info), info)
  {
    hide Grouped, NodeRight, SeriesTogether, Flatten, SeriesOf;
    var nodes := Grouped(books, info);
    GroupedFlattens(books, info);
    InFlatten(nodes, books[i]);
    var c :| c in nodes && books[i] in BooksOf(c);
    GroupedIsRight(books, info, c);
    HoldsSeries(c, books, info, i, j, books[i]);
  }

  /** A series has a node exactly when two of its books are in the list. */
  lemma SeriesNodeExactlyForSeveral(books: seq<BookId>, info: Infos, series: string)
    requires SeriesTogether(books, info) && series != ""
    ensures HasNode(Grouped(books, info), series, info) <==>
      exists i, j :: 0 <= i < j < |books| && SeriesOf(books[i], info) == series == SeriesOf(books[j], info)
  {
    hide Grouped, NodeRight, SeriesTogether, Flatten, SeriesOf;
    if HasNode(Grouped(books, info), series, info) {
      var c :| c in Grouped(books, info) && c.SeriesNode? && c.books != [] && SeriesOf(c.books[0], info) == series;
      NodeHasSeveral(books, info, c);
    } else if i, j :| 0 <= i < j < |books| && SeriesOf(books[i], info) == series == SeriesOf(books[j], info) {
      SeveralHaveNode(books, info, i, j);
      assert false;
    }
  }

  lemma FirstHasSeveral(books: seq<BookId>, info: Infos)
    requires books != [] && Grouped(books, info)[0].SeriesNode?
    ensures |books| >= 2 && SeriesOf(books[0], info) == SeriesOf(books[1], info)
    ensures Grouped(books, info)[0].books != [] && Grouped(books, info)[0].books[0] == books[0]
  {
  }

  lemma SeveralInTail(books: seq<BookId>, m: nat, series: string, info: Infos)
    requires m <= |books|
    requires exists i, j ::
      0 <= i < j < |books[m..]| && SeriesOf(books[m..][i], info) == series == SeriesOf(books[m..][j], info)
    ensures exists i, j :: 0 <= i < j < |books| && SeriesOf(books[i], info) == series == SeriesOf(books[j], info)
  {
    hide SeriesOf;
    var rest := books[m..];
    var i, j :| 0 <= i < j < |rest| && SeriesOf(rest[i], info) == series == SeriesOf(rest[j], info);
    assert SeriesOf(books[m + i], info) == series == SeriesOf(books[m + j], info);
  }

  /** A series node stands for two books of its series or more. */
  lemma {:induction false} NodeHasSeveral(books: seq<BookId>, info: Infos, c: Child)
    requires c in Grouped(books, info) && c.SeriesNode? && c.books != []
    ensures exists i, j ::
      0 <= i < j < |books| && SeriesOf(books[i], info) == SeriesOf(c.books[0], info) == SeriesOf(books[j], info)
    decreases |books|
  {
    hide SeriesOf, BooksOf, FirstCount;
    assert books != [];
    hide Grouped;
    GroupedSplits(books, info);
    var m := FirstCount(books, info);
    if c == Grouped(books, info)[0] {
      FirstHasSeveral(books, info);
    } else {
      var rest := books[m..];
      NodeHasSeveral(rest, info, c);
      SeveralInTail(books, m, SeriesOf(c.books[0], info), info);
    }
  }

  /** Two nodes for the same series. */
  predicate SameSeries(c: Child, d: Child, info: Infos)
  {
    && c.SeriesNode? && d.SeriesNode? && c.books != [] && d.books != []
    && SeriesOf(c.books[0], info) == SeriesOf(d.books[0], info)
  }

  /** No later node is for the series of the first one. */
  lemma FirstSeriesIsGone(books: seq<BookId>, info: Infos, c: Child)
    requires SeriesTogether(books, info) && books != [] && Grouped(books, info) != []
    requires c in Grouped(books[FirstCount(books, info)..], info)
    ensures !SameSeries(Grouped(books, info)[0], c, info)
  {
    hide SeriesTogether, NodeRight, SeriesOf, FirstCount;
    var first := Grouped(books, info)[0];
    if SameSeries(first, c, info) {
      var n := FirstCount(books, info);
      FirstHasSeveral(books, info);
      hide Grouped;
      TailTogether(books, info, n);
      GroupedIsRight(books[n..], info, c);
      RightSeriesNode(c, books[n..], info);
      GroupedIsRight(books, info, first);
      RightSeriesNode(first, books, info);
      FrontApart(books, info);
    }
  }

  ghost predicate OneNodePerSeries(nodes: seq<Child>, info: Infos)
  {
    forall i, j :: 0 <= i < j < |nodes| ==> !SameSeries(nodes[i], nodes[j], info)
  }

  lemma OneMoreNode(first: Child, nodes: seq<Child>, info: Infos)
    requires OneNodePerSeries(nodes, info) && forall c :: c in nodes ==> !SameSeries(first, c, info)
    ensures OneNodePerSeries([first] + nodes, info)
  {
    hide SameSeries;
  }

  /** No series ever has two nodes. */
  lemma {:induction false} SeriesNodesDiffer(books: seq<BookId>, info: Infos)
    requires SeriesTogether(books, info)
    ensures OneNodePerSeries(Grouped(books, info), info)
    decreases |books|
  {
    if books != [] {
      hide SeriesTogether, SeriesOf, FirstCount, BooksOf, SameSeries, OneNodePerSeries, Grouped;
      GroupedSplits(books, info);
      var m := FirstCount(books, info);
      var rest := Grouped(books[m..], info);
      TailTogether(books, info, m);
      SeriesNodesDiffer(books[m..], info);
      forall c | c in rest
        ensures !SameSeries(Grouped(books, info)[0], c, info)
      {
        FirstSeriesIsGone(books, info, c);
      }
      OneMoreNode(Grouped(books, info)[0], rest, info);
    }
  }

  /** What grouping a sorted list gives: the books in order, right nodes only, one node per series. */
  lemma SortedListIsGroupedRight(books: seq<BookId>, info: Infos)
    requires SortedBooks(books, info)
    ensures Flatten(Grouped(books, info)) == books && OneNodePerSeries(Grouped(books, info), info)
    ensures forall c <- Grouped(books, info) :: NodeRight(c, books, info)
    ensures forall series: string :: series != "" ==>
      (HasNode(Grouped(books, info), series, info) <==>
       exists i, j :: 0 <= i < j < |books| && SeriesOf(books[i], info) == series == SeriesOf(books[j], info))
  {
    hide SortedBooks, SeriesTogether, Grouped, Flatten, OneNodePerSeries, NodeRight, HasNode, SeriesOf;
    SortedIsTogether(books, info);
    GroupedFlattens(books, info);
    SeriesNodesDiffer(books, info);
    forall c | c in Grouped(books, info)
      ensures NodeRight(c, books, info)
    {
      GroupedIsRight(books, info, c);
    }
    forall series: string | series != ""
      ensures HasNode(Grouped(books, info), series, info) <==>
        exists i, j :: 0 <= i < j < |books| && SeriesOf(books[i], info) == series == SeriesOf(books[j], info)
    {
      SeriesNodeExactlyForSeveral(books, info, series);
    }
  }
}
