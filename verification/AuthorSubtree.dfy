/** Filling and checking the subtree of one author (LibraryByAuthorView.cpp). */
module AuthorSubtrees {
  import opened BookOrder
  import opened SeriesGroups

  /** No author, or an author with the key it is sorted by. */
  datatype Author = NoAuthor | Author(name: string, sortKey: string)

  // ---------- what is still to be filled in ----------

  /** The children there will be once the remaining books are added; `open` says that the last child is a series node
      still taking books. */
  function Filled(children: seq<Child>, open: bool, rest: seq<BookId>, info: Infos): seq<Child>
    requires open ==> children != [] && children[|children| - 1].SeriesNode? && children[|children| - 1].books != []
  {
    if !open then children + Grouped(rest, info)
    else
      var last := children[|children| - 1].books;
      var n := RunLength(rest, SeriesOf(last[0], info), info);
      children[..|children| - 1] + [SeriesNode(last + rest[..n])] + Grouped(rest[n..], info)
  }

  /** A book of another series closes the open node; so does the end of the list. */
  lemma FilledCloses(children: seq<Child>, last: seq<BookId>, rest: seq<BookId>, info: Infos)
    requires children != [] && last != [] && children[|children| - 1] == SeriesNode(last)
    requires rest == [] || SeriesOf(rest[0], info) != SeriesOf(last[0], info)
    ensures Filled(children, true, rest, info) == Filled(children, false, rest, info)
  {
    hide Grouped, SeriesOf;
    assert last + rest[..0] == last && rest[0..] == rest;
    assert children == children[..|children| - 1] + [SeriesNode(last)];
  }

  /** A book of the open series joins its node. */
  lemma FilledJoins(children: seq<Child>, last: seq<BookId>, rest: seq<BookId>, info: Infos)
    requires children != [] && last != [] && children[|children| - 1] == SeriesNode(last)
    requires rest != [] && SeriesOf(rest[0], info) == SeriesOf(last[0], info)
    ensures Filled(children, true, rest, info) ==
            Filled(children[..|children| - 1] + [SeriesNode(last + [rest[0]])], true, rest[1..], info)
  {
    hide Grouped, SeriesOf;
    var series := SeriesOf(last[0], info);
    var k := RunLength(rest[1..], series, info);
    assert RunLength(rest, series, info) == k + 1;
    assert last + rest[..k + 1] == last + [rest[0]] + rest[1..][..k];
    assert rest[k + 1..] == rest[1..][k..];
    assert (last + [rest[0]])[0] == last[0];
  }

  /** A book that has no series, or no neighbour of its series, stands alone. */
  lemma FilledAlone(children: seq<Child>, rest: seq<BookId>, info: Infos)
    requires rest != []
    requires SeriesOf(rest[0], info) == "" || |rest| == 1 || SeriesOf(rest[1], info) != SeriesOf(rest[0], info)
    ensures Filled(children, false, rest, info) == Filled(children + [BookNode(rest[0])], false, rest[1..], info)
  {
    GroupedSplits(rest, info);
    hide Grouped, SeriesOf;
    assert FirstCount(rest, info) == 1;
  }

  /** Two neighbours of one series open a node. */
  lemma FilledOpens(children: seq<Child>, rest: seq<BookId>, info: Infos)
    requires |rest| >= 2 && SeriesOf(rest[0], info) == SeriesOf(rest[1], info) != ""
    ensures Filled(children, false, rest, info) ==
            Filled(children + [SeriesNode([rest[0]])], true, rest[1..], info)
  {
    GroupedSplits(rest, info);
    hide Grouped, SeriesOf;
    var series := SeriesOf(rest[0], info);
    var k := RunLength(rest[1..], series, info);
    assert RunLength(rest, series, info) == k + 1;
    assert [rest[0]] + rest[1..][..k] == rest[..k + 1] && rest[1..][k..] == rest[k + 1..];
    assert (children + [SeriesNode([rest[0]])])[..|children|] == children;
  }

  // ---------- being up to date ----------

  /** Books outside series nodes have no series, books inside have one. */
  predicate PlacedBySeries(c: Child, info: Infos)
  {
    match c
    case BookNode(b) => SeriesOf(b, info) == ""
    case SeriesNode(bs) => forall b <- bs :: SeriesOf(b, info) != ""
  }

  /** What the check of a subtree looks at. */
  predicate UpToDate(children: seq<Child>, books: seq<BookId>, info: Infos)
  {
    Flatten(children) == books && forall c <- children :: PlacedBySeries(c, info)
  }

  lemma UpToDateExactly(children: seq<Child>, books: seq<BookId>, info: Infos)
    ensures UpToDate(children, books, info) <==>
      && Flatten(children) == books
      && (forall c <- children :: c.BookNode? ==> info(c.book).series == "")
      && forall c <- children :: c.SeriesNode? ==> forall x <- c.books :: info(x).series != ""
  {
  }

  lemma FlattenPrefix(children: seq<Child>, i: nat)
    requires i <= |children|
    ensures Flatten(children[..i]) <= Flatten(children)
    ensures i < |children| ==> Flatten(children[..i]) + BooksOf(children[i]) <= Flatten(children)
  {
    hide Flatten, BooksOf;
    assert children == children[..i] + children[i..];
    FlattenConcat(children[..i], children[i..]);
    if i < |children| {
      assert children[i..] == [children[i]] + children[i + 1..];
      FlattenFirst(children[i], children[i + 1..]);
    }
  }

  /** A mismatch at one place of one node is a mismatch of the whole subtree. */
  lemma MismatchAt(children: seq<Child>, books: seq<BookId>, info: Infos, i: nat, j: nat, at: nat)
    requires i < |children| && j < |BooksOf(children[i])| && at == |Flatten(children[..i])| + j
    requires at >= |books| || books[at] != BooksOf(children[i])[j] ||
             children[i].SeriesNode? == (SeriesOf(BooksOf(children[i])[j], info) == "")
    ensures !UpToDate(children, books, info)
  {
    hide SeriesOf;
    FlattenPrefix(children, i);
    if Flatten(children) == books {
      hide Flatten;
      assert books[at] == (Flatten(children[..i]) + BooksOf(children[i]))[at];
      assert !PlacedBySeries(children[i], info);
    }
  }

  class AuthorNode {
    const author: Author
    var children: seq<Child>

    constructor (author: Author)
      ensures this.author == author && children == []
    {
      this.author := author;
      children := [];
    }

    method FillAuthorSubtree(books: seq<BookId>, info: Infos)
      modifies this
      ensures children == old(children) + Grouped(books, info)
    {
      hide Grouped, SeriesOf, Filled;
      var open := false;
      ghost var all := Filled(children, false, books, info);
      var k: nat := 0;
      while k < |books|
        invariant k <= |books|
        invariant open ==>
          children != [] && children[|children| - 1].SeriesNode? && children[|children| - 1].books != []
        invariant open ==> SeriesOf(children[|children| - 1].books[0], info) != ""
        invariant Filled(children, open, books[k..], info) == all
      {
        ghost var rest := books[k..];
        ghost var before := children;
        assert rest[1..] == books[k + 1..];
        var series := SeriesOf(books[k], info);
        var joins := open && SeriesOf(children[|children| - 1].books[0], info) == series;
        if joins {
          FilledJoins(children, children[|children| - 1].books, rest, info);
          children := children[..|children| - 1] + [SeriesNode(children[|children| - 1].books + [books[k]])];
        } else {
          if open {
            FilledCloses(children, children[|children| - 1].books, rest, info);
          }
          if series == "" || k + 1 == |books| || SeriesOf(books[k + 1], info) != series {
            FilledAlone(children, rest, info);
            open := false;
            children := children + [BookNode(books[k])];
          } else {
            FilledOpens(children, rest, info);
            open := true;
            children := children + [SeriesNode([books[k]])];
          }
        }
        k := k + 1;
      }
      assert books[k..] == [];
      if open {
        FilledCloses(children, children[|children| - 1].books, [], info);
      }
      FilledAtEnd(children, info);
      FilledAtStart(old(children), books, info);
    }

    method IsSubtreeUpToDate(books: seq<BookId>, info: Infos) returns (b: bool)
      ensures b <==> UpToDate(children, books, info)
      // the nodes show the books in order; books outside series nodes have no series, books inside have one
      ensures b <==>
        && Flatten(children) == books
        && (forall c <- children :: c.BookNode? ==> info(c.book).series == "")
        && forall c <- children :: c.SeriesNode? ==> forall x <- c.books :: info(x).series != ""
    {
      UpToDateExactly(children, books, info);
      hide Flatten, SeriesOf, UpToDate;
      var at: nat := 0;
      var i: nat := 0;
      FlattenNothing();
      while i < |children|
        invariant i <= |children| && at <= |books|
        invariant Flatten(children[..i]) == books[..at]
        invariant forall c <- children[..i] :: PlacedBySeries(c, info)
      {
        ghost var start := at;
        var here := BooksOf(children[i]);
        var j: nat := 0;
        while j < |here|
          invariant j <= |here| && at == start + j && at <= |books|
          invariant here[..j] == books[start..at]
          invariant forall b <- here[..j] :: (SeriesOf(b, info) == "") == children[i].BookNode?
        {
          if at == |books| || books[at] != here[j] || (SeriesOf(here[j], info) == "") == children[i].SeriesNode? {
            MismatchAt(children, books, info, i, j, at);
            return false;
          }
          assert here[..j + 1] == here[..j] + [here[j]] && books[start..at + 1] == books[start..at] + [books[at]];
          at := at + 1;
          j := j + 1;
        }
        assert here[..j] == here;
        PlacedWhenAllAre(children[i], info);
        assert children[..i + 1] == children[..i] + [children[i]];
        FlattenLast(children[..i], children[i]);
        assert books[..start] + books[start..at] == books[..at];
        i := i + 1;
      }
      assert children[..i] == children;
      b := at == |books|;
      UpToDateMeans(children, books, info, at);
    }

    method UpdateAuthorSubtree(books: seq<BookId>, info: Infos)
      modifies this
      ensures children == Grouped(books, info)
    {
      children := [];
      FillAuthorSubtree(books, info);
    }
  }

  lemma FlattenNothing()
    ensures Flatten([]) == []
  {
  }

  lemma FilledAtEnd(children: seq<Child>, info: Infos)
    ensures Filled(children, false, [], info) == children
  {
  }

  lemma FilledAtStart(children: seq<Child>, books: seq<BookId>, info: Infos)
    ensures Filled(children, false, books, info) == children + Grouped(books, info)
  {
  }

  lemma PlacedWhenAllAre(c: Child, info: Infos)
    requires forall b <- BooksOf(c) :: (SeriesOf(b, info) == "") == c.BookNode?
    ensures PlacedBySeries(c, info)
  {
    hide SeriesOf;
    if c.BookNode? {
      assert c.book in BooksOf(c);
    }
  }

  lemma UpToDateMeans(children: seq<Child>, books: seq<BookId>, info: Infos, at: nat)
    requires at <= |books| && Flatten(children) == books[..at]
    requires forall c <- children :: PlacedBySeries(c, info)
    ensures UpToDate(children, books, info) <==> at == |books|
  {
    hide Flatten, PlacedBySeries;
  }

  // ---------- how good the check is ----------

  /** Series nodes are whole: two or more books of one series, and no neighbouring node of the same series. */
  predicate WellGrouped(children: seq<Child>, info: Infos)
  {
    && (forall c <- children :: Whole(c, info))
    && (forall i :: 0 <= i < |children| - 1 ==> !SameSeries(children[i], children[i + 1], info))
  }

  /** A subtree the check accepts is the one that would be built now exactly when its series nodes are whole: the
      check itself does not compare the series inside a node. */
  lemma {:induction false} AcceptedIsRightExactly(children: seq<Child>, books: seq<BookId>, info: Infos)
    requires UpToDate(children, books, info)
    ensures children == Grouped(books, info) <==> WellGrouped(children, info)
  {
    hide SeriesOf;
    if children == Grouped(books, info) {
      GroupedIsWellGrouped(books, info);
    } else if WellGrouped(children, info) {
      WellGroupedIsGrouped(children, info);
    }
  }

  lemma {:induction false} GroupedIsWellGrouped(books: seq<BookId>, info: Infos)
    ensures WellGrouped(Grouped(books, info), info)
    decreases |books|
  {
    if books != [] {
      hide SeriesOf, Grouped, WellGrouped, FirstCount, BooksOf;
      GroupedSplits(books, info);
      var rest := books[FirstCount(books, info)..];
      GroupedIsWellGrouped(rest, info);
      FirstIsWhole(books, info);
      OneMoreGroup(Grouped(books, info)[0], Grouped(rest, info), info);
    }
  }

  predicate Whole(c: Child, info: Infos)
  {
    c.SeriesNode? ==>
      && |c.books| >= 2 && SeriesOf(c.books[0], info) != ""
      && forall b <- c.books :: SeriesOf(b, info) == SeriesOf(c.books[0], info)
  }

  lemma FirstIsWhole(books: seq<BookId>, info: Infos)
    requires books != [] && Grouped(books, info) != []
    ensures Whole(Grouped(books, info)[0], info)
    ensures
      var next := Grouped(books[FirstCount(books, info)..], info);
      next != [] ==> !SameSeries(Grouped(books, info)[0], next[0], info)
  {
    hide SeriesOf;
    GroupedSplits(books, info);
    var m := FirstCount(books, info);
    if books[m..] != [] {
      GroupedSplits(books[m..], info);
    }
  }

  lemma OneMoreGroup(first: Child, rest: seq<Child>, info: Infos)
    requires WellGrouped(rest, info) && Whole(first, info)
    requires rest != [] ==> !SameSeries(first, rest[0], info)
    ensures WellGrouped([first] + rest, info)
  {
    hide SeriesOf, SameSeries;
    var all := [first] + rest;
    forall i | 0 <= i < |all| - 1
      ensures !SameSeries(all[i], all[i + 1], info)
    {
      if i > 0 {
        assert all[i] == rest[i - 1] && all[i + 1] == rest[i - 1 + 1];
      }
    }
  }

  lemma {:induction false} WellGroupedIsGrouped(children: seq<Child>, info: Infos)
    requires WellGrouped(children, info) && forall c <- children :: PlacedBySeries(c, info)
    ensures Grouped(Flatten(children), info) == children
  {
    if children != [] {
      hide SeriesOf, WellGrouped, BooksOf, Grouped, Flatten, FirstCount, PlacedBySeries;
      var first, rest := children[0], children[1..];
      assert children == [first] + rest;
      FlattenFirst(first, rest);
      LessGroups(children, info);
      WellGroupedIsGrouped(rest, info);
      var books := Flatten(children);
      FirstCountIs(first, rest, info);
      GroupedSplits(books, info);
      assert books[|BooksOf(first)|..] == Flatten(rest);
      FirstNodeIs(first, Flatten(rest), info);
    }
  }

  lemma LessGroups(children: seq<Child>, info: Infos)
    requires WellGrouped(children, info) && children != []
    ensures WellGrouped(children[1..], info) && Whole(children[0], info)
    ensures |children| > 1 ==> !SameSeries(children[0], children[1], info)
  {
    hide SeriesOf, SameSeries;
    var rest := children[1..];
    forall i | 0 <= i < |rest| - 1
      ensures !SameSeries(rest[i], rest[i + 1], info)
    {
      assert rest[i] == children[i + 1] && rest[i + 1] == children[i + 1 + 1];
    }
  }

  /** The book after a whole node is of another series. */
  lemma NextIsOther(first: Child, rest: seq<Child>, info: Infos)
    requires first.SeriesNode? && Whole(first, info) && rest != [] && Flatten(rest) != []
    requires !SameSeries(first, rest[0], info) && Whole(rest[0], info) && PlacedBySeries(rest[0], info)
    ensures SeriesOf(Flatten(rest)[0], info) != SeriesOf(first.books[0], info)
  {
    hide SeriesOf, Flatten;
    FlattenFirst(rest[0], rest[1..]);
    assert rest == [rest[0]] + rest[1..];
    assert Flatten(rest)[0] == BooksOf(rest[0])[0];
  }

  lemma RunLengthIs(run: seq<BookId>, after: seq<BookId>, series: string, info: Infos)
    requires forall b <- run :: SeriesOf(b, info) == series
    requires after != [] ==> SeriesOf(after[0], info) != series
    ensures RunLength(run + after, series, info) == |run|
  {
    hide SeriesOf;
    assert forall i :: 0 <= i < |run| ==> (run + after)[i] == run[i] && run[i] in run;
    assert after != [] ==> (run + after)[|run|] == after[0];
  }

  lemma FirstCountIs(first: Child, rest: seq<Child>, info: Infos)
    requires Whole(first, info) && PlacedBySeries(first, info)
    requires rest != [] ==> Whole(rest[0], info) && PlacedBySeries(rest[0], info) && !SameSeries(first, rest[0], info)
    ensures BooksOf(first) != [] && FirstCount(BooksOf(first) + Flatten(rest), info) == |BooksOf(first)|
  {
    hide SeriesOf, Flatten;
    var books := BooksOf(first) + Flatten(rest);
    if first.SeriesNode? {
      if rest != [] && Flatten(rest) != [] {
        NextIsOther(first, rest, info);
      } else if rest == [] {
        FlattenNothing();
      }
      assert books[0] == first.books[0];
      RunLengthIs(first.books, Flatten(rest), SeriesOf(first.books[0], info), info);
    } else {
      assert books[0] == first.book;
    }
  }

  lemma FirstNodeIs(first: Child, after: seq<BookId>, info: Infos)
    requires Whole(first, info)
    ensures var books := BooksOf(first) + after;
      first == if |BooksOf(first)| == 1 then BookNode(books[0]) else SeriesNode(books[..|BooksOf(first)|])
  {
    hide SeriesOf;
  }

  lemma FreshPassesByNodes(books: seq<BookId>, info: Infos)
    ensures UpToDate(Grouped(books, info), books, info) <==>
      forall c <- Grouped(books, info) :: c.BookNode? ==> SeriesOf(c.book, info) == ""
  {
    hide SeriesOf, Grouped, Flatten;
    GroupedFlattens(books, info);
    GroupedIsWellGrouped(books, info);
    forall c | c in Grouped(books, info) && c.SeriesNode?
      ensures PlacedBySeries(c, info)
    {
    }
  }

  /** A book of a series in a node of its own has no company in the list. */
  lemma AloneInNode(books: seq<BookId>, info: Infos, c: Child)
    requires NodeRight(c, books, info) && c.BookNode? && SeriesOf(c.book, info) != ""
    ensures exists i ::
      && 0 <= i < |books| && SeriesOf(books[i], info) == SeriesOf(c.book, info)
      && forall j :: 0 <= j < |books| && j != i ==> SeriesOf(books[j], info) != SeriesOf(books[i], info)
  {
    hide SeriesOf;
    var i :| 0 <= i < |books| && books[i] == c.book;
    forall j | 0 <= j < |books| && j != i
      ensures SeriesOf(books[j], info) != SeriesOf(books[i], info)
    {
      var a, b := if i < j then i else j, if i < j then j else i;
      assert 0 <= a < b < |books|;
    }
  }

  /** A book of a series in a series node has company in the list. */
  lemma CompanyInNode(books: seq<BookId>, info: Infos, c: Child, i: nat)
    requires NodeRight(c, books, info) && c in Grouped(books, info) && c.SeriesNode?
    requires i < |books| && books[i] in c.books
    ensures exists j :: 0 <= j < |books| && j != i && SeriesOf(books[j], info) == SeriesOf(books[i], info)
  {
    RightSeriesNode(c, books, info);
    hide SeriesOf, Grouped, NodeRight;
    NodeHasSeveral(books, info, c);
    var a, b :|
      0 <= a < b < |books| && SeriesOf(books[a], info) == SeriesOf(c.books[0], info) == SeriesOf(books[b], info);
    var j := if a == i then b else a;
    assert j != i && SeriesOf(books[j], info) == SeriesOf(books[i], info);
  }

  /** A freshly built subtree passes the check exactly when every book of a series has another one beside it in the
      list. */
  lemma FreshPassesExactly(books: seq<BookId>, info: Infos)
    requires SortedBooks(books, info)
    ensures UpToDate(Grouped(books, info), books, info) <==>
      forall i :: 0 <= i < |books| && SeriesOf(books[i], info) != "" ==>
        exists j :: 0 <= j < |books| && j != i && SeriesOf(books[j], info) == SeriesOf(books[i], info)
  {
    hide SeriesOf, Grouped, Flatten, SortedBooks, UpToDate, NodeRight, OneNodePerSeries, HasNode;
    FreshPassesByNodes(books, info);
    SortedListIsGroupedRight(books, info);
    var nodes := Grouped(books, info);
    if UpToDate(nodes, books, info) {
      forall i | 0 <= i < |books| && SeriesOf(books[i], info) != ""
        ensures exists j :: 0 <= j < |books| && j != i && SeriesOf(books[j], info) == SeriesOf(books[i], info)
      {
        InFlatten(nodes, books[i]);
        var c :| c in nodes && books[i] in BooksOf(c);
        CompanyInNode(books, info, c, i);
      }
    } else {
      var c :| c in nodes && c.BookNode? && SeriesOf(c.book, info) != "";
      AloneInNode(books, info, c);
    }
  }

  /** So the subtree just built for a single book of a series is found to be out of date. */
  lemma FreshSubtreeRejected()
    ensures
      var info := (b: BookId) => Info("t", "A", 1);
      Grouped([1], info) == [BookNode(1)] && !UpToDate(Grouped([1], info), [1], info)
  {
    var info := (b: BookId) => Info("t", "A", 1);
    assert SeriesOf(1, info) == "A";
    assert Grouped([], info) == [] && [1][1..] == [];
    assert Grouped([1], info) == [BookNode(1)];
    FreshPassesByNodes([1], info);
    assert BookNode(1) in Grouped([1], info);
  }

  /** So a stale grouping can be accepted: two books that used to share a series and now have one each. */
  lemma StaleGroupingAccepted()
    ensures
      var info := (b: BookId) => Info("t", if b == 1 then "A" else "B", 1);
      UpToDate([SeriesNode([1, 2])], [1, 2], info) && Grouped([1, 2], info) != [SeriesNode([1, 2])]
  {
    var info := (b: BookId) => Info("t", if b == 1 then "A" else "B", 1);
    FlattenLast([], SeriesNode([1, 2]));
    assert [] + [SeriesNode([1, 2])] == [SeriesNode([1, 2])];
    assert SeriesOf(1, info) == "A" && SeriesOf(2, info) == "B";
    assert UpToDate([SeriesNode([1, 2])], [1, 2], info);
    hide Grouped, UpToDate, Flatten;
    GroupedIsWellGrouped([1, 2], info);
    assert !Whole(SeriesNode([1, 2]), info);
  }
}
