/** The tree that comes out of reading a printed table of contents. */
module TocOutlines {
  import opened TocReaders
  import opened TocTrees

  // ---------- the tree that was printed ----------

  /** A tree as it is displayed. */
  datatype Outline = Nothing | Node(text: string, below: Outline, rest: Outline)

  /** The printed tree, without blank entries and with dots for missing texts. */
  function Shape(f: Forest, outside: Outside): Outline
  {
    match f
    case Nil => Nothing
    case More(text, local, below, rest) =>
      if Blank(text, local, outside) then Shape(rest, outside)
      else Node(Shown(text), if below.SubList? then Shape(below.entries, outside) else Nothing, Shape(rest, outside))
  }

  /** The tree that the parent numbers of the paragraphs describe: the entries under `parent` from number `i` on, and
      the number of the first paragraph after them. */
  function Rebuilt(paragraphs: seq<Paragraph>, i: nat, parent: int): (r: (Outline, nat))
    requires i <= |paragraphs|
    ensures i <= r.1 <= |paragraphs|
    decreases |paragraphs| - i
  {
    if i == |paragraphs| || paragraphs[i].parent != parent then (Nothing, i)
    else
      var (below, j) := Rebuilt(paragraphs, i + 1, i);
      var (rest, k) := Rebuilt(paragraphs, j, parent);
      (Node(paragraphs[i].text, below, rest), k)
  }

  lemma {:induction false} FirstParent(f: Forest, parent: int, base: int, outside: Outside, n: int)
    ensures
      var e := Expected(f, parent, base, outside, n);
      e != [] ==> e[0].parent == parent
  {
    if f.More? && Blank(f.text, f.local, outside) {
      FirstParent(f.rest, parent, base, outside, n);
    }
  }

  /** What follows the paragraphs of a list belongs to none of its entries. */
  ghost predicate Follows(a: seq<Paragraph>, b: seq<Paragraph>, parent: int)
  {
    b != [] ==> b[0].parent < |a| && b[0].parent != parent
  }

  lemma NothingRebuilds(a: seq<Paragraph>, parent: int, b: seq<Paragraph>, outside: Outside, n: int)
    requires Follows(a, b, parent)
    ensures Expected(Nil, parent, |a|, outside, n) == [] && Shape(Nil, outside) == Nothing
    ensures Rebuilt(a + [] + b, |a|, parent) == (Nothing, |a|)
  {
    assert a + [] + b == a + b;
    assert b != [] ==> (a + b)[|a|] == b[0];
  }

  lemma {:induction false} ExpectedRebuilds(a: seq<Paragraph>, f: Forest, parent: int, b: seq<Paragraph>,
                                            outside: Outside, n: int)
    requires parent < |a| && Follows(a, b, parent)
    ensures
      var e := Expected(f, parent, |a|, outside, n);
      Rebuilt(a + e + b, |a|, parent) == (Shape(f, outside), |a| + |e|)
    decreases f, 1
  {
    if f == Nil {
      NothingRebuilds(a, parent, b, outside, n);
    } else if Blank(f.text, f.local, outside) {
      hide Rebuilt;
      ExpectedRebuilds(a, f.rest, parent, b, outside, n);
    } else {
      EntryRebuilds(a, f, parent, b, outside, n);
    }
  }

  lemma {:induction false} EntryRebuilds(a: seq<Paragraph>, f: Forest, parent: int, b: seq<Paragraph>,
                                         outside: Outside, n: int)
    requires parent < |a| && Follows(a, b, parent)
    requires f.More? && !Blank(f.text, f.local, outside)
    ensures
      var e := Expected(f, parent, |a|, outside, n);
      Rebuilt(a + e + b, |a|, parent) == (Shape(f, outside), |a| + |e|)
    decreases f, 0
  {
    hide Expected, Rebuilt, ExpectedBelow, Shown;
    var p := Paragraph(parent, Shown(f.text), n);
    var entries := Entries(f.below);
    var inner := Expected(entries, |a|, |a| + 1, outside, n);
    var a1, a2 := a + [p], a + [p] + inner;
    var others := Expected(f.rest, parent, |a2|, outside, n);
    var e := Expected(f, parent, |a|, outside, n);
    EntryExpected(f, parent, |a|, outside, n);
    InnerIs(f.below, |a|, outside, n);
    assert e == [p] + inner + others;
    assert Follows(a1, others + b, |a|) by { FirstParent(f.rest, parent, |a2|, outside, n); }
    if f.below.SubList? {
      ExpectedRebuilds(a1, f.below.entries, |a|, others + b, outside, n);
    } else {
      NothingRebuilds(a1, |a|, others + b, outside, n);
    }
    ExpectedRebuilds(a2, f.rest, parent, b, outside, n);
    assert a1 + inner + (others + b) == a + e + b && a2 + others + b == a + e + b;
    RebuiltUnfolds(a + e + b, |a|, parent);
  }

  function Entries(b: Below): Forest { if b.SubList? then b.entries else Nil }

  lemma InnerIs(b: Below, parent: int, outside: Outside, n: int)
    ensures ExpectedBelow(b, parent, outside, n) == Expected(Entries(b), parent, parent + 1, outside, n)
  {
  }

  lemma RebuiltUnfolds(paragraphs: seq<Paragraph>, i: nat, parent: int)
    requires i < |paragraphs| && paragraphs[i].parent == parent
    ensures
      var (below, j) := Rebuilt(paragraphs, i + 1, i);
      var (rest, k) := Rebuilt(paragraphs, j, parent);
      Rebuilt(paragraphs, i, parent) == (Node(paragraphs[i].text, below, rest), k)
  {
  }

  lemma {:induction false} ReferredAll(paragraphs: seq<Paragraph>, references: seq<string>, target: string -> int)
    requires |references| <= |paragraphs|
    ensures
      var r := AllReferred(paragraphs, references, target);
      && |r| == |paragraphs|
      && (forall i :: 0 <= i < |references| ==> r[i] == paragraphs[i].(reference := target(references[i])))
      && (forall i :: |references| <= i < |paragraphs| ==> r[i] == paragraphs[i])
  {
    if references != [] {
      ReferredAll(paragraphs, references[..|references| - 1], target);
    }
  }

  lemma {:induction false} ReferencesDoNotMatter(a: seq<Paragraph>, b: seq<Paragraph>, i: nat, parent: int)
    requires |a| == |b| && i <= |a| && forall j :: 0 <= j < |a| ==> a[j].parent == b[j].parent && a[j].text == b[j].text
    ensures Rebuilt(a, i, parent) == Rebuilt(b, i, parent)
    decreases |a| - i
  {
    if i < |a| && a[i].parent == parent {
      ReferencesDoNotMatter(a, b, i + 1, i);
      ReferencesDoNotMatter(a, b, Rebuilt(a, i + 1, i).1, parent);
    }
  }

  /** The paragraphs of a whole document describe its tree. */
  lemma DocumentRebuilds(f: Forest, outside: Outside, n: int)
    ensures
      var e := Expected(f, NO_PARENT, 0, outside, n);
      Rebuilt(e, 0, NO_PARENT) == (Shape(f, outside), |e|)
  {
    hide Expected, Rebuilt, Shape;
    ExpectedRebuilds([], f, NO_PARENT, [], outside, n);
    var e := Expected(f, NO_PARENT, 0, outside, n);
    assert [] + e + [] == e;
  }

  function Nodes(o: Outline): nat
  {
    match o
    case Nothing => 0
    case Node(_, below, rest) => 1 + Nodes(below) + Nodes(rest)
  }

  lemma {:induction false} RebuiltCount(paragraphs: seq<Paragraph>, i: nat, parent: int)
    requires i <= |paragraphs|
    ensures Rebuilt(paragraphs, i, parent).1 == i + Nodes(Rebuilt(paragraphs, i, parent).0)
    decreases |paragraphs| - i
  {
    if i < |paragraphs| && paragraphs[i].parent == parent {
      RebuiltCount(paragraphs, i + 1, i);
      RebuiltCount(paragraphs, Rebuilt(paragraphs, i + 1, i).1, parent);
    }
  }

  /** Conversely, the tree determines the parents and the texts. */
  lemma {:induction false} TreeDetermines(a: seq<Paragraph>, b: seq<Paragraph>, i: nat, parent: int)
    requires |a| == |b| && i <= |a| && Rebuilt(a, i, parent).0 == Rebuilt(b, i, parent).0
    ensures Rebuilt(a, i, parent).1 == Rebuilt(b, i, parent).1
    ensures forall j :: i <= j < Rebuilt(a, i, parent).1 ==> a[j].parent == b[j].parent && a[j].text == b[j].text
    decreases |a| - i
  {
    RebuiltCount(a, i, parent);
    RebuiltCount(b, i, parent);
    if i < |a| && a[i].parent == parent {
      TreeDetermines(a, b, i + 1, i);
      TreeDetermines(a, b, Rebuilt(a, i + 1, i).1, parent);
    }
  }

  /** The tree comes back exactly when every entry finds its parent open. */
  lemma TreeIsRightExactly(r: Reader, f: Forest, outside: Outside, n: int)
    requires r.contents == Contents([], [], [], false) && r.references == []
    ensures
      var p := HandledAll(r, PrintBelow(SubList(f)), outside, n).contents.paragraphs;
      Rebuilt(p, 0, NO_PARENT) == (Shape(f, outside), |p|) <==> Placed(f, outside)
  {
    hide HandledAll, Expected, Rebuilt, Shape, Placed, PrintBelow, Texts, References;
    var p := HandledAll(r, PrintBelow(SubList(f)), outside, n).contents.paragraphs;
    var e := Expected(f, NO_PARENT, 0, outside, n);
    ParentsAreRightExactly(r, f, outside, n);
    DocumentRebuilds(f, outside, n);
    if Rebuilt(p, 0, NO_PARENT) == (Shape(f, outside), |p|) {
      RebuiltCount(p, 0, NO_PARENT);
      RebuiltCount(e, 0, NO_PARENT);
      TreeDetermines(p, e, 0, NO_PARENT);
      DocumentIsRead(r, f, outside, n);
      AllReferTo(f, NO_PARENT, 0, outside, n);
      assert forall i :: 0 <= i < |p| ==> p[i] == e[i];
    }
  }

  lemma {:induction false} AllReferTo(f: Forest, parent: int, base: int, outside: Outside, n: int)
    ensures forall p <- Expected(f, parent, base, outside, n) :: p.reference == n
  {
    if f.More? {
      if Blank(f.text, f.local, outside) {
        AllReferTo(f.rest, parent, base, outside, n);
      } else {
        var inner := ExpectedBelow(f.below, base, outside, n);
        if f.below.SubList? {
          AllReferTo(f.below.entries, base, base + 1, outside, n);
        }
        AllReferTo(f.rest, parent, base + 1 + |inner|, outside, n);
        EntryExpected(f, parent, base, outside, n);
      }
    }
  }

  /** From the printed table of contents to the contents model: all entries have their texts and lead where their
      references lead, and the tree comes back exactly when every entry finds its parent open. */
  method ReadTableOfContents(f: Forest, outside: Outside, leftOver: bool) returns (paragraphs: seq<Paragraph>)
    ensures |paragraphs| == |Texts(f, outside)| == |References(f, outside)|
    ensures forall i :: 0 <= i < |paragraphs| ==>
      paragraphs[i].text == Texts(f, outside)[i] && paragraphs[i].reference == outside.target(References(f, outside)[i])
    ensures Rebuilt(paragraphs, 0, NO_PARENT) == (Shape(f, outside), |paragraphs|) <==> Placed(f, outside)
  {
    hide HandledAll, References, Texts, Rebuilt, Shape, Handled, AllReferred, Placed, Count;
    var reader := new HHCReader(outside, leftOver);
    ghost var r := reader.State();
    reader.ReadDocument(PrintBelow(SubList(f)));
    ghost var n := reader.book.mainParagraphs;
    DocumentIsRead(r, f, outside, n);
    TreeIsRightExactly(r, f, outside, n);
    ghost var made := reader.book.paragraphs;
    reader.SetReferences();
    paragraphs := reader.book.paragraphs;
    ReferredAll(made, References(f, outside), outside.target);
    ReferencesDoNotMatter(paragraphs, made, 0, NO_PARENT);
  }

  // ---------- a list below a blank entry ----------

  function Single(text: string): Forest { More(text, "", NoList, Nil) }

  /** An entry whose list starts with a blank entry that has a list of its own, and goes on with another entry. */
  function BlankParent(): Forest
  {
    More("p", "", SubList(More("", "", SubList(Single("a")), Single("b"))), Nil)
  }

  /** The reader at such a point: the stack, the paragraphs, and the flag. */
  ghost predicate At(r: Reader, first: bool, stack: seq<int>, paragraphs: seq<Paragraph>)
  {
    Good(r.contents) && r.isFirstChild == first && r.contents.stack == stack && Settled(r.contents) == paragraphs
  }

  lemma AtEntry(
    r: Reader, first: bool, stack: seq<int>, paragraphs: seq<Paragraph>, text: string, outside: Outside, n: int)
    requires At(r, first, stack, paragraphs) && text != ""
    ensures
      var room := if first || stack == [] then stack else stack[..|stack| - 1];
      At(HandledAll(r, PrintEntry(text, ""), outside, n), false, room + [|paragraphs|],
         paragraphs + [Paragraph(Top(room), text, n)])
  {
    hide HandledAll, EntryEnds, PrintEntry, Good, Settled;
    HandledEntry(r, text, "", outside, n);
    EntryOpens(r.(text := text, reference := ReferenceOf("", outside)), outside, n);
  }

  lemma AtUl(r: Reader, first: bool, stack: seq<int>, paragraphs: seq<Paragraph>, outside: Outside, n: int)
    requires At(r, first, stack, paragraphs)
    ensures At(HandledAll(r, [Start("UL")], outside, n), true, stack, paragraphs)
    ensures
      var popped := if stack == [] then [] else stack[..|stack| - 1];
      At(HandledAll(r, [End("UL")], outside, n), first, popped, paragraphs)
  {
    hide HandledAll, Good, Settled, Ended;
    HandledOne(r, Start("UL"), outside, n);
    HandledOne(r, End("UL"), outside, n);
    EndedSettles(r.contents);
  }

  lemma AtBlank(r: Reader, first: bool, stack: seq<int>, paragraphs: seq<Paragraph>, outside: Outside, n: int)
    requires At(r, first, stack, paragraphs)
    ensures At(HandledAll(r, PrintEntry("", ""), outside, n), first, stack, paragraphs)
  {
    hide HandledAll, PrintEntry, Good, Settled;
    HandledEntry(r, "", "", outside, n);
  }

  /** Reading up to the list below the blank entry. */
  lemma UpToBlank(r: Reader, outside: Outside, n: int) returns (s: Reader)
    requires r.contents == Contents([], [], [], false)
    ensures
      var ul := [Start("UL")];
      s == HandledAll(r, ul + PrintEntry("p", "") + ul + PrintEntry("", "") + ul, outside, n)
    ensures At(s, true, [0], [Paragraph(NO_PARENT, "p", n)])
  {
    hide HandledAll, PrintEntry, Settled, Good;
    assert Good(r.contents) && Settled(r.contents) == [] by { EmptyContents(r.contents); }
    var ul, p, blank := [Start("UL")], PrintEntry("p", ""), PrintEntry("", "");
    var pp := Paragraph(NO_PARENT, "p", n);
    var r1 := HandledAll(r, ul, outside, n);
    AtUl(r, r.isFirstChild, [], [], outside, n);
    var r2 := HandledAll(r1, p, outside, n);
    AtEntry(r1, true, [], [], "p", outside, n);
    var r3 := HandledAll(r2, ul, outside, n);
    AtUl(r2, false, [0], [pp], outside, n);
    var r4 := HandledAll(r3, blank, outside, n);
    AtBlank(r3, true, [0], [pp], outside, n);
    s := HandledAll(r4, ul, outside, n);
    AtUl(r4, true, [0], [pp], outside, n);
    HandledConcat(r, ul, p, outside, n);
    HandledConcat(r, ul + p, ul, outside, n);
    HandledConcat(r, ul + p + ul, blank, outside, n);
    HandledConcat(r, ul + p + ul + blank, ul, outside, n);
  }

  /** Reading on, to the end. */
  lemma FromBlankOn(s: Reader, outside: Outside, n: int)
    requires At(s, true, [0], [Paragraph(NO_PARENT, "p", n)])
    ensures
      var ue := [End("UL")];
      var t := HandledAll(s, PrintEntry("a", "") + ue + PrintEntry("b", "") + ue + ue, outside, n);
      t.contents.paragraphs == [Paragraph(NO_PARENT, "p", n), Paragraph(0, "a", n), Paragraph(NO_PARENT, "b", n)]
  {
    hide HandledAll, PrintEntry, Settled, Good;
    var ue, a, b := [End("UL")], PrintEntry("a", ""), PrintEntry("b", "");
    var pp, pa, pb := Paragraph(NO_PARENT, "p", n), Paragraph(0, "a", n), Paragraph(NO_PARENT, "b", n);
    var s1 := HandledAll(s, a, outside, n);
    AtEntry(s, true, [0], [pp], "a", outside, n);
    var s2 := HandledAll(s1, ue, outside, n);
    AtUl(s1, false, [0, 1], [pp, pa], outside, n);
    assert [0, 1][..1] == [0];
    var s3 := HandledAll(s2, b, outside, n);
    AtEntry(s2, false, [0], [pp, pa], "b", outside, n);
    var s4 := HandledAll(s3, ue, outside, n);
    AtUl(s3, false, [2], [pp, pa, pb], outside, n);
    var s5 := HandledAll(s4, ue, outside, n);
    AtUl(s4, false, [], [pp, pa, pb], outside, n);
    HandledConcat(s, a, ue, outside, n);
    HandledConcat(s, a + ue, b, outside, n);
    HandledConcat(s, a + ue + b, ue, outside, n);
    HandledConcat(s, a + ue + b + ue, ue, outside, n);
    WrittenOut(s5.contents);
  }

  /** The reader then loses the parent: the entry "b", printed in the list of "p", comes out at the top. */
  lemma BlankParentMisplaces(r: Reader, outside: Outside, n: int)
    requires r.contents == Contents([], [], [], false)
    ensures !Placed(BlankParent(), outside)
    ensures HandledAll(r, PrintBelow(SubList(BlankParent())), outside, n).contents.paragraphs ==
            [Paragraph(NO_PARENT, "p", n), Paragraph(0, "a", n), Paragraph(NO_PARENT, "b", n)]
  {
    BlankParentIsNotPlaced(outside);
    BlankParentTags();
    hide HandledAll, PrintEntry, PrintEntries, PrintBelow, Settled, Good, Placed, At;
    var ul, ue := [Start("UL")], [End("UL")];
    var front := ul + PrintEntry("p", "") + ul + PrintEntry("", "") + ul;
    var back := PrintEntry("a", "") + ue + PrintEntry("b", "") + ue + ue;
    var s := UpToBlank(r, outside, n);
    FromBlankOn(s, outside, n);
    HandledConcat(r, front, back, outside, n);
    assert PrintBelow(SubList(BlankParent())) == front + back;
  }

  lemma BlankParentIsNotPlaced(outside: Outside)
    ensures !Placed(BlankParent(), outside)
  {
    var inner := More("", "", SubList(Single("a")), Single("b"));
    assert Count(Single("a"), outside) == 1;
    assert Next(inner, 1, Level(true, 0), outside).None?;
    assert Follow(inner, 1, Level(true, 0), outside).None?;
    assert Next(BlankParent(), 0, Level(true, 0), outside) == FollowBelow(SubList(inner), 0, outside);
  }

  lemma EmptyContents(c: Contents)
    requires c == Contents([], [], [], false)
    ensures Good(c) && Settled(c) == []
  {
  }

  lemma WrittenOut(c: Contents)
    requires Good(c) && c.stack == []
    ensures c.paragraphs == Settled(c)
  {
  }

  lemma BlankParentTags()
    ensures
      var ul, ue := [Start("UL")], [End("UL")];
      PrintBelow(SubList(BlankParent())) ==
      ul + PrintEntry("p", "") + ul + PrintEntry("", "") + ul + PrintEntry("a", "") + ue + PrintEntry("b", "") + ue + ue
  {
    hide PrintEntry;
    var ul, ue := [Start("UL")], [End("UL")];
    assert PrintEntries(Single("a")) == PrintEntry("a", "");
    assert PrintEntries(Single("b")) == PrintEntry("b", "");
    var inner := More("", "", SubList(Single("a")), Single("b"));
    assert PrintBelow(SubList(Single("a"))) == ul + PrintEntry("a", "") + ue;
    assert PrintEntries(inner) == PrintEntry("", "") + (ul + PrintEntry("a", "") + ue) + PrintEntry("b", "");
    assert PrintBelow(SubList(inner)) == ul + PrintEntries(inner) + ue;
    assert PrintEntries(BlankParent()) == PrintEntry("p", "") + PrintBelow(SubList(inner));
  }
}
