/** Reading a printed table of contents gives the tree that was printed. */
module TocTrees {
  import opened Basics
  import opened TocReaders

  // ---------- trees and how they are printed ----------

  /** A list of entries, each with a text, a reference and perhaps a list below it. */
  datatype Forest = Nil | More(text: string, local: string, below: Below, rest: Forest)
  datatype Below = NoList | SubList(entries: Forest)

  function Start(name: string): HtmlTag { HtmlTag(name, true, []) }

  function End(name: string): HtmlTag { HtmlTag(name, false, []) }

  function Param(name: string, value: string): HtmlTag { HtmlTag("PARAM", true, [("NAME", name), ("VALUE", value)]) }

  /** An entry without its list. */
  function PrintEntry(text: string, local: string): seq<HtmlTag>
  {
    [Start("LI"), Start("OBJECT"), Param("Name", text)] +
    (if local == "" then [] else [Param("Local", local)]) + [End("OBJECT")]
  }

  function PrintEntries(f: Forest): seq<HtmlTag>
  {
    match f
    case Nil => []
    case More(text, local, below, rest) => PrintEntry(text, local) + PrintBelow(below) + PrintEntries(rest)
  }

  function PrintBelow(b: Below): seq<HtmlTag>
  {
    match b
    case NoList => []
    case SubList(entries) => [Start("UL")] + PrintEntries(entries) + [End("UL")]
  }

  function ReferenceOf(local: string, outside: Outside): string
  {
    if local == "" then "" else outside.fullReference(local)
  }

  /** The reader makes no paragraph for an entry with neither text nor reference. */
  predicate Blank(text: string, local: string, outside: Outside) { text == "" && ReferenceOf(local, outside) == "" }

  /** How many entries of the tree get a paragraph, those in lists below blank entries included. */
  function Count(f: Forest, outside: Outside): nat
  {
    match f
    case Nil => 0
    case More(text, local, below, rest) =>
      (if Blank(text, local, outside) then 0 else 1) + CountBelow(below, outside) + Count(rest, outside)
  }

  function CountBelow(b: Below, outside: Outside): nat
  {
    match b
    case NoList => 0
    case SubList(entries) => Count(entries, outside)
  }

  /** How many lists there are in a tree. */
  function Lists(f: Forest): nat
  {
    match f
    case Nil => 0
    case More(_, _, below, rest) => ListsBelow(below) + Lists(rest)
  }

  function ListsBelow(b: Below): (n: nat)
    ensures n > 0 <==> b.SubList?
  {
    match b
    case NoList => 0
    case SubList(entries) => 1 + Lists(entries)
  }

  /** Where the reader stands in a list: whether the next entry counts as a first child, and how many ancestors too many
      have been closed. */
  datatype Level = Level(first: bool, debt: nat)

  /** The end of a list closes one entry. A list below a blank entry has none of its own: it closes the entry before,
      if that is open, or else an ancestor. */
  function AfterBlank(l: Level, lists: nat): Level
    requires lists > 0
  {
    if l.first then Level(true, l.debt + lists) else Level(true, lists - 1)
  }

  /** Follows one entry and the list below it, in a list with `depth` ancestors; none when an entry loses its parent,
      because an ancestor has been closed too early or because it hangs below a blank entry. */
  function Next(f: Forest, depth: nat, l: Level, outside: Outside): Option<Level>
    requires f.More?
    decreases f, 0
  {
    if Blank(f.text, f.local, outside) then
      if f.below.SubList? then
        if CountBelow(f.below, outside) > 0 then None else Some(AfterBlank(l, ListsBelow(f.below)))
      else Some(l)
    else if depth > 0 && l.debt > 0 then None
    else FollowBelow(f.below, depth, outside)
  }

  /** Follows all entries of a list. */
  function Follow(f: Forest, depth: nat, l: Level, outside: Outside): Option<Level>
    decreases f, 1
  {
    if f == Nil then Some(l)
    else
      var next := Next(f, depth, l, outside);
      if next.None? then None else Follow(f.rest, depth, next.value, outside)
  }

  function FollowBelow(b: Below, depth: nat, outside: Outside): Option<Level>
    decreases b, 0
  {
    match b
    case NoList => Some(Level(false, 0))
    case SubList(entries) => Follow(entries, depth + 1, Level(true, 0), outside)
  }

  /** Every entry finds its parent open. */
  predicate Placed(f: Forest, outside: Outside) { Follow(f, 0, Level(true, 0), outside).Some? }

  /** No list hangs below a blank entry. */
  predicate Readable(f: Forest, outside: Outside)
  {
    match f
    case Nil => true
    case More(text, local, below, rest) =>
      && (Blank(text, local, outside) ==> below.NoList?)
      && (below.SubList? ==> Readable(below.entries, outside)) && Readable(rest, outside)
  }

  /** Every list has an entry that is not blank, here or further down. */
  predicate NoEmptyList(f: Forest, outside: Outside)
  {
    match f
    case Nil => true
    case More(_, _, below, rest) =>
      && (below.SubList? ==> Count(below.entries, outside) > 0 && NoEmptyList(below.entries, outside))
      && NoEmptyList(rest, outside)
  }

  /** Without lists below blank entries nothing is ever closed too early. */
  lemma {:induction false} ReadableIsFollowed(f: Forest, depth: nat, l: Level, outside: Outside)
    requires Readable(f, outside) && l.debt == 0
    ensures Follow(f, depth, l, outside).Some? && Follow(f, depth, l, outside).value.debt == 0
  {
    if f.More? {
      if f.below.SubList? {
        ReadableIsFollowed(f.below.entries, depth + 1, Level(true, 0), outside);
      }
      var next := if Blank(f.text, f.local, outside) then Some(l) else FollowBelow(f.below, depth, outside);
      ReadableIsFollowed(f.rest, depth, next.value, outside);
    }
  }

  lemma {:induction false} FollowedIsReadable(f: Forest, depth: nat, l: Level, outside: Outside)
    requires NoEmptyList(f, outside) && Follow(f, depth, l, outside).Some?
    ensures Readable(f, outside)
  {
    if f.More? {
      var blank := Blank(f.text, f.local, outside);
      if f.below.SubList? {
        assert !blank && Next(f, depth, l, outside) == FollowBelow(f.below, depth, outside);
        FollowedIsReadable(f.below.entries, depth + 1, Level(true, 0), outside);
      }
      var next := if blank then Some(l) else FollowBelow(f.below, depth, outside);
      FollowedIsReadable(f.rest, depth, next.value, outside);
    }
  }

  /** When every list has something to show, all entries find their parents exactly when no list hangs below a blank
      entry. */
  lemma PlacedIsReadable(f: Forest, outside: Outside)
    requires NoEmptyList(f, outside)
    ensures Placed(f, outside) <==> Readable(f, outside)
  {
    if Placed(f, outside) {
      FollowedIsReadable(f, 0, Level(true, 0), outside);
    } else if Readable(f, outside) {
      ReadableIsFollowed(f, 0, Level(true, 0), outside);
    }
  }

  /** Otherwise a list below a blank entry need do no harm. */
  lemma HarmlessList(outside: Outside)
    ensures
      var f := More("", "", SubList(Nil), More("a", "", NoList, Nil));
      Placed(f, outside) && !Readable(f, outside)
  {
    var rest := More("a", "", NoList, Nil);
    var f := More("", "", SubList(Nil), rest);
    assert ListsBelow(SubList(Nil)) == 1 && CountBelow(SubList(Nil), outside) == 0;
    assert Next(f, 0, Level(true, 0), outside) == Some(Level(true, 1));
    assert Next(rest, 0, Level(true, 1), outside) == Some(Level(false, 0));
  }

  // ---------- what should come out ----------

  /** What an entry is shown as. */
  function Shown(text: string): string { if text == "" then "..." else text }

  /** The paragraphs of the entries, parents before what is below them, when the first of them has number `base`. */
  function Expected(f: Forest, parent: int, base: int, outside: Outside, reference: int): seq<Paragraph>
  {
    match f
    case Nil => []
    case More(text, local, below, rest) =>
      if Blank(text, local, outside) then Expected(rest, parent, base, outside, reference)
      else
        var inner := ExpectedBelow(below, base, outside, reference);
        [Paragraph(parent, Shown(text), reference)] + inner +
        Expected(rest, parent, base + 1 + |inner|, outside, reference)
  }

  function ExpectedBelow(b: Below, parent: int, outside: Outside, reference: int): seq<Paragraph>
  {
    match b
    case NoList => []
    case SubList(entries) => Expected(entries, parent, parent + 1, outside, reference)
  }

  /** The texts of all entries that get a paragraph, in the same order. */
  function Texts(f: Forest, outside: Outside): seq<string>
  {
    match f
    case Nil => []
    case More(text, local, below, rest) =>
      (if Blank(text, local, outside) then [] else [Shown(text)]) + TextsBelow(below, outside) + Texts(rest, outside)
  }

  function TextsBelow(b: Below, outside: Outside): seq<string>
  {
    match b
    case NoList => []
    case SubList(entries) => Texts(entries, outside)
  }

  /** The references of the same entries. */
  function References(f: Forest, outside: Outside): seq<string>
  {
    match f
    case Nil => []
    case More(text, local, below, rest) =>
      (if Blank(text, local, outside) then [] else [outside.lower(ReferenceOf(local, outside))])
      + ReferencesBelow(below, outside) + References(rest, outside)
  }

  function ReferencesBelow(b: Below, outside: Outside): seq<string>
  {
    match b
    case NoList => []
    case SubList(entries) => References(entries, outside)
  }

  lemma {:induction false} AsManyTexts(f: Forest, outside: Outside)
    ensures |Texts(f, outside)| == |References(f, outside)| == Count(f, outside)
  {
    if f.More? {
      if f.below.SubList? {
        AsManyTexts(f.below.entries, outside);
      }
      AsManyTexts(f.rest, outside);
    }
  }

  // ---------- the reader, with its buffer written out ----------

  /** The paragraphs as they will be once the buffer has been written out. */
  function Settled(c: Contents): seq<Paragraph>
  {
    if c.buffer == [] then c.paragraphs else AddText(c.paragraphs, Join(c.buffer))
  }

  /** The last paragraph is without text just while its text is in the buffer; then it is still open. */
  predicate Good(c: Contents)
  {
    && (c.lastIsEmpty <==> c.buffer != []) && (c.buffer != [] ==> c.stack != [] && c.paragraphs != [])
  }

  function Top(stack: seq<int>): int { if stack == [] then NO_PARENT else stack[|stack| - 1] }

  lemma EndedSettles(c: Contents)
    requires Good(c)
    ensures Good(Ended(c)) && Settled(Ended(c)) == Settled(c)
    ensures Ended(c).stack == if c.stack == [] then [] else c.stack[..|c.stack| - 1]
  {
  }

  /** A new paragraph with its text. */
  lemma BegunSettles(c: Contents, reference: int, text: string)
    requires Good(c)
    ensures
      var b := Begun(c, reference);
      var d := b.(buffer := b.buffer + [text]);
      && Good(d) && d.stack == c.stack + [|Settled(c)|]
      && Settled(d) == Settled(c) + [Paragraph(Top(c.stack), text, reference)]
  {
    var b := Begun(c, reference);
    var d := b.(buffer := b.buffer + [text]);
    assert d.buffer == [text];
    JoinOne(text);
    assert "" + text == text;
  }

  lemma JoinOne(text: string)
    ensures Join([text]) == text
  {
    assert [text][..0] == [];
  }

  lemma {:induction false} HandledConcat(r: Reader, a: seq<HtmlTag>, b: seq<HtmlTag>, outside: Outside, n: int)
    ensures HandledAll(r, a + b, outside, n) == HandledAll(HandledAll(r, a, outside, n), b, outside, n)
  {
    if b == [] {
      assert a + b == a;
    } else {
      hide Handled;
      var front, last := b[..|b| - 1], b[|b| - 1];
      assert (a + b)[..|a + b| - 1] == a + front && (a + b)[|a + b| - 1] == last;
      HandledConcat(r, a, front, outside, n);
    }
  }

  lemma HandledOne(r: Reader, tag: HtmlTag, outside: Outside, n: int)
    ensures HandledAll(r, [tag], outside, n) == Handled(r, tag, outside, n)
  {
    hide Handled;
    assert [tag][..0] == [];
    assert HandledAll(r, [], outside, n) == r;
  }

  lemma ParamIs(name: string, value: string)
    ensures AttributeOf(Param(name, value).attributes, "NAME") == name
    ensures AttributeOf(Param(name, value).attributes, "VALUE") == value
  {
    var all := [("NAME", name), ("VALUE", value)];
    assert all[..1] == [("NAME", name)];
  }

  /** The tags of one entry. */
  lemma HandledEntry(r: Reader, text: string, local: string, outside: Outside, n: int)
    ensures HandledAll(r, PrintEntry(text, local), outside, n) ==
            EntryEnds(r.(text := text, reference := ReferenceOf(local, outside)), outside, n)
  {
    hide EntryEnds, AttributeOf;
    ParamIs("Name", text);
    ParamIs("Local", local);
    var opening := [Start("LI"), Start("OBJECT"), Param("Name", text)];
    EntryOpening(r, text, outside, n);
    hide HandledAll;
    var opened_ := r.(text := text, reference := "");
    var localTags := if local == "" then [] else [Param("Local", local)];
    HandledConcat(r, opening, localTags, outside, n);
    HandledConcat(r, opening + localTags, [End("OBJECT")], outside, n);
    if local == "" {
      assert opening + localTags == opening;
    } else {
      HandledOne(opened_, Param("Local", local), outside, n);
    }
    HandledOne(r.(text := text, reference := ReferenceOf(local, outside)), End("OBJECT"), outside, n);
  }

  lemma EntryOpening(r: Reader, text: string, outside: Outside, n: int)
    ensures HandledAll(r, [Start("LI"), Start("OBJECT"), Param("Name", text)], outside, n) ==
            r.(text := text, reference := "")
  {
    hide AttributeOf, HandledAll, EntryEnds;
    ParamIs("Name", text);
    HandledOne(r, Start("LI"), outside, n);
    HandledOne(r, Start("OBJECT"), outside, n);
    HandledConcat(r, [Start("LI")], [Start("OBJECT")], outside, n);
    HandledConcat(r, [Start("LI")] + [Start("OBJECT")], [Param("Name", text)], outside, n);
    HandledOne(r.(text := "", reference := ""), Param("Name", text), outside, n);
    assert [Start("LI"), Start("OBJECT"), Param("Name", text)] ==
           [Start("LI")] + [Start("OBJECT")] + [Param("Name", text)];
  }

  /** Where a new entry is put: the entry before it, if it is open, is closed first. */
  function Room(r: Reader): seq<int>
  {
    var stack := r.contents.stack;
    if r.isFirstChild || stack == [] then stack else stack[..|stack| - 1]
  }

  /** An entry closes the one before it and stays open itself, under the innermost entry that is open. */
  lemma EntryOpens(r: Reader, outside: Outside, n: int)
    requires Good(r.contents) && (r.text != "" || r.reference != "")
    ensures
      var e := EntryEnds(r, outside, n);
      && Good(e.contents) && !e.isFirstChild && e.contents.stack == Room(r) + [|Settled(r.contents)|]
      && Settled(e.contents) == Settled(r.contents) + [Paragraph(Top(Room(r)), Shown(r.text), n)]
      && e.references == r.references + [outside.lower(r.reference)]
  {
    hide Begun, Ended, Settled, Good;
    EndedSettles(r.contents);
    BegunSettles(if r.isFirstChild then r.contents else Ended(r.contents), n, Shown(r.text));
  }

  /** The tags of an entry, of its list and of the entries after it. */
  lemma HandledParts(r: Reader, f: Forest, outside: Outside, n: int)
    requires f.More?
    ensures
      var e := EntryEnds(r.(text := f.text, reference := ReferenceOf(f.local, outside)), outside, n);
      HandledAll(r, PrintEntries(f), outside, n) ==
      HandledAll(HandledAll(e, PrintBelow(f.below), outside, n), PrintEntries(f.rest), outside, n)
  {
    hide HandledAll, EntryEnds, PrintEntry, PrintBelow, ReferenceOf;
    var entry, list, others := PrintEntry(f.text, f.local), PrintBelow(f.below), PrintEntries(f.rest);
    assert PrintEntries(f) == entry + list + others;
    hide PrintEntries;
    HandledEntry(r, f.text, f.local, outside, n);
    HandledConcat(r, entry, list, outside, n);
    HandledConcat(r, entry + list, others, outside, n);
  }

  /** The tags of a list. */
  lemma HandledList(r: Reader, entries: Forest, outside: Outside, n: int)
    ensures
      var s := HandledAll(r.(isFirstChild := true), PrintEntries(entries), outside, n);
      HandledAll(r, PrintBelow(SubList(entries)), outside, n) == s.(contents := Ended(s.contents))
  {
    hide HandledAll, PrintEntries, Ended;
    var started := r.(isFirstChild := true);
    HandledOne(r, Start("UL"), outside, n);
    HandledConcat(r, [Start("UL")], PrintEntries(entries), outside, n);
    HandledConcat(r, [Start("UL")] + PrintEntries(entries), [End("UL")], outside, n);
    HandledOne(HandledAll(started, PrintEntries(entries), outside, n), End("UL"), outside, n);
  }

  lemma BlankEntry(named: Reader, outside: Outside, n: int)
    requires named.text == "" && named.reference == ""
    ensures EntryEnds(named, outside, n) == named
  {
  }

  // ---------- what is read in any case ----------

  /** Reading adds paragraphs with these texts and references; the stack is no higher than the lists are deep. */
  ghost predicate Adds(r: Reader, s: Reader, added: seq<Paragraph>, texts: seq<string>, references: seq<string>,
                       height: nat, n: int)
  {
    && Good(s.contents) && InHeight(s, height)
    && Settled(s.contents) == Settled(r.contents) + added
    && |added| == |texts|
    && (forall i :: 0 <= i < |added| ==> added[i].text == texts[i] && added[i].reference == n)
    && s.references == r.references + references
  }

  predicate InHeight(r: Reader, height: nat) { |r.contents.stack| <= height + if r.isFirstChild then 0 else 1 }

  lemma AddsTwice(r: Reader, s: Reader, t: Reader, a: seq<Paragraph>, aTexts: seq<string>, aRefs: seq<string>,
                  b: seq<Paragraph>, bTexts: seq<string>, bRefs: seq<string>, height: nat, n: int)
    requires Adds(r, s, a, aTexts, aRefs, height, n) && Adds(s, t, b, bTexts, bRefs, height, n)
    ensures Adds(r, t, a + b, aTexts + bTexts, aRefs + bRefs, height, n)
  {
    hide Settled, Good, InHeight;
  }

  /** Whatever the tree, every entry that is not blank gets its paragraph, with its text and its reference, in order. */
  lemma {:induction false} EverythingIsMade(r: Reader, f: Forest, height: nat, outside: Outside, n: int)
    returns (added: seq<Paragraph>)
    requires Good(r.contents) && InHeight(r, height)
    ensures
      var s := HandledAll(r, PrintEntries(f), outside, n);
      Adds(r, s, added, Texts(f, outside), References(f, outside), height, n)
    decreases f, 1
  {
    if f == Nil {
      added := [];
    } else {
      hide HandledAll, EntryEnds, Settled, Good, Adds, PrintEntries, PrintBelow, Texts, References, TextsBelow,
        ReferencesBelow, ReferenceOf, InHeight;
      var e := EntryEnds(r.(text := f.text, reference := ReferenceOf(f.local, outside)), outside, n);
      HandledParts(r, f, outside, n);
      var p := EntryIsMade(r, f, height, outside, n);
      GoodAfter(r, e, p, height, n, OwnText(f, outside), OwnReference(f, outside));
      var b := HandledAll(e, PrintBelow(f.below), outside, n);
      var inner := BelowIsMade(e, f.below, height, outside, n);
      GoodAfter(e, b, inner, height, n, TextsBelow(f.below, outside), ReferencesBelow(f.below, outside));
      var others := EverythingIsMade(b, f.rest, height, outside, n);
      added := p + inner + others;
      AddsTwice(r, e, b, p, OwnText(f, outside), OwnReference(f, outside),
                inner, TextsBelow(f.below, outside), ReferencesBelow(f.below, outside), height, n);
      AddsTwice(r, b, HandledAll(b, PrintEntries(f.rest), outside, n), p + inner,
                OwnText(f, outside) + TextsBelow(f.below, outside),
                OwnReference(f, outside) + ReferencesBelow(f.below, outside),
                others, Texts(f.rest, outside), References(f.rest, outside), height, n);
      TextsSplit(f, outside);
    }
  }

  function OwnText(f: Forest, outside: Outside): seq<string>
    requires f.More?
  {
    if Blank(f.text, f.local, outside) then [] else [Shown(f.text)]
  }

  function OwnReference(f: Forest, outside: Outside): seq<string>
    requires f.More?
  {
    if Blank(f.text, f.local, outside) then [] else [outside.lower(ReferenceOf(f.local, outside))]
  }

  lemma TextsSplit(f: Forest, outside: Outside)
    requires f.More?
    ensures Texts(f, outside) == OwnText(f, outside) + TextsBelow(f.below, outside) + Texts(f.rest, outside)
    ensures References(f, outside) ==
            OwnReference(f, outside) + ReferencesBelow(f.below, outside) + References(f.rest, outside)
  {
  }

  lemma GoodAfter(
    r: Reader, s: Reader, added: seq<Paragraph>, height: nat, n: int, texts: seq<string>, references: seq<string>)
    requires Adds(r, s, added, texts, references, height, n)
    ensures Good(s.contents) && InHeight(s, height)
  {
  }

  lemma EntryIsMade(r: Reader, f: Forest, height: nat, outside: Outside, n: int) returns (added: seq<Paragraph>)
    requires Good(r.contents) && InHeight(r, height) && f.More?
    ensures Adds(r, EntryEnds(r.(text := f.text, reference := ReferenceOf(f.local, outside)), outside, n), added,
                 OwnText(f, outside), OwnReference(f, outside), height, n)
  {
    hide EntryEnds, Settled, Good, Shown;
    var named := r.(text := f.text, reference := ReferenceOf(f.local, outside));
    if Blank(f.text, f.local, outside) {
      BlankEntry(named, outside, n);
      added := [];
    } else {
      EntryOpens(named, outside, n);
      added := [Paragraph(Top(Room(named)), Shown(f.text), n)];
    }
  }

  lemma {:induction false} BelowIsMade(e: Reader, below: Below, height: nat, outside: Outside, n: int)
    returns (added: seq<Paragraph>)
    requires Good(e.contents) && InHeight(e, height)
    ensures Adds(e, HandledAll(e, PrintBelow(below), outside, n), added,
                 TextsBelow(below, outside), ReferencesBelow(below, outside), height, n)
    decreases below, 1
  {
    match below
    case NoList =>
      added := [];
    case SubList(entries) =>
      hide HandledAll, Settled, Good, PrintEntries, PrintBelow, Texts, References, Ended;
      HandledList(e, entries, outside, n);
      var started := e.(isFirstChild := true);
      added := EverythingIsMade(started, entries, height + 1, outside, n);
      EndedSettles(HandledAll(started, PrintEntries(entries), outside, n).contents);
  }

  // ---------- where the entries are put ----------

  function Min0(n: int): nat { if n < 0 then 0 else n }

  /** What is left of the open ancestors when some have been closed too early. */
  function Left(outer: seq<int>, debt: nat): seq<int> { outer[..Min0(|outer| - debt)] }

  /** Inside a list whose ancestors are `outer`: the entry before is open as well unless the flag for a first child is
      set. */
  predicate InLevel(r: Reader, outer: seq<int>, l: Level)
  {
    && Good(r.contents) && r.isFirstChild == l.first && (!l.first ==> l.debt == 0)
    && if l.first then r.contents.stack == Left(outer, l.debt)
       else |r.contents.stack| == |outer| + 1 && r.contents.stack[..|outer|] == outer
  }

  /** Reading adds just these paragraphs and ends at that level. */
  ghost predicate Reads(r: Reader, s: Reader, outer: seq<int>, m: Level, paragraphs: seq<Paragraph>)
  {
    InLevel(s, outer, m) && Settled(s.contents) == Settled(r.contents) + paragraphs
  }

  lemma ReadsMeans(r: Reader, s: Reader, outer: seq<int>, m: Level, paragraphs: seq<Paragraph>)
    requires Reads(r, s, outer, m, paragraphs)
    ensures InLevel(s, outer, m) && |Settled(s.contents)| == |Settled(r.contents)| + |paragraphs|
    ensures Good(s.contents)
  {
  }

  /** An entry, what is below it, and the entries after it. */
  lemma ReadsOn(r: Reader, e: Reader, b: Reader, s: Reader, outer: seq<int>, l: Level, m: Level,
                p: seq<Paragraph>, x: seq<Paragraph>, y: seq<Paragraph>)
    requires Settled(e.contents) == Settled(r.contents) + p
    requires Reads(e, b, outer, l, x) && Reads(b, s, outer, m, y)
    ensures Reads(r, s, outer, m, p + x + y)
  {
    hide Settled, InLevel;
  }

  lemma BlankExpected(f: Forest, parent: int, base: int, outside: Outside, n: int)
    requires f.More? && Blank(f.text, f.local, outside)
    ensures Expected(f, parent, base, outside, n) == Expected(f.rest, parent, base, outside, n)
  {
  }

  lemma EntryExpected(f: Forest, parent: int, base: int, outside: Outside, n: int)
    requires f.More? && !Blank(f.text, f.local, outside)
    ensures
      var inner := ExpectedBelow(f.below, base, outside, n);
      Expected(f, parent, base, outside, n) ==
      [Paragraph(parent, Shown(f.text), n)] + inner + Expected(f.rest, parent, base + 1 + |inner|, outside, n)
  {
  }

  lemma FollowSteps(f: Forest, depth: nat, l: Level, outside: Outside)
    requires f.More?
    ensures Follow(f, depth, l, outside) ==
            if Next(f, depth, l, outside).None? then None
            else Follow(f.rest, depth, Next(f, depth, l, outside).value, outside)
  {
  }

  /** Lists without paragraphs only close what is open. */
  lemma {:induction false} PopsOnly(r: Reader, f: Forest, outside: Outside, n: int)
    requires Good(r.contents) && Count(f, outside) == 0
    ensures
      var s := HandledAll(r, PrintEntries(f), outside, n);
      && Good(s.contents) && Settled(s.contents) == Settled(r.contents)
      && s.contents.stack == Left(r.contents.stack, Lists(f)) && s.isFirstChild == (r.isFirstChild || Lists(f) > 0)
    decreases f, 1
  {
    hide EntryEnds, Settled, Good, PrintBelow, ReferenceOf;
    if f == Nil {
    } else {
      hide HandledAll, PrintEntries;
      var named := r.(text := f.text, reference := ReferenceOf(f.local, outside));
      HandledParts(r, f, outside, n);
      BlankEntry(named, outside, n);
      BelowPopsOnly(named, f.below, outside, n);
      PopsOnly(HandledAll(named, PrintBelow(f.below), outside, n), f.rest, outside, n);
    }
  }

  lemma {:induction false} BelowPopsOnly(r: Reader, below: Below, outside: Outside, n: int)
    requires Good(r.contents) && CountBelow(below, outside) == 0
    ensures
      var s := HandledAll(r, PrintBelow(below), outside, n);
      && Good(s.contents) && Settled(s.contents) == Settled(r.contents)
      && s.contents.stack == Left(r.contents.stack, ListsBelow(below))
      && s.isFirstChild == (r.isFirstChild || ListsBelow(below) > 0)
    decreases below, 1
  {
    match below
    case NoList =>
    case SubList(entries) =>
      hide HandledAll, Settled, Good, PrintEntries, PrintBelow, Ended;
      HandledList(r, entries, outside, n);
      PopsOnly(r.(isFirstChild := true), entries, outside, n);
      EndedSettles(HandledAll(r.(isFirstChild := true), PrintEntries(entries), outside, n).contents);
  }

  /** A blank entry, with the list below it if there is one. */
  lemma BlankIsRead(r: Reader, f: Forest, outer: seq<int>, l: Level, outside: Outside, n: int)
    requires f.More? && Blank(f.text, f.local, outside) && InLevel(r, outer, l) && Next(f, |outer|, l, outside).Some?
    ensures
      var e := EntryEnds(r.(text := f.text, reference := ReferenceOf(f.local, outside)), outside, n);
      && Settled(e.contents) == Settled(r.contents)
      && Reads(e, HandledAll(e, PrintBelow(f.below), outside, n), outer, Next(f, |outer|, l, outside).value, [])
  {
    hide HandledAll, EntryEnds, Settled, Good, PrintBelow, ReferenceOf;
    var named := r.(text := f.text, reference := ReferenceOf(f.local, outside));
    BlankEntry(named, outside, n);
    BelowPopsOnly(named, f.below, outside, n);
  }

  /** The end of a list closes its last entry or, when it has none, the entry it hangs below. */
  lemma ListEnds(s: Reader, outer: seq<int>, m: Level, number: int)
    requires InLevel(s, outer + [number], m)
    ensures
      var t := s.(contents := Ended(s.contents));
      InLevel(t, outer, m) && Settled(t.contents) == Settled(s.contents)
  {
    hide Good, Settled, Ended;
    EndedSettles(s.contents);
    var inside := outer + [number];
    assert inside[..|outer|] == outer;
    if !s.isFirstChild {
      assert s.contents.stack[..|s.contents.stack| - 1] == inside;
    } else if m.debt > 0 {
      assert Left(inside, m.debt) == outer[..Min0(|outer| + 1 - m.debt)];
    }
  }

  /** An entry that finds its parent open. */
  lemma EntryFindsParent(r: Reader, f: Forest, outer: seq<int>, l: Level, outside: Outside, n: int)
    requires f.More? && !Blank(f.text, f.local, outside) && InLevel(r, outer, l) && (outer == [] || l.debt == 0)
    ensures
      var e := EntryEnds(r.(text := f.text, reference := ReferenceOf(f.local, outside)), outside, n);
      && Good(e.contents) && !e.isFirstChild && e.contents.stack == outer + [|Settled(r.contents)|]
      && Settled(e.contents) == Settled(r.contents) + [Paragraph(Top(outer), Shown(f.text), n)]
  {
    hide EntryEnds, Settled, Good, Shown;
    EntryOpens(r.(text := f.text, reference := ReferenceOf(f.local, outside)), outside, n);
  }

  /** Reading the entries of a list that all find their parents open. */
  lemma {:induction false} EntriesAreRead(r: Reader, f: Forest, outer: seq<int>, l: Level, outside: Outside, n: int)
    requires InLevel(r, outer, l) && Follow(f, |outer|, l, outside).Some?
    ensures Reads(r, HandledAll(r, PrintEntries(f), outside, n), outer, Follow(f, |outer|, l, outside).value,
                  Expected(f, Top(outer), |Settled(r.contents)|, outside, n))
    decreases f, 1
  {
    if f.More? {
      hide HandledAll, EntryEnds, Settled, InLevel, Expected, PrintEntries, PrintBelow, Reads, Follow, Next,
        ReferenceOf, ExpectedBelow;
      FollowSteps(f, |outer|, l, outside);
      HandledParts(r, f, outside, n);
      var base := |Settled(r.contents)|;
      var e := EntryEnds(r.(text := f.text, reference := ReferenceOf(f.local, outside)), outside, n);
      var b := HandledAll(e, PrintBelow(f.below), outside, n);
      var next := Next(f, |outer|, l, outside).value;
      var own, inner := EntryIsRead(r, f, outer, l, outside, n);
      ReadsMeans(e, b, outer, next, inner);
      EntriesAreRead(b, f.rest, outer, next, outside, n);
      ReadsOn(r, e, b, HandledAll(b, PrintEntries(f.rest), outside, n), outer, next,
              Follow(f, |outer|, l, outside).value, own, inner,
              Expected(f.rest, Top(outer), |Settled(b.contents)|, outside, n));
    }
  }

  /** One entry and what is below it. */
  lemma {:induction false} EntryIsRead(r: Reader, f: Forest, outer: seq<int>, l: Level, outside: Outside, n: int)
    returns (own: seq<Paragraph>, inner: seq<Paragraph>)
    requires f.More? && InLevel(r, outer, l) && Next(f, |outer|, l, outside).Some?
    ensures
      var base := |Settled(r.contents)|;
      var e := EntryEnds(r.(text := f.text, reference := ReferenceOf(f.local, outside)), outside, n);
      && Settled(e.contents) == Settled(r.contents) + own
      && Reads(e, HandledAll(e, PrintBelow(f.below), outside, n), outer, Next(f, |outer|, l, outside).value, inner)
      && Expected(f, Top(outer), base, outside, n) ==
         own + inner + Expected(f.rest, Top(outer), base + |own| + |inner|, outside, n)
    decreases f, 0
  {
    hide HandledAll, EntryEnds, Settled, Good, Expected, PrintBelow, Reads, Shown, ReferenceOf, ExpectedBelow;
    var base := |Settled(r.contents)|;
    if Blank(f.text, f.local, outside) {
      hide InLevel, Next;
      BlankIsRead(r, f, outer, l, outside, n);
      BlankExpected(f, Top(outer), base, outside, n);
      own, inner := [], [];
    } else {
      var e := EntryEnds(r.(text := f.text, reference := ReferenceOf(f.local, outside)), outside, n);
      assert FollowBelow(f.below, |outer|, outside).Some? && (outer == [] || l.debt == 0);
      EntryFindsParent(r, f, outer, l, outside, n);
      hide InLevel, FollowBelow;
      own, inner := [Paragraph(Top(outer), Shown(f.text), n)], ExpectedBelow(f.below, base, outside, n);
      BelowIsRead(e, f.below, outer, base, outside, n);
      EntryExpected(f, Top(outer), base, outside, n);
    }
  }

  /** Reading the list below an open entry. */
  lemma {:induction false} BelowIsRead(e: Reader, below: Below, outer: seq<int>, number: int, outside: Outside, n: int)
    requires Good(e.contents) && !e.isFirstChild && e.contents.stack == outer + [number]
    requires number == |Settled(e.contents)| - 1 && FollowBelow(below, |outer|, outside).Some?
    ensures Reads(e, HandledAll(e, PrintBelow(below), outside, n), outer, FollowBelow(below, |outer|, outside).value,
                  ExpectedBelow(below, number, outside, n))
    decreases below, 1
  {
    hide Settled, Good, Expected, Ended, PrintEntries, Follow;
    match below
    case NoList =>
      assert (outer + [number])[..|outer|] == outer;
    case SubList(entries) =>
      hide HandledAll, PrintBelow;
      var started := e.(isFirstChild := true);
      var inside := outer + [number];
      HandledList(e, entries, outside, n);
      assert Left(inside, 0) == inside;
      EntriesAreRead(started, entries, inside, Level(true, 0), outside, n);
      ListEnds(HandledAll(started, PrintEntries(entries), outside, n), outer,
               Follow(entries, |inside|, Level(true, 0), outside).value, number);
  }

  // ---------- entries that lose their parent ----------

  /** Numbers of ancestors: the further down, the larger, and all below `base`. */
  predicate Rising(outer: seq<int>, base: int)
  {
    && (forall i, j :: 0 <= i < j < |outer| ==> outer[i] < outer[j])
    && forall i :: 0 <= i < |outer| ==> 0 <= outer[i] < base
  }

  /** Nothing that gets a paragraph hangs below a blank entry. */
  predicate NothingLost(f: Forest, outside: Outside)
  {
    match f
    case Nil => true
    case More(text, local, below, rest) =>
      && (Blank(text, local, outside) ==> CountBelow(below, outside) == 0)
      && (below.SubList? ==> NothingLost(below.entries, outside)) && NothingLost(rest, outside)
  }

  /** The expected paragraphs are all that are made exactly when nothing is lost. */
  lemma {:induction false} ExpectedCount(f: Forest, parent: int, base: int, outside: Outside, n: int)
    ensures |Expected(f, parent, base, outside, n)| <= Count(f, outside)
    ensures |Expected(f, parent, base, outside, n)| == Count(f, outside) ==> NothingLost(f, outside)
    ensures NothingLost(f, outside) ==> |Expected(f, parent, base, outside, n)| == Count(f, outside)
  {
    match f
    case Nil =>
    case More(text, local, below, rest) =>
      if below.SubList? {
        ExpectedCount(below.entries, base, base + 1, outside, n);
        if CountBelow(below, outside) == 0 {
          NothingToLose(below.entries, outside);
        }
      }
      ExpectedCount(rest, parent, base, outside, n);
      ExpectedCount(rest, parent, base + 1 + |ExpectedBelow(below, base, outside, n)|, outside, n);
  }

  lemma {:induction false} NothingToLose(f: Forest, outside: Outside)
    requires Count(f, outside) == 0
    ensures NothingLost(f, outside)
  {
    if f.More? {
      if f.below.SubList? {
        NothingToLose(f.below.entries, outside);
      }
      NothingToLose(f.rest, outside);
    }
  }

  /** Paragraphs that have been made stay as they are. */
  lemma Keeps(r: Reader, f: Forest, outside: Outside, n: int)
    requires Good(r.contents)
    ensures
      var s := HandledAll(r, PrintEntries(f), outside, n);
      Good(s.contents) && Settled(r.contents) <= Settled(s.contents)
  {
    hide HandledAll, Settled, Good, PrintEntries, Texts, References;
    var added := EverythingIsMade(r, f, |r.contents.stack|, outside, n);
  }

  lemma KeepsBelow(e: Reader, below: Below, outside: Outside, n: int)
    requires Good(e.contents)
    ensures
      var s := HandledAll(e, PrintBelow(below), outside, n);
      Good(s.contents) && Settled(e.contents) <= Settled(s.contents)
  {
    hide HandledAll, Settled, Good, PrintBelow, TextsBelow, ReferencesBelow;
    var added := BelowIsMade(e, below, |e.contents.stack|, outside, n);
  }

  /** The paragraph with number `i` has another parent than the tree gives it. */
  ghost predicate WrongAt(s: seq<Paragraph>, base: nat, expected: seq<Paragraph>, i: nat)
  {
    base <= i < |s| && i - base < |expected| && s[i].parent != expected[i - base].parent
  }

  lemma WrongStays(s: seq<Paragraph>, t: seq<Paragraph>, base: nat, own: nat, a: seq<Paragraph>, b: seq<Paragraph>,
                   c: seq<Paragraph>, i: nat)
    requires s <= t && |a| == own && WrongAt(s, base + own, b, i)
    ensures WrongAt(t, base, a + b + c, i)
  {
    assert (a + b + c)[i - base] == b[i - base - own];
  }

  lemma WrongLater(s: seq<Paragraph>, base: nat, a: seq<Paragraph>, c: seq<Paragraph>, i: nat)
    requires WrongAt(s, base + |a|, c, i)
    ensures WrongAt(s, base, a + c, i)
  {
  }

  /** When no entry is lost but one does not find its parent open, some paragraph gets another parent. */
  lemma {:induction false} SomeParentIsWrong(r: Reader, f: Forest, outer: seq<int>, l: Level, outside: Outside, n: int)
    returns (i: nat)
    requires InLevel(r, outer, l) && Rising(outer, |Settled(r.contents)|)
    requires NothingLost(f, outside) && Follow(f, |outer|, l, outside).None?
    ensures
      var base := |Settled(r.contents)|;
      WrongAt(Settled(HandledAll(r, PrintEntries(f), outside, n).contents), base,
              Expected(f, Top(outer), base, outside, n), i)
    decreases f, 1
  {
    hide HandledAll, EntryEnds, Settled, InLevel, Expected, PrintEntries, PrintBelow, Reads, Next, ReferenceOf,
      ExpectedBelow, Rising, WrongAt;
    var base := |Settled(r.contents)|;
    var e := EntryEnds(r.(text := f.text, reference := ReferenceOf(f.local, outside)), outside, n);
    var b := HandledAll(e, PrintBelow(f.below), outside, n);
    HandledParts(r, f, outside, n);
    if Next(f, |outer|, l, outside).Some? {
      var next := Next(f, |outer|, l, outside).value;
      var own, inner := EntryIsRead(r, f, outer, l, outside, n);
      ReadsMeans(e, b, outer, next, inner);
      RisingStill(outer, base, |Settled(b.contents)|);
      i := SomeParentIsWrong(b, f.rest, outer, next, outside, n);
      WrongLater(Settled(HandledAll(b, PrintEntries(f.rest), outside, n).contents), base, own + inner,
                 Expected(f.rest, Top(outer), base + |own| + |inner|, outside, n), i);
    } else {
      i := EntryIsWrong(r, f, outer, l, outside, n);
    }
  }

  lemma RisingStill(outer: seq<int>, base: int, more: int)
    requires Rising(outer, base) && base <= more
    ensures Rising(outer, more)
  {
  }

  lemma RisingDeeper(outer: seq<int>, base: nat)
    requires Rising(outer, base)
    ensures Rising(outer + [base], base + 1)
  {
  }

  /** The entry itself does not find its parent, or one below it does not. */
  lemma {:induction false} EntryIsWrong(r: Reader, f: Forest, outer: seq<int>, l: Level, outside: Outside, n: int)
    returns (i: nat)
    requires InLevel(r, outer, l) && Rising(outer, |Settled(r.contents)|)
    requires NothingLost(f, outside) && f.More? && Next(f, |outer|, l, outside).None?
    ensures
      var base := |Settled(r.contents)|;
      WrongAt(Settled(HandledAll(r, PrintEntries(f), outside, n).contents), base,
              Expected(f, Top(outer), base, outside, n), i)
    decreases f, 0
  {
    hide HandledAll, EntryEnds, Settled, Good, Expected, PrintEntries, PrintBelow, Reads, ReferenceOf, Shown,
      ExpectedBelow, Rising, WrongAt;
    var base := |Settled(r.contents)|;
    var e := EntryEnds(r.(text := f.text, reference := ReferenceOf(f.local, outside)), outside, n);
    var b := HandledAll(e, PrintBelow(f.below), outside, n);
    var s := HandledAll(b, PrintEntries(f.rest), outside, n);
    assert !Blank(f.text, f.local, outside);
    HandledParts(r, f, outside, n);
    EntryExpected(f, Top(outer), base, outside, n);
    var own := [Paragraph(Top(outer), Shown(f.text), n)];
    var inner := ExpectedBelow(f.below, base, outside, n);
    var others := Expected(f.rest, Top(outer), base + 1 + |inner|, outside, n);
    if |outer| > 0 && l.debt > 0 {
      MisplacedEntry(r, f, outer, l, outside, n);
      KeepsBelow(e, f.below, outside, n);
      Keeps(b, f.rest, outside, n);
      assert Settled(e.contents) <= Settled(s.contents);
      i := base;
      WrongFirst(Settled(e.contents), Settled(s.contents), base, own, inner + others);
      assert own + (inner + others) == own + inner + others;
    } else {
      EntryFindsParent(r, f, outer, l, outside, n);
      hide InLevel, Next;
      i := ListIsWrong(e, f.below, outer, base, outside, n);
      Keeps(b, f.rest, outside, n);
      WrongStays(Settled(b.contents), Settled(s.contents), base, 1, own, inner, others, i);
    }
  }

  lemma WrongFirst(s: seq<Paragraph>, t: seq<Paragraph>, base: nat, own: seq<Paragraph>, rest: seq<Paragraph>)
    requires s <= t && |s| == base + 1 && |own| == 1 && s[base].parent != own[0].parent
    ensures WrongAt(t, base, own + rest, base)
  {
  }

  lemma MisplacedEntry(r: Reader, f: Forest, outer: seq<int>, l: Level, outside: Outside, n: int)
    requires InLevel(r, outer, l) && Rising(outer, |Settled(r.contents)|) && outer != [] && l.debt > 0
    requires f.More? && !Blank(f.text, f.local, outside)
    ensures
      var base := |Settled(r.contents)|;
      var e := EntryEnds(r.(text := f.text, reference := ReferenceOf(f.local, outside)), outside, n);
      && Good(e.contents) && |Settled(e.contents)| == base + 1 && Settled(e.contents)[base].parent != Top(outer)
  {
    hide EntryEnds, Settled, Good, Shown;
    EntryOpens(r.(text := f.text, reference := ReferenceOf(f.local, outside)), outside, n);
  }

  lemma {:induction false} ListIsWrong(e: Reader, below: Below, outer: seq<int>, number: nat, outside: Outside, n: int)
    returns (i: nat)
    requires Good(e.contents) && !e.isFirstChild && e.contents.stack == outer + [number]
    requires number + 1 == |Settled(e.contents)| && Rising(outer, number)
    requires (below.SubList? ==> NothingLost(below.entries, outside)) && FollowBelow(below, |outer|, outside).None?
    ensures Good(HandledAll(e, PrintBelow(below), outside, n).contents)
    ensures WrongAt(Settled(HandledAll(e, PrintBelow(below), outside, n).contents), number + 1,
                    ExpectedBelow(below, number, outside, n), i)
    decreases below, 1
  {
    hide HandledAll, Settled, Good, Expected, Ended, PrintEntries, PrintBelow, Follow, WrongAt, Rising;
    var entries := below.entries;
    var started := e.(isFirstChild := true);
    var inside := outer + [number];
    HandledList(e, entries, outside, n);
    assert Left(inside, 0) == inside;
    RisingDeeper(outer, number);
    i := SomeParentIsWrong(started, entries, inside, Level(true, 0), outside, n);
    Keeps(started, entries, outside, n);
    EndedSettles(HandledAll(started, PrintEntries(entries), outside, n).contents);
  }

  // ---------- documents ----------

  /** A whole document, whatever its tree: the stack and the buffer are empty at the end, and all entries that are not
      blank have their paragraphs, with their texts and references, in order. */
  lemma DocumentIsRead(r: Reader, f: Forest, outside: Outside, n: int)
    requires r.contents == Contents([], [], [], false) && r.references == []
    ensures
      var s := HandledAll(r, PrintBelow(SubList(f)), outside, n);
      var p := s.contents.paragraphs;
      && s.contents == Contents(p, [], [], false)
      && |p| == Count(f, outside) == |Texts(f, outside)|
      && (forall i :: 0 <= i < |p| ==> p[i].text == Texts(f, outside)[i] && p[i].reference == n)
      && s.references == References(f, outside) && |s.references| == |p|
  {
    hide HandledAll, Texts, References, Ended, PrintEntries;
    var started := r.(isFirstChild := true);
    HandledList(r, f, outside, n);
    var added := EverythingIsMade(started, f, 0, outside, n);
    EndedSettles(HandledAll(started, PrintEntries(f), outside, n).contents);
    AsManyTexts(f, outside);
  }

  /** The paragraphs are those of the tree, each under its parent, exactly when every entry finds its parent open. */
  lemma ParentsAreRightExactly(r: Reader, f: Forest, outside: Outside, n: int)
    requires r.contents == Contents([], [], [], false) && r.references == []
    ensures
      var read := HandledAll(r, PrintBelow(SubList(f)), outside, n).contents.paragraphs;
      read == Expected(f, NO_PARENT, 0, outside, n) <==> Placed(f, outside)
  {
    hide HandledAll, Expected, Ended, PrintEntries, PrintBelow, Follow, Texts, References, Count;
    var started := r.(isFirstChild := true);
    var s := HandledAll(started, PrintEntries(f), outside, n);
    HandledList(r, f, outside, n);
    DocumentIsRead(r, f, outside, n);
    Keeps(started, f, outside, n);
    EndedSettles(s.contents);
    assert HandledAll(r, PrintBelow(SubList(f)), outside, n).contents.paragraphs == Settled(s.contents);
    ExpectedCount(f, NO_PARENT, 0, outside, n);
    if Placed(f, outside) {
      EntriesAreRead(started, f, [], Level(true, 0), outside, n);
    } else if NothingLost(f, outside) {
      var i := SomeParentIsWrong(started, f, [], Level(true, 0), outside, n);
    }
  }
}
