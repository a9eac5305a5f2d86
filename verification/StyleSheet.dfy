/** The style sheet parser (StyleSheetParser.h, StyleSheetParser.cpp). */
module StyleSheets {
  import opened Basics

  datatype ReadState = TagName | AttributeName | AttributeValue | Broken

  type AttributeMap = map<string, seq<string>>

  /** One call of `storeData`. */
  datatype Rule = Rule(tagName: string, className: string, attributes: AttributeMap)

  /** The fields of the parser, and the rules it has stored so far. */
  datatype Parser = Parser(word: string, attributeName: string, readState: ReadState, insideComment: bool,
                           tagName: string, className: string, attributes: AttributeMap, stored: seq<Rule>)

  predicate IsControl(c: char) { c == '{' || c == '}' || c == ';' || c == ':' }

  predicate IsSeparator(c: char) { IsSpace(c) || IsControl(c) }

  // ---------- what one symbol does ----------

  predicate MarkAt(s: string, k: int, mark: string)
    requires |mark| == 2
  {
    0 <= k <= |s| - 2 && s[k] == mark[0] && s[k + 1] == mark[1]
  }

  /** The place of the first occurrence of a two-letter mark, or -1. */
  function FindMark(s: string, mark: string): (k: int)
    requires |mark| == 2
    ensures k == -1 || MarkAt(s, k, mark)
    ensures forall i :: MarkAt(s, i, mark) ==> 0 <= k <= i
  {
    if |s| < 2 then -1
    else if MarkAt(s, 0, mark) then 0
    else
      var k := FindMark(s[1..], mark);
      assert forall i :: i != 0 ==> (MarkAt(s, i, mark) <==> MarkAt(s[1..], i - 1, mark));
      if k < 0 then -1 else k + 1
  }

  /** The place of the first dot, or the length of the word. */
  function FindDot(s: string): (k: nat)
    ensures k <= |s| && '.' !in s[..k] && (k < |s| ==> s[k] == '.')
  {
    if s == "" || s[0] == '.' then 0
    else
      assert s[..1 + FindDot(s[1..])] == [s[0]] + s[1..][..FindDot(s[1..])];
      1 + FindDot(s[1..])
  }

  function ValuesOf(attributes: AttributeMap, name: string): seq<string>
  {
    if name in attributes then attributes[name] else []
  }

  /** A word outside comments. */
  function PlainWord(s: Parser, w: string): (r: Parser)
    ensures r.insideComment == s.insideComment && r.word == s.word && r.stored == s.stored && r.readState == s.readState
  {
    match s.readState
    case TagName =>
      var k := FindDot(w);
      var next :=
        if k == |w| then s.(tagName := if s.tagName == "" then w else s.tagName + " " + w)
        else if s.tagName == "" then s.(tagName := w[..k], className := w[k + 1..])
        else s.(tagName := s.tagName + " " + w[..k], className := s.className + " " + w[k + 1..]);
      next.(attributes := map[])
    case AttributeName => s.(attributeName := w, attributes := s.attributes[w := []])
    case AttributeValue =>
      s.(attributes := s.attributes[s.attributeName := ValuesOf(s.attributes, s.attributeName) + [w]])
    case Broken => s
  }

  function Mark(insideComment: bool): (m: string)
    ensures |m| == 2
  {
    if insideComment then "*/" else "/*"
  }

  /** A whole word; comment marks switch comments on and off in the middle of it. */
  function WholeWord(s: Parser, w: string): Parser
    decreases |w|
  {
    if w == "" then s
    else
      var k := FindMark(w, Mark(s.insideComment));
      var t := if s.insideComment || k == 0 then s else PlainWord(s, if k < 0 then w else w[..k]);
      if k < 0 then t else WholeWord(t.(insideComment := !s.insideComment), w[k + 2..])
  }

  function Control(s: Parser, c: char): Parser
  {
    if c == '{' then s.(readState := if s.readState == TagName then AttributeName else Broken)
    else if c == '}' then
      var stored := if s.readState == Broken then s.stored else s.stored + [Rule(s.tagName, s.className, s.attributes)];
      s.(readState := TagName, tagName := "", className := "", attributes := map[], stored := stored)
    else if c == ';' then
      s.(readState := if s.readState == AttributeValue || s.readState == AttributeName then AttributeName else Broken)
    else if c == ':' then s.(readState := if s.readState == AttributeName then AttributeValue else Broken)
    else s
  }

  function EndWord(s: Parser): Parser { WholeWord(s, s.word).(word := "") }

  function Step(s: Parser, c: char): Parser
  {
    if IsSpace(c) then EndWord(s)
    else if IsControl(c) then Control(EndWord(s), c)
    else s.(word := s.word + [c])
  }

  /** Symbol by symbol. */
  function Feed(s: Parser, text: string): Parser
  {
    if text == "" then s else Step(Feed(s, text[..|text| - 1]), text[|text| - 1])
  }

  // ---------- the parser ----------

  lemma FeedLast(s: Parser, text: string, c: char)
    ensures Feed(s, text + [c]) == Step(Feed(s, text), c)
  {
    hide Step;
    assert (text + [c])[..|text|] == text;
  }

  lemma WholeWordUnfolds(s: Parser, w: string)
    requires w != ""
    ensures
      var k := FindMark(w, Mark(s.insideComment));
      var t := if s.insideComment || k == 0 then s else PlainWord(s, if k < 0 then w else w[..k]);
      WholeWord(s, w) == if k < 0 then t else WholeWord(t.(insideComment := !s.insideComment), w[k + 2..])
  {
    hide PlainWord;
  }

  lemma NoWord(s: Parser)
    ensures WholeWord(s, "") == s
  {
  }

  class StyleSheetParser {
    var word: string
    var attributeName: string
    var readState: ReadState
    var insideComment: bool
    var tagName: string
    var className: string
    var attributes: AttributeMap
    /** What has been passed to `storeData`. */
    var stored: seq<Rule>

    constructor ()
      ensures State() == Parser("", "", TagName, false, "", "", map[], [])
    {
      word, attributeName, readState, insideComment := "", "", TagName, false;
      tagName, className, attributes, stored := "", "", map[], [];
    }

    function State(): Parser
      reads this
    {
      Parser(word, attributeName, readState, insideComment, tagName, className, attributes, stored)
    }

    method Reset()
      modifies this
      ensures State() == Parser("", "", TagName, false, "", "", map[], old(stored))
    {
      word, attributeName, readState, insideComment := "", "", TagName, false;
      tagName, className, attributes := "", "", map[];
    }

    method ProcessWordWithoutComments(w: string)
      modifies this
      ensures State() == PlainWord(old(State()), w)
    {
      match readState
      case TagName =>
        var k := FindDot(w);
        if k == |w| {
          if tagName == "" {
            tagName := w;
          } else {
            tagName := tagName + " " + w;
          }
        } else {
          if tagName == "" {
            tagName := w[..k];
            className := w[k + 1..];
          } else {
            tagName := tagName + " " + w[..k];
            className := className + " " + w[k + 1..];
          }
        }
        attributes := map[];
      case AttributeName =>
        attributeName := w;
        attributes := attributes[w := []];
      case AttributeValue =>
        attributes := attributes[attributeName := ValuesOf(attributes, attributeName) + [w]];
      case Broken =>
    }

    method ProcessWord(w: string)
      modifies this
      ensures State() == WholeWord(old(State()), w)
    {
      hide PlainWord, WholeWord, FindMark;
      ghost var all := WholeWord(State(), w);
      var left := w;
      while left != ""
        invariant WholeWord(State(), left) == all
        decreases |left|
      {
        WholeWordUnfolds(State(), left);
        var k := FindMark(left, Mark(insideComment));
        if !insideComment {
          if k == -1 {
            ProcessWordWithoutComments(left);
          } else if k > 0 {
            ProcessWordWithoutComments(left[..k]);
          }
        }
        if k == -1 {
          return;
        }
        insideComment := !insideComment;
        left := left[k + 2..];
      }
      NoWord(State());
    }

    method ProcessControl(c: char)
      modifies this
      ensures State() == Control(old(State()), c)
    {
      if c == '{' {
        readState := if readState == TagName then AttributeName else Broken;
      } else if c == '}' {
        if readState != Broken {
          stored := stored + [Rule(tagName, className, attributes)];
        }
        readState := TagName;
        tagName := "";
        className := "";
        attributes := map[];
      } else if c == ';' {
        readState := if readState == AttributeValue || readState == AttributeName then AttributeName else Broken;
      } else if c == ':' {
        readState := if readState == AttributeName then AttributeValue else Broken;
      }
    }

    /** The last piece of a word has come. */
    method EndPiece(piece: string)
      modifies this
      ensures State() == EndWord(old(State()).(word := old(word) + piece))
    {
      hide WholeWord;
      if piece != "" {
        word := word + piece;
      }
      assert State() == old(State()).(word := old(word) + piece);
      ProcessWord(word);
      word := "";
    }

    /** A chunk of text; the last one may be marked as final. */
    method Parse(text: string, final: bool)
      modifies this
      ensures State() == Parsed(old(State()), text, final)
    {
      hide EndWord, Control, Feed;
      ghost var s := State();
      var start: nat := 0;
      assert text[..0] == "";
      FeedNothing(s);
      for ptr := 0 to |text|
        invariant start <= ptr && State().(word := word + text[start..ptr]) == Feed(s, text[..ptr])
        invariant start == ptr <==> ptr == 0 || IsSeparator(text[ptr - 1])
      {
        FeedLast(s, text[..ptr], text[ptr]);
        assert text[..ptr + 1] == text[..ptr] + [text[ptr]];
        if IsSpace(text[ptr]) {
          EndPiece(text[start..ptr]);
          start := ptr + 1;
        } else if IsControl(text[ptr]) {
          EndPiece(text[start..ptr]);
          ProcessControl(text[ptr]);
          start := ptr + 1;
        } else {
          assert text[start..ptr + 1] == text[start..ptr] + [text[ptr]];
        }
      }
      assert text[..|text|] == text;
      if start < |text| {
        if final {
          EndPiece(text[start..]);
        } else {
          word := word + text[start..];
        }
      }
    }
  }

  lemma FeedNothing(s: Parser)
    ensures Feed(s, "") == s
  {
  }

  /** The last word is only ended by a final call that brings a piece of it. */
  function Parsed(s: Parser, text: string, final: bool): Parser
  {
    var t := Feed(s, text);
    if final && text != "" && !IsSeparator(text[|text| - 1]) then EndWord(t) else t
  }

  // ---------- chunks ----------

  lemma {:induction false} FeedConcat(s: Parser, a: string, b: string)
    ensures Feed(s, a + b) == Feed(Feed(s, a), b)
  {
    if b == "" {
      assert a + b == a;
    } else {
      hide Step;
      var front, last := b[..|b| - 1], b[|b| - 1];
      assert b == front + [last] && a + b == a + front + [last];
      FeedConcat(s, a, front);
      FeedLast(s, a + front, last);
      FeedLast(Feed(s, a), front, last);
    }
  }

  function Concat(chunks: seq<string>): string
  {
    if chunks == [] then "" else Concat(chunks[..|chunks| - 1]) + chunks[|chunks| - 1]
  }

  /** Reading a stream: chunks are parsed one after the other, none of them as final. */
  method ParseStream(parser: StyleSheetParser, chunks: seq<string>)
    modifies parser
    ensures parser.State() == Feed(old(parser.State()), Concat(chunks))
  {
    hide Feed;
    ghost var s := parser.State();
    FeedNothing(s);
    for n := 0 to |chunks|
      invariant parser.State() == Feed(s, Concat(chunks[..n]))
    {
      assert chunks[..n + 1][..n] == chunks[..n];
      FeedConcat(s, Concat(chunks[..n]), chunks[n]);
      parser.Parse(chunks[n], false);
    }
    assert chunks[..|chunks|] == chunks;
  }

  /** How the text is cut into chunks does not matter. */
  lemma {:induction false} ChunksDoNotMatter(s: Parser, chunks: seq<string>)
    ensures Feed(s, Concat(chunks)) == FeedChunks(s, chunks)
  {
    if chunks == [] {
    } else {
      hide Feed;
      var front := chunks[..|chunks| - 1];
      ChunksDoNotMatter(s, front);
      FeedConcat(s, Concat(front), chunks[|chunks| - 1]);
    }
  }

  /** The calls the stream reader makes. */
  function FeedChunks(s: Parser, chunks: seq<string>): Parser
  {
    if chunks == [] then s else Parsed(FeedChunks(s, chunks[..|chunks| - 1]), chunks[|chunks| - 1], false)
  }

  /** Ends inside a word. */
  predicate EndsInWord(text: string) { text != "" && !IsSeparator(text[|text| - 1]) }

  /** Giving the end of the text in a final call of its own is the same as one final call exactly when that call brings
      something, or nothing was left over. */
  lemma FinalChunkExactly(s: Parser, a: string, b: string)
    ensures Parsed(Parsed(s, a, false), b, true) == Parsed(s, a + b, true) <==> b != "" || !EndsInWord(a)
  {
    hide Step, WholeWord;
    FeedConcat(s, a, b);
    if b == "" {
      assert a + b == a;
      if EndsInWord(a) {
        WordPending(s, a);
      }
    } else {
      assert (a + b)[|a + b| - 1] == b[|b| - 1];
    }
  }

  /** So a word that ends the text and is followed by an empty final call is left over. */
  lemma LastWordIsLeftOver()
    ensures
      var s := Parser("", "", TagName, false, "", "", map[], []);
      && Parsed(Parsed(s, "p", false), "", true).word == "p"
      && Parsed(s, "p" + "", true) == s.(tagName := "p")
  {
    var s := Parser("", "", TagName, false, "", "", map[], []);
    assert "p"[..0] == "" && Feed(s, "") == s && "" + "p" == "p";
    assert Feed(s, "p") == Step(Feed(s, ""), 'p') == s.(word := "p");
  }

  lemma WordPending(s: Parser, a: string)
    requires EndsInWord(a)
    ensures Feed(s, a).word != "" && EndWord(Feed(s, a)).word == ""
  {
    hide WholeWord;
  }
}
