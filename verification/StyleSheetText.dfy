/** What the style sheet parser makes of comments and of printed rules. */
module StyleSheetTexts {
  import opened StyleSheets

  // ---------- words ----------

  /** No symbol of the text ends a word. */
  predicate NoSeparator(text: string) { forall c <- text :: !IsSeparator(c) }

  lemma {:induction false} FeedPlain(s: Parser, w: string)
    requires NoSeparator(w)
    ensures Feed(s, w) == s.(word := s.word + w)
  {
    if w == "" {
    } else {
      hide Step;
      var front, last := w[..|w| - 1], w[|w| - 1];
      assert w == front + [last];
      FeedPlain(s, front);
      FeedLast(s, front, last);
      StepPlain(Feed(s, front), last);
    }
  }

  lemma StepPlain(s: Parser, c: char)
    requires !IsSeparator(c)
    ensures Step(s, c) == s.(word := s.word + [c])
  {
  }

  /** A separator after a word: the word is processed, then the separator if it is a control symbol. */
  lemma FeedEnds(s: Parser, w: string, c: char)
    requires NoSeparator(w) && IsSeparator(c)
    ensures Feed(s, w + [c]) == Step(s.(word := s.word + w), c)
  {
    hide Step, Feed;
    FeedPlain(s, w);
    FeedLast(s, w, c);
  }

  // ---------- comments ----------

  /** The control symbols of the text, one after the other. */
  function Controls(s: Parser, text: string): (r: Parser)
    ensures r.word == s.word && r.insideComment == s.insideComment
  {
    if text == "" then s
    else
      var front := Controls(s, text[..|text| - 1]);
      if IsControl(text[|text| - 1]) then Control(front, text[|text| - 1]) else front
  }

  /** What follows the last separator. */
  function LastWord(text: string): (w: string)
    ensures |w| <= |text| && w == text[|text| - |w|..]
    ensures NoSeparator(text) <==> w == text
  {
    if text == "" || IsSeparator(text[|text| - 1]) then ""
    else
      var w := LastWord(text[..|text| - 1]);
      assert text == text[..|text| - 1] + [text[|text| - 1]];
      w + [text[|text| - 1]]
  }

  ghost predicate HasMark(text: string, mark: string)
    requires |mark| == 2
  {
    exists i :: MarkAt(text, i, mark)
  }

  lemma PartMark(text: string, from: nat, to: nat, mark: string)
    requires |mark| == 2 && from <= to <= |text| && HasMark(text[from..to], mark)
    ensures HasMark(text, mark)
  {
    var i :| MarkAt(text[from..to], i, mark);
    assert MarkAt(text, from + i, mark);
  }

  lemma PartHasNoMark(text: string, from: nat, to: nat, mark: string)
    requires |mark| == 2 && from <= to <= |text| && !HasMark(text, mark)
    ensures !HasMark(text[from..to], mark)
  {
    if HasMark(text[from..to], mark) {
      PartMark(text, from, to, mark);
    }
  }

  lemma LastWordHasNoMark(text: string, mark: string)
    requires |mark| == 2 && !HasMark(text, mark)
    ensures !HasMark(LastWord(text), mark)
  {
    var from := |text| - |LastWord(text)|;
    PartHasNoMark(text, from, |text|, mark);
    assert text[from..|text|] == text[from..];
  }

  /** A word inside a comment that does not end it. */
  lemma WordInComment(s: Parser, w: string)
    requires s.insideComment && !HasMark(w, "*/")
    ensures WholeWord(s, w) == s
  {
  }

  /** A word that ends the comment. */
  lemma WordEndsComment(s: Parser, w: string)
    requires s.insideComment && !HasMark(w, "*/")
    ensures WholeWord(s, w + "*/") == s.(insideComment := false)
  {
    var word := w + "*/";
    assert MarkAt(word, |w|, "*/");
    forall i | MarkAt(word, i, "*/")
      ensures i >= |w|
    {
      assert i < |w| - 1 ==> MarkAt(w, i, "*/");
    }
    assert word[|w| + 2..] == "";
  }

  /** A word that starts with a comment. */
  lemma WordStartsComment(s: Parser, w: string)
    requires !s.insideComment
    ensures WholeWord(s, "/*" + w) == WholeWord(s.(insideComment := true), w)
  {
    var word := "/*" + w;
    assert MarkAt(word, 0, "/*");
    assert word[2..] == w;
  }

  /** The parser after the beginning of a comment. */
  function InComment(s: Parser, text: string): Parser
  {
    if NoSeparator(text) then s.(word := "/*" + text)
    else Controls(s, text).(insideComment := true, word := LastWord(text))
  }

  lemma InCommentStep(s: Parser, text: string, c: char)
    requires s.word == "" && !s.insideComment && !HasMark(text, "*/")
    ensures Step(InComment(s, text), c) == InComment(s, text + [c])
  {
    hide WholeWord, Control;
    var next := text + [c];
    assert next[..|text|] == text;
    var now := InComment(s, text);
    if IsSeparator(c) {
      assert c in next;
      if NoSeparator(text) {
        WordStartsComment(now, text);
        WordInComment(now.(insideComment := true), text);
        NoControls(s, text);
      } else {
        LastWordHasNoMark(text, "*/");
        WordInComment(now, LastWord(text));
      }
      assert EndWord(now) == Controls(s, text).(insideComment := true, word := "");
      ControlKeeps(Controls(s, text), c);
    }
  }

  lemma ControlKeeps(s: Parser, c: char)
    ensures Control(s.(insideComment := true, word := ""), c) == Control(s, c).(insideComment := true, word := "")
  {
  }

  lemma {:induction false} NoControls(s: Parser, text: string)
    requires NoSeparator(text)
    ensures Controls(s, text) == s
  {
    if text != "" {
      assert text[|text| - 1] in text;
      NoControls(s, text[..|text| - 1]);
    }
  }

  lemma {:induction false} FeedComment(s: Parser, text: string)
    requires s.word == "" && !s.insideComment && !HasMark(text, "*/")
    ensures Feed(s, "/*" + text) == InComment(s, text)
  {
    if text == "" {
      FeedPlain(s, "/*");
      assert "/*" + text == "/*";
    } else {
      hide Step, Feed, InComment;
      var front, last := text[..|text| - 1], text[|text| - 1];
      assert text == front + [last] && "/*" + text == "/*" + front + [last];
      PartHasNoMark(text, 0, |text| - 1, "*/");
      FeedComment(s, front);
      FeedLast(s, "/*" + front, last);
      InCommentStep(s, front, last);
    }
  }

  /** A comment between words does just what the control symbols in it do: words in it are passed over, braces, colons
      and semicolons in it are not. */
  lemma CommentActsAsItsControls(s: Parser, text: string)
    requires s.word == "" && !s.insideComment && !HasMark(text, "*/")
    ensures Feed(s, "/*" + text + "*/ ") == Controls(s, text)
  {
    hide Feed, Step, InComment, WholeWord;
    var now := InComment(s, text);
    FeedComment(s, text);
    assert "/*" + text + "*/ " == "/*" + text + ("*/" + [' ']);
    FeedConcat(s, "/*" + text, "*/" + [' ']);
    FeedEnds(now, "*/", ' ');
    CommentEnds(s, text);
  }

  lemma CommentEnds(s: Parser, text: string)
    requires s.word == "" && !s.insideComment && !HasMark(text, "*/")
    ensures var now := InComment(s, text);
      Step(now.(word := now.word + "*/"), ' ') == Controls(s, text)
  {
    hide WholeWord;
    var now := InComment(s, text);
    var end := now.(word := now.word + "*/");
    if NoSeparator(text) {
      assert "/*" + text + "*/" == "/*" + (text + "*/");
      WordStartsComment(end, text + "*/");
      WordEndsComment(end.(insideComment := true), text);
      NoControls(s, text);
    } else {
      LastWordHasNoMark(text, "*/");
      WordEndsComment(end, LastWord(text));
    }
  }

  lemma {:induction false} ControlsLeaveTrace(s: Parser, text: string)
    requires exists c <- text :: IsControl(c)
    ensures Controls(s, text).readState != TagName || Controls(s, text).tagName == ""
  {
    hide Controls;
    var front, last := text[..|text| - 1], text[|text| - 1];
    assert text == front + [last];
    ControlsLast(s, front, last);
    if exists c <- front :: IsControl(c) {
      ControlsLeaveTrace(s, front);
    }
  }

  lemma ControlsLast(s: Parser, text: string, c: char)
    ensures Controls(s, text + [c]) == if IsControl(c) then Control(Controls(s, text), c) else Controls(s, text)
  {
    assert (text + [c])[..|text|] == text;
  }

  lemma {:induction false} NoControlsNoTrace(s: Parser, text: string)
    requires forall c <- text :: !IsControl(c)
    ensures Controls(s, text) == s
  {
    if text != "" {
      assert text[|text| - 1] in text;
      NoControlsNoTrace(s, text[..|text| - 1]);
    }
  }

  /** A comment changes nothing, whatever the parser is doing, exactly when no control symbol is in it. */
  lemma CommentIsIgnoredExactly(text: string)
    requires !HasMark(text, "*/")
    ensures (forall s: Parser :: s.word == "" && !s.insideComment ==> Feed(s, "/*" + text + "*/ ") == s)
            <==> forall c <- text :: !IsControl(c)
  {
    hide Feed, Controls;
    if forall c <- text :: !IsControl(c) {
      forall s: Parser | s.word == "" && !s.insideComment
        ensures Feed(s, "/*" + text + "*/ ") == s
      {
        CommentActsAsItsControls(s, text);
        NoControlsNoTrace(s, text);
      }
    } else {
      var s := Parser("", "", TagName, false, "p", "", map[], []);
      CommentActsAsItsControls(s, text);
      ControlsLeaveTrace(s, text);
      assert Feed(s, "/*" + text + "*/ ") != s;
    }
  }

  /** A semicolon in a comment after a selector breaks the rule. */
  lemma SemicolonInComment()
    ensures
      var s := Parser("", "", TagName, false, "p", "", map[], []);
      Feed(s, "/*;*/ ") == s.(readState := Broken)
  {
    var s := Parser("", "", TagName, false, "p", "", map[], []);
    hide Feed;
    assert forall i :: !MarkAt(";", i, "*/");
    CommentActsAsItsControls(s, ";");
    assert "/*" + ";" + "*/ " == "/*;*/ ";
    ControlsLast(s, "", ';');
    assert "" + [';'] == ";";
  }

  // ---------- printed rules ----------

  /** A word that the parser takes as it stands. */
  ghost predicate Clean(w: string) { w != "" && NoSeparator(w) && !HasMark(w, "/*") }

  datatype Declaration = Declaration(name: string, values: seq<string>)

  /** A word of a selector: a tag, perhaps with a class. */
  datatype SelectorWord = SelectorWord(tag: string, class_: string)

  datatype RuleText = RuleText(selector: seq<SelectorWord>, declarations: seq<Declaration>)

  function PrintWord(w: SelectorWord): string
  {
    if w.class_ == "" then w.tag else w.tag + "." + w.class_
  }

  function PrintSelector(ws: seq<SelectorWord>): string
  {
    if ws == [] then ""
    else if |ws| == 1 then PrintWord(ws[0])
    else PrintSelector(ws[..|ws| - 1]) + " " + PrintWord(ws[|ws| - 1])
  }

  /** The tags of a selector, with spaces between them. */
  function TagsOf(ws: seq<SelectorWord>): string
  {
    if ws == [] then ""
    else if |ws| == 1 then ws[0].tag
    else TagsOf(ws[..|ws| - 1]) + " " + ws[|ws| - 1].tag
  }

  /** Its classes; those after the first word are set off by a space. */
  function ClassesOf(ws: seq<SelectorWord>): string
  {
    if ws == [] then ""
    else if |ws| == 1 then ws[0].class_
    else ClassesOf(ws[..|ws| - 1]) + if ws[|ws| - 1].class_ == "" then "" else " " + ws[|ws| - 1].class_
  }

  function PrintValues(values: seq<string>): string
  {
    if values == [] then "" else PrintValues(values[..|values| - 1]) + " " + values[|values| - 1]
  }

  function PrintDeclaration(d: Declaration): string { d.name + ":" + PrintValues(d.values) + ";" }

  function PrintDeclarations(ds: seq<Declaration>): string
  {
    if ds == [] then "" else PrintDeclarations(ds[..|ds| - 1]) + PrintDeclaration(ds[|ds| - 1])
  }

  function PrintRule(r: RuleText): string { PrintSelector(r.selector) + "{" + PrintDeclarations(r.declarations) + "}" }

  function Print(rules: seq<RuleText>): string
  {
    if rules == [] then "" else Print(rules[..|rules| - 1]) + PrintRule(rules[|rules| - 1])
  }

  /** Later declarations of a name replace earlier ones. */
  function Meaning(ds: seq<Declaration>): AttributeMap
  {
    if ds == [] then map[] else Meaning(ds[..|ds| - 1])[ds[|ds| - 1].name := ds[|ds| - 1].values]
  }

  function MeaningOf(r: RuleText): Rule
  {
    Rule(TagsOf(r.selector), ClassesOf(r.selector), Meaning(r.declarations))
  }

  function Stored(rules: seq<RuleText>): seq<Rule>
  {
    seq(|rules|, i requires 0 <= i < |rules| => MeaningOf(rules[i]))
  }

  ghost predicate CleanDeclaration(d: Declaration) { Clean(d.name) && forall v <- d.values :: Clean(v) }

  ghost predicate CleanSelector(ws: seq<SelectorWord>)
  {
    ws != [] && forall w <- ws :: Clean(PrintWord(w)) && '.' !in w.tag
  }

  /** In a selector of several words the first one must have a tag. */
  predicate KeepsSelector(ws: seq<SelectorWord>) { |ws| > 1 ==> ws[0].tag != "" }

  ghost predicate CleanRule(r: RuleText)
  {
    && CleanSelector(r.selector) && KeepsSelector(r.selector)
    && forall d <- r.declarations :: CleanDeclaration(d)
  }

  /** Between two rules. */
  predicate Idle(s: Parser)
  {
    && s.word == "" && s.readState == TagName && !s.insideComment
    && s.tagName == "" && s.className == "" && s.attributes == map[]
  }

  /** A clean word before a separator. */
  lemma CleanWordEnds(s: Parser, w: string, c: char)
    requires Clean(w) && IsSeparator(c) && s.word == "" && !s.insideComment
    ensures Feed(s, w + [c]) == if IsControl(c) then Control(PlainWord(s, w), c) else PlainWord(s, w)
  {
    hide Feed, Step;
    FeedEnds(s, w, c);
    StepEnds(s, w, c);
  }

  lemma StepEnds(s: Parser, w: string, c: char)
    requires Clean(w) && IsSeparator(c) && s.word == "" && !s.insideComment
    ensures Step(s.(word := s.word + w), c) == if IsControl(c) then Control(PlainWord(s, w), c) else PlainWord(s, w)
  {
    hide PlainWord, Control;
    assert "" + w == w;
    var now := s.(word := w);
    assert WholeWord(now, w) == PlainWord(now, w);
    PlainWordKeepsWord(s, w);
  }

  lemma PlainWordKeepsWord(s: Parser, w: string)
    requires s.word == ""
    ensures PlainWord(s.(word := w), w).(word := "") == PlainWord(s, w)
  {
  }

  /** Reading values of an attribute that has been named. */
  ghost predicate InValue(s: Parser)
  {
    s.word == "" && !s.insideComment && s.readState == AttributeValue && s.attributeName in s.attributes
  }

  /** After the printed values, the last one is still a word to be ended. */
  function AfterValues(s: Parser, values: seq<string>): Parser
    requires s.attributeName in s.attributes
  {
    if values == [] then s
    else
      s.(attributes := s.attributes[s.attributeName := s.attributes[s.attributeName] + values[..|values| - 1]],
         word := values[|values| - 1])
  }

  lemma ValueEnds(s: Parser, values: seq<string>, c: char)
    requires InValue(s) && (forall v <- values :: Clean(v)) && IsSeparator(c)
    ensures
      var t := s.(attributes := s.attributes[s.attributeName := s.attributes[s.attributeName] + values]);
      Step(AfterValues(s, values), c) == if IsControl(c) then Control(t, c) else t
  {
    hide Control;
    var t := s.(attributes := s.attributes[s.attributeName := s.attributes[s.attributeName] + values]);
    if values == [] {
      assert s.attributes[s.attributeName] + values == s.attributes[s.attributeName];
      assert t.attributes == s.attributes;
    } else {
      var last := values[|values| - 1];
      var now := AfterValues(s, values);
      assert Clean(last);
      assert values == values[..|values| - 1] + [last];
      assert WholeWord(now, last) == PlainWord(now, last);
      assert s.attributes[s.attributeName] + values[..|values| - 1] + [last] == s.attributes[s.attributeName] + values;
      assert PlainWord(now, last).attributes == t.attributes;
    }
  }

  lemma {:induction false} FeedValues(s: Parser, values: seq<string>)
    requires InValue(s) && forall v <- values :: Clean(v)
    ensures Feed(s, PrintValues(values)) == AfterValues(s, values)
  {
    if values == [] {
    } else {
      hide Feed, Step, Control, PrintValues;
      var front, last := values[..|values| - 1], values[|values| - 1];
      PrintValuesLast(values);
      FeedValues(s, front);
      var now := AfterValues(s, front);
      FeedConcat(s, PrintValues(front) + " ", last);
      FeedLast(s, PrintValues(front), ' ');
      ValueEnds(s, front, ' ');
      assert PrintValues(front) + " " == PrintValues(front) + [' '];
      assert Clean(last);
      FeedPlain(s.(attributes := s.attributes[s.attributeName := s.attributes[s.attributeName] + front]), last);
    }
  }

  lemma PrintValuesLast(values: seq<string>)
    requires values != []
    ensures PrintValues(values) == PrintValues(values[..|values| - 1]) + " " + values[|values| - 1]
  {
  }

  /** Between two declarations. */
  ghost predicate InRule(s: Parser) { s.word == "" && !s.insideComment && s.readState == AttributeName }

  /** A printed declaration sets its attribute. */
  lemma FeedDeclaration(s: Parser, d: Declaration)
    requires InRule(s) && CleanDeclaration(d)
    ensures Feed(s, PrintDeclaration(d)) == s.(attributeName := d.name, attributes := s.attributes[d.name := d.values])
  {
    hide Feed, Step, PrintValues;
    var named := s.(attributeName := d.name, attributes := s.attributes[d.name := []], readState := AttributeValue);
    CleanWordEnds(s, d.name, ':');
    assert d.name + ":" == d.name + [':'];
    FeedConcat(s, d.name + ":", PrintValues(d.values));
    FeedValues(named, d.values);
    FeedLast(s, d.name + ":" + PrintValues(d.values), ';');
    assert PrintDeclaration(d) == d.name + ":" + PrintValues(d.values) + [';'];
    ValueEnds(named, d.values, ';');
    assert [] + d.values == d.values;
    assert s.attributes[d.name := []][d.name := d.values] == s.attributes[d.name := d.values];
  }

  function LastName(s: Parser, ds: seq<Declaration>): string
  {
    if ds == [] then s.attributeName else ds[|ds| - 1].name
  }

  lemma {:induction false} FeedDeclarations(s: Parser, ds: seq<Declaration>)
    requires InRule(s) && s.attributes == map[] && forall d <- ds :: CleanDeclaration(d)
    ensures Feed(s, PrintDeclarations(ds)) == s.(attributeName := LastName(s, ds), attributes := Meaning(ds))
  {
    if ds == [] {
    } else {
      hide Feed, PrintDeclaration, CleanDeclaration;
      var front, last := ds[..|ds| - 1], ds[|ds| - 1];
      FeedDeclarations(s, front);
      FeedConcat(s, PrintDeclarations(front), PrintDeclaration(last));
      FeedDeclaration(Feed(s, PrintDeclarations(front)), last);
    }
  }

  lemma DotIn(w: SelectorWord)
    requires '.' !in w.tag
    ensures w.class_ == "" ==> PrintWord(w) == w.tag && FindDot(w.tag) == |w.tag|
    ensures w.class_ != "" ==>
      var k := FindDot(PrintWord(w));
      k < |PrintWord(w)| && PrintWord(w)[..k] == w.tag && PrintWord(w)[k + 1..] == w.class_
  {
    var p := PrintWord(w);
    if w.class_ != "" {
      assert p[|w.tag|] == '.' && p[..|w.tag|] == w.tag;
      DotAt(p, |w.tag|);
    } else {
      DotAt(p, |p|);
    }
  }

  /** The parser after these words of a selector. */
  function Selected(s: Parser, ws: seq<SelectorWord>): Parser
  {
    if ws == [] then s else PlainWord(Selected(s, ws[..|ws| - 1]), PrintWord(ws[|ws| - 1]))
  }

  lemma {:induction false} SelectedKeeps(s: Parser, ws: seq<SelectorWord>)
    requires Idle(s)
    ensures
      var r := Selected(s, ws);
      r == s.(tagName := r.tagName, className := r.className)
  {
    if ws != [] {
      SelectedKeeps(s, ws[..|ws| - 1]);
    }
  }

  lemma CleanSelectorWord(ws: seq<SelectorWord>)
    requires CleanSelector(ws)
    ensures ws != [] && '.' !in ws[|ws| - 1].tag && Clean(PrintWord(ws[|ws| - 1]))
    ensures |ws| > 1 ==> CleanSelector(ws[..|ws| - 1])
  {
    assert ws[|ws| - 1] in ws;
  }

  lemma {:induction false} SomeTag(ws: seq<SelectorWord>)
    requires ws != [] && ws[0].tag != ""
    ensures TagsOf(ws) != ""
  {
  }

  /** A selector that begins with a tag is taken as it was meant. */
  lemma {:induction false} SelectedAsMeant(s: Parser, ws: seq<SelectorWord>)
    requires Idle(s) && CleanSelector(ws) && KeepsSelector(ws)
    ensures Selected(s, ws) == s.(tagName := TagsOf(ws), className := ClassesOf(ws))
  {
    hide Clean, PrintWord;
    CleanSelectorWord(ws);
    var front, last := ws[..|ws| - 1], ws[|ws| - 1];
    DotIn(last);
    SelectedKeeps(s, ws);
    if front != [] {
      SelectedAsMeant(s, front);
      SomeTag(front);
    } else {
      assert Selected(s, front) == s;
    }
  }

  /** A tag name never begins with a space. */
  lemma {:induction false} SelectedBegins(s: Parser, ws: seq<SelectorWord>)
    requires Idle(s) && (ws == [] || CleanSelector(ws))
    ensures Selected(s, ws).tagName != "" ==> Selected(s, ws).tagName[0] != ' '
  {
    if ws != [] {
      hide PrintWord;
      CleanSelectorWord(ws);
      var front, w := ws[..|ws| - 1], PrintWord(ws[|ws| - 1]);
      SelectedBegins(s, front);
      SelectedKeeps(s, front);
      assert w[0] in w;
    }
  }

  lemma {:induction false} TagsBegin(ws: seq<SelectorWord>)
    requires |ws| > 1 && ws[0].tag == ""
    ensures TagsOf(ws) != "" && TagsOf(ws)[0] == ' '
  {
    if |ws| > 2 {
      TagsBegin(ws[..|ws| - 1]);
    }
  }

  /** After a printed selector, its last word is still to be ended. */
  lemma {:induction false} FeedSelector(s: Parser, ws: seq<SelectorWord>)
    requires Idle(s) && CleanSelector(ws)
    ensures Feed(s, PrintSelector(ws)) == Selected(s, ws[..|ws| - 1]).(word := PrintWord(ws[|ws| - 1]))
  {
    hide Feed, Step, PlainWord, PrintWord, CleanSelector, Clean;
    CleanSelectorWord(ws);
    var front, last := ws[..|ws| - 1], PrintWord(ws[|ws| - 1]);
    CleanIsPlain(last);
    SelectedKeeps(s, front);
    FeedPlain(Selected(s, front), last);
    assert "" + last == last;
    if |ws| > 1 {
      FeedSelector(s, front);
      SelectorWordEnds(s, front, ' ');
      FeedLast(s, PrintSelector(front), ' ');
      FeedConcat(s, PrintSelector(front) + " ", last);
      assert PrintSelector(front) + " " == PrintSelector(front) + [' '];
    }
  }

  lemma SelectorWordEnds(s: Parser, ws: seq<SelectorWord>, c: char)
    requires Idle(s) && CleanSelector(ws) && IsSeparator(c)
    ensures
      var r := Selected(s, ws);
      Step(Selected(s, ws[..|ws| - 1]).(word := PrintWord(ws[|ws| - 1])), c) ==
      if IsControl(c) then Control(r, c) else r
  {
    hide Step, PlainWord, PrintWord, CleanSelector, Clean, Control;
    CleanSelectorWord(ws);
    var front, last := ws[..|ws| - 1], PrintWord(ws[|ws| - 1]);
    SelectedKeeps(s, front);
    StepEnds(Selected(s, front), last, c);
    assert "" + last == last;
  }

  lemma CleanIsPlain(w: string)
    requires Clean(w)
    ensures NoSeparator(w)
  {
  }

  /** A printed selector up to the brace. */
  lemma FeedSelectorBrace(s: Parser, ws: seq<SelectorWord>)
    requires Idle(s) && CleanSelector(ws)
    ensures Feed(s, PrintSelector(ws) + "{") == Selected(s, ws).(readState := AttributeName)
  {
    hide Feed, Step, PlainWord, PrintSelector, PrintWord, CleanSelector, Clean;
    FeedSelector(s, ws);
    SelectedKeeps(s, ws);
    FeedLast(s, PrintSelector(ws), '{');
    SelectorWordEnds(s, ws, '{');
    assert PrintSelector(ws) + "{" == PrintSelector(ws) + ['{'];
  }

  /** A printed selector is taken as it was meant just when it is one word or begins with a tag. */
  lemma SelectorIsTakenExactly(s: Parser, ws: seq<SelectorWord>)
    requires Idle(s) && CleanSelector(ws)
    ensures
      var r := Feed(s, PrintSelector(ws) + "{");
      r.tagName == TagsOf(ws) && r.className == ClassesOf(ws) <==> KeepsSelector(ws)
  {
    hide Feed, PrintSelector, PlainWord, CleanSelector, TagsOf, ClassesOf, Selected;
    FeedSelectorBrace(s, ws);
    if KeepsSelector(ws) {
      SelectedAsMeant(s, ws);
    } else {
      SelectedBegins(s, ws);
      TagsBegin(ws);
    }
  }

  const DotFirst: seq<SelectorWord> := [SelectorWord("", "x"), SelectorWord("b", "y")]

  lemma DotFirstWords()
    ensures PrintWord(DotFirst[0]) == ".x" && PrintWord(DotFirst[1]) == "b.y"
  {
    assert "" + "." + "x" == ".x" && "b" + "." + "y" == "b.y";
  }

  lemma DotFirstClean()
    ensures CleanSelector(DotFirst)
  {
    hide PrintWord;
    DotFirstWords();
    assert Clean(".x") && Clean("b.y");
    hide Clean;
    assert forall w <- DotFirst :: w == DotFirst[0] || w == DotFirst[1];
  }

  lemma DotFirstPrints()
    ensures PrintSelector(DotFirst) + "{" == ".x b.y{"
  {
    hide PrintWord;
    DotFirstWords();
    var first := DotFirst[..1];
    assert first == [DotFirst[0]];
    assert PrintSelector(first) == ".x";
    assert PrintSelector(DotFirst) == ".x" + " " + "b.y";
  }

  lemma DotFirstSelected(s: Parser)
    requires Idle(s)
    ensures Selected(s, DotFirst).tagName == "b" && Selected(s, DotFirst).className == "y"
  {
    var first := DotFirst[..1];
    assert first == [SelectorWord("", "x")] && first[..0] == [];
    assert Selected(s, []) == s;
    DotIn(first[0]);
    DotIn(DotFirst[1]);
    hide FindDot, PrintWord;
    assert Selected(s, first) == PlainWord(s, PrintWord(first[0]));
    assert Selected(s, DotFirst) == PlainWord(Selected(s, first), PrintWord(DotFirst[1]));
  }

  /** For example the class of a first word without a tag is lost. */
  lemma LeadingClassIsLost()
    ensures
      var s := Parser("", "", TagName, false, "", "", map[], []);
      var r := Feed(s, ".x b.y{");
      r.tagName == "b" && r.className == "y"
  {
    hide Feed, PrintSelector, CleanSelector, Selected;
    var s := Parser("", "", TagName, false, "", "", map[], []);
    DotFirstClean();
    DotFirstPrints();
    DotFirstSelected(s);
    FeedSelectorBrace(s, DotFirst);
  }

  lemma DotAt(w: string, k: nat)
    requires k <= |w| && '.' !in w[..k] && (k < |w| ==> w[k] == '.')
    ensures FindDot(w) == k
  {
    var n := FindDot(w);
    assert forall i :: 0 <= i < k ==> w[..k][i] == w[i];
    assert forall i :: 0 <= i < n ==> w[..n][i] == w[i];
  }

  /** A printed rule is stored as it was meant, and the parser is between two rules again. */
  lemma FeedRule(s: Parser, r: RuleText)
    requires Idle(s) && CleanRule(r)
    ensures Feed(s, PrintRule(r)) ==
            s.(attributeName := LastName(s, r.declarations), stored := s.stored + [MeaningOf(r)])
  {
    hide Feed, PrintDeclarations, Meaning, PlainWord, TagsOf, ClassesOf, PrintSelector, CleanSelector, Selected;
    var ws, ds := r.selector, PrintDeclarations(r.declarations);
    FeedSelectorBrace(s, ws);
    SelectedAsMeant(s, ws);
    FeedConcat(s, PrintSelector(ws) + "{", ds);
    FeedDeclarations(Selected(s, ws).(readState := AttributeName), r.declarations);
    FeedLast(s, PrintSelector(ws) + "{" + ds, '}');
    assert PrintRule(r) == PrintSelector(ws) + "{" + ds + ['}'];
  }

  lemma StoredLast(rules: seq<RuleText>)
    requires rules != []
    ensures
      var r := rules[|rules| - 1];
      Stored(rules) == Stored(rules[..|rules| - 1]) + [MeaningOf(r)]
  {
  }

  lemma PrintLast(rules: seq<RuleText>)
    requires rules != []
    ensures Print(rules) == Print(rules[..|rules| - 1]) + PrintRule(rules[|rules| - 1])
  {
  }

  /** Parsing a printed style sheet stores just its rules, in order. */
  lemma {:induction false} PrintedRulesAreStored(s: Parser, rules: seq<RuleText>)
    requires Idle(s) && forall r <- rules :: CleanRule(r)
    ensures Idle(Feed(s, Print(rules))) && Feed(s, Print(rules)).stored == s.stored + Stored(rules)
  {
    if rules == [] {
    } else {
      hide Feed, Print, PrintRule, CleanRule, MeaningOf, Stored, LastName, PlainWord, Selected;
      var front, last := rules[..|rules| - 1], rules[|rules| - 1];
      PrintLast(rules);
      PrintedRulesAreStored(s, front);
      FeedConcat(s, Print(front), PrintRule(last));
      FeedRule(Feed(s, Print(front)), last);
      StoredLast(rules);
    }
  }
}
