/** Which rules of a style sheet are stored, and what counts as white space in it. */
module StyleSheetRules {
  import opened Basics
  import opened StyleSheets
  import opened StyleSheetTexts

  // ---------- white space ----------

  /** The text with a blank for every such symbol. */
  function WithBlanks(text: string): (r: string)
    ensures |r| == |text|
  {
    if text == "" then ""
    else WithBlanks(text[..|text| - 1]) + [if WhiteSpace(text[|text| - 1]) then ' ' else text[|text| - 1]]
  }

  /** All of them are read as a blank is, and nothing else is but the separators with a meaning of their own. */
  lemma {:induction false} WhiteSpaceIsBlank(s: Parser, text: string)
    ensures Feed(s, text) == Feed(s, WithBlanks(text))
  {
    if text != "" {
      hide Feed;
      var front, last := text[..|text| - 1], text[|text| - 1];
      assert text == front + [last];
      WhiteSpaceIsBlank(s, front);
      FeedLast(s, front, last);
      FeedLast(s, WithBlanks(front), if WhiteSpace(last) then ' ' else last);
      OneBlank(Feed(s, front), last);
    }
  }

  lemma OneBlank(s: Parser, c: char)
    ensures WhiteSpace(c) ==> Step(s, c) == Step(s, ' ')
    ensures !WhiteSpace(c) && c !in "{};:" ==> Step(s, c) == s.(word := s.word + [c])
  {
    hide EndWord;
  }

  // ---------- broken rules ----------

  /** What stands in front of a closing brace makes a rule: no braces, colons or semicolons at all, or first an opening
      brace, no second one, and a semicolon between any two colons. */
  ghost predicate MakesRule(text: string)
  {
    && (forall i, j :: 0 <= i < j < |text| && text[j] == '{' ==> text[i] !in "{:;")
    && (forall i :: 0 <= i < |text| && text[i] in ":;" ==> '{' in text[..i])
    && (forall i, j :: 0 <= i < j < |text| && text[i] == ':' == text[j] ==> ';' in text[i..j])
  }

  /** A colon with no semicolon behind it. */
  ghost predicate OpenColon(text: string)
  {
    exists i :: 0 <= i < |text| && text[i] == ':' && ';' !in text[i..]
  }

  lemma MakesRuleMore(text: string, c: char)
    ensures MakesRule(text + [c]) <==>
      && MakesRule(text) && (c == '{' ==> forall i :: 0 <= i < |text| ==> text[i] !in "{:;")
      && (c in ":;" ==> '{' in text) && (c == ':' ==> !OpenColon(text))
  {
    var longer := text + [c];
    assert forall i :: 0 <= i <= |text| ==> longer[..i] == text[..i];
    assert forall i, j :: 0 <= i <= j <= |text| ==> longer[i..j] == text[i..j];
    assert longer[|text|] == c && text[..|text|] == text;
    assert forall i :: 0 <= i < |text| ==> longer[i] == text[i] && text[i..|text|] == text[i..];
  }

  lemma OpenColonMore(text: string, c: char)
    ensures OpenColon(text + [c]) <==> c == ':' || (OpenColon(text) && c != ';')
  {
    var longer := text + [c];
    assert longer[|text|] == c && longer[|text|..] == [c];
    assert forall i :: 0 <= i < |text| ==> longer[i] == text[i] && longer[i..] == text[i..] + [c];
  }

  lemma {:induction false} WholeWordKeeps(s: Parser, w: string)
    ensures WholeWord(s, w).readState == s.readState && WholeWord(s, w).stored == s.stored
    decreases |w|
  {
    if w != "" {
      hide PlainWord, WholeWord;
      WholeWordUnfolds(s, w);
      var k := FindMark(w, Mark(s.insideComment));
      var t := if s.insideComment || k == 0 then s else PlainWord(s, if k < 0 then w else w[..k]);
      if k >= 0 {
        WholeWordKeeps(t.(insideComment := !s.insideComment), w[k + 2..]);
      }
    } else {
      NoWord(s);
    }
  }

  lemma StepState(s: Parser, c: char)
    requires c != '}'
    ensures Step(s, c).stored == s.stored
    ensures Step(s, c).readState == if IsControl(c) then Control(s, c).readState else s.readState
  {
    hide WholeWord;
    WholeWordKeeps(s, s.word);
  }

  /** The state of the parser, read off the text. */
  lemma {:induction false} StateAfter(s: Parser, text: string)
    requires s.readState == TagName && '}' !in text
    ensures
      var r := Feed(s, text);
      && r.stored == s.stored && (r.readState == Broken <==> !MakesRule(text))
      && (MakesRule(text) ==> (r.readState == TagName <==> '{' !in text))
      && (MakesRule(text) && '{' in text ==> (r.readState == AttributeValue <==> OpenColon(text)))
  {
    if text != "" {
      hide Feed, Step, MakesRule, OpenColon;
      var front, last := text[..|text| - 1], text[|text| - 1];
      assert text == front + [last];
      StateAfter(s, front);
      FeedLast(s, front, last);
      StepState(Feed(s, front), last);
      MakesRuleMore(front, last);
      OpenColonMore(front, last);
      if MakesRule(front) && '{' !in front {
        NothingBeforeBrace(front);
      }
    } else {
      assert Feed(s, text) == s;
    }
  }

  lemma NothingBeforeBrace(text: string)
    requires MakesRule(text) && '{' !in text
    ensures (forall i :: 0 <= i < |text| ==> text[i] !in "{:;") && !OpenColon(text)
  {
  }

  /** At a closing brace exactly the texts that make a rule get one stored; others leave nothing behind. */
  lemma RuleStoredExactly(s: Parser, text: string)
    requires s.readState == TagName && '}' !in text
    ensures
      var r := Feed(s, text + "}");
      && (MakesRule(text) ==> |r.stored| == |s.stored| + 1 && r.stored[..|s.stored|] == s.stored)
      && (!MakesRule(text) ==> r.stored == s.stored)
      && r.readState == TagName && r.tagName == "" && r.className == "" && r.attributes == map[] && r.word == ""
  {
    hide Feed, WholeWord, MakesRule, OpenColon;
    StateAfter(s, text);
    FeedLast(s, text, '}');
    var t := Feed(s, text);
    WholeWordKeeps(t, t.word);
    assert text + "}" == text + ['}'];
  }

  lemma {:induction false} NoStarNoComment(s: Parser, text: string)
    requires !s.insideComment && '*' !in s.word && '*' !in text
    ensures !Feed(s, text).insideComment && '*' !in Feed(s, text).word
  {
    if text != "" {
      hide Feed, WholeWord;
      var front, last := text[..|text| - 1], text[|text| - 1];
      assert text == front + [last];
      NoStarNoComment(s, front);
      FeedLast(s, front, last);
      var t := Feed(s, front);
      NoStarPlain(t, t.word);
    }
  }

  lemma NoStarPlain(s: Parser, w: string)
    requires !s.insideComment && '*' !in w
    ensures WholeWord(s, w) == if w == "" then s else PlainWord(s, w)
  {
  }

  /** A broken rule is dropped, and the rules after it are stored. */
  lemma BrokenRuleIsDropped(s: Parser, broken: string, rules: seq<RuleText>)
    requires Idle(s) && '}' !in broken && '*' !in broken && !MakesRule(broken) && forall r <- rules :: CleanRule(r)
    ensures Feed(s, broken + "}" + Print(rules)).stored == s.stored + Stored(rules)
  {
    hide Feed, MakesRule, CleanRule, Print, Stored;
    RuleStoredExactly(s, broken);
    assert '*' !in broken + "}";
    NoStarNoComment(s, broken + "}");
    FeedConcat(s, broken + "}", Print(rules));
    PrintedRulesAreStored(Feed(s, broken + "}"), rules);
  }

  /** For example a rule with a colon in its selector. */
  lemma ColonInSelector(s: Parser, rules: seq<RuleText>)
    requires Idle(s) && forall r <- rules :: CleanRule(r)
    ensures Feed(s, "a:hover{color:red}" + Print(rules)).stored == s.stored + Stored(rules)
  {
    hide Feed, CleanRule, Print, Stored;
    var broken := "a:hover{color:red";
    assert broken[1] == ':' && broken[..1] == "a";
    assert !MakesRule(broken);
    assert broken + "}" == "a:hover{color:red}";
    BrokenRuleIsDropped(s, broken, rules);
  }

  // ---------- comments as white space ----------

  lemma {:induction false} WholeWordWord(s: Parser, w: string, x: string)
    ensures WholeWord(s.(word := x), w) == WholeWord(s, w).(word := x)
    decreases |w|
  {
    if w == "" {
      NoWord(s);
      NoWord(s.(word := x));
    } else {
      hide WholeWord;
      WholeWordUnfolds(s, w);
      WholeWordUnfolds(s.(word := x), w);
      var k := FindMark(w, Mark(s.insideComment));
      var t := if s.insideComment || k == 0 then s else PlainWord(s, if k < 0 then w else w[..k]);
      if k >= 0 {
        WholeWordWord(t.(insideComment := !s.insideComment), w[k + 2..], x);
      }
    }
  }

  lemma MarkBehind(w: string, v: string)
    requires !HasMark(w, "/*")
    ensures FindMark(w + "/*" + v, "/*") == |w|
  {
    var all := w + "/*" + v;
    assert MarkAt(all, |w|, "/*");
    forall i | MarkAt(all, i, "/*")
      ensures i >= |w|
    {
      assert (i < |w| - 1) == MarkAt(w, i, "/*");
    }
  }

  lemma WordWithoutMark(s: Parser, w: string)
    requires !s.insideComment && !HasMark(w, "/*")
    ensures WholeWord(s, w) == if w == "" then s else PlainWord(s, w)
  {
  }

  /** A word with a comment behind it. */
  lemma WordThenComment(s: Parser, w: string, v: string)
    requires !s.insideComment && !HasMark(w, "/*")
    ensures WholeWord(s, w + "/*" + v) == WholeWord(WholeWord(s, w).(insideComment := true), v)
  {
    hide WholeWord, PlainWord, FindMark;
    var all := w + "/*" + v;
    MarkBehind(w, v);
    WholeWordUnfolds(s, all);
    WordWithoutMark(s, w);
    assert all[..|w|] == w && all[|w| + 2..] == v;
  }

  /** In front of a comment a word ends as it does in front of white space. */
  lemma WordBeforeComment(s: Parser, u: string, c: char)
    requires !s.insideComment && !HasMark(s.word, "/*") && NoSeparator(u) && IsSeparator(c)
    ensures !EndWord(s).insideComment && EndWord(s).word == ""
    ensures Feed(s, "/*" + u + [c]) == Feed(EndWord(s), "/*" + u + [c])
  {
    hide Feed, WholeWord, PlainWord;
    var t := EndWord(s);
    FeedEnds(s, "/*" + u, c);
    FeedEnds(t, "/*" + u, c);
    WordWithoutMark(s, s.word);
    SameEnd(s, t, u);
  }

  lemma SameEnd(s: Parser, t: Parser, u: string)
    requires !s.insideComment && !HasMark(s.word, "/*") && t == EndWord(s) && !t.insideComment && t.word == ""
    ensures EndWord(s.(word := s.word + ("/*" + u))) == EndWord(t.(word := t.word + ("/*" + u)))
  {
    hide WholeWord, PlainWord;
    assert s.word + ("/*" + u) == s.word + "/*" + u && t.word + ("/*" + u) == "/*" + u;
    WholeWordWord(s, s.word + "/*" + u, s.word + "/*" + u);
    WholeWordWord(t, "/*" + u, "/*" + u);
    WordThenComment(s, s.word, u);
    WordStartsComment(t, u);
    var q := WholeWord(s, s.word).(insideComment := true);
    WholeWordWord(q, u, "");
  }

  /** The end of a comment with more of the word behind it. */
  lemma CommentEndThenWord(s: Parser, w: string, v: string)
    requires s.insideComment && !HasMark(w, "*/")
    ensures WholeWord(s, w + "*/" + v) == WholeWord(s.(insideComment := false), v)
  {
    hide WholeWord, PlainWord, FindMark;
    var all := w + "*/" + v;
    assert MarkAt(all, |w|, "*/");
    forall i | MarkAt(all, i, "*/")
      ensures i >= |w|
    {
      assert (i < |w| - 1) == MarkAt(w, i, "*/");
    }
    WholeWordUnfolds(s, all);
    assert all[|w| + 2..] == v;
  }

  /** A comment and what follows it in the same word. */
  lemma CommentThenWord(s: Parser, text: string, v: string, c: char)
    requires s.word == "" && !s.insideComment && !HasMark(text, "*/") && NoSeparator(v) && IsSeparator(c)
    ensures Feed(s, "/*" + text + ("*/" + v + [c])) == Feed(Controls(s, text), v + [c])
  {
    hide Feed, WholeWord, PlainWord, InComment, Controls;
    var now, q := InComment(s, text), Controls(s, text);
    FeedComment(s, text);
    FeedConcat(s, "/*" + text, "*/" + v + [c]);
    FeedEnds(now, "*/" + v, c);
    FeedEnds(q, v, c);
    CommentWordEnds(s, text, v);
  }

  lemma CommentWordEnds(s: Parser, text: string, v: string)
    requires s.word == "" && !s.insideComment && !HasMark(text, "*/")
    ensures
      var now, q := InComment(s, text), Controls(s, text);
      EndWord(now.(word := now.word + ("*/" + v))) == EndWord(q.(word := q.word + v))
  {
    hide WholeWord, PlainWord, Controls, HasMark;
    var now, q := InComment(s, text), Controls(s, text);
    var end := now.(word := now.word + ("*/" + v));
    if NoSeparator(text) {
      assert end.word == "/*" + (text + "*/" + v);
      WordStartsComment(end, text + "*/" + v);
      CommentEndThenWord(end.(insideComment := true), text, v);
      NoControls(s, text);
    } else {
      assert end.word == LastWord(text) + "*/" + v;
      LastWordHasNoMark(text, "*/");
      CommentEndThenWord(end, LastWord(text), v);
    }
    assert q.word + v == v;
    WholeWordWord(q, v, end.word);
    WholeWordWord(q, v, v);
  }

  /** What stands in front of the first separator. */
  function FirstWord(text: string): (u: string)
    requires !NoSeparator(text)
    ensures |u| < |text| && u == text[..|u|] && NoSeparator(u) && IsSeparator(text[|u|])
    decreases text
  {
    if IsSeparator(text[0]) then ""
    else
      assert text == [text[0]] + text[1..];
      [text[0]] + FirstWord(text[1..])
  }

  lemma TextBeforeComment(s: Parser, text: string)
    requires !s.insideComment && !HasMark(s.word, "/*") && !NoSeparator(text)
    ensures !EndWord(s).insideComment && EndWord(s).word == ""
    ensures Feed(s, "/*" + text) == Feed(EndWord(s), "/*" + text)
  {
    hide Feed, WholeWord, HasMark;
    var u := FirstWord(text);
    var rest := text[|u| + 1..];
    WordBeforeComment(s, u, text[|u|]);
    assert text == u + [text[|u|]] + rest;
    assert "/*" + text == ("/*" + u + [text[|u|]]) + rest;
    FeedConcat(s, "/*" + u + [text[|u|]], rest);
    FeedConcat(EndWord(s), "/*" + u + [text[|u|]], rest);
  }

  /** A comment without control symbols is read as a blank, also in the middle of a word. */
  lemma CommentIsABlank(s: Parser, text: string, v: string, c: char)
    requires !s.insideComment && !HasMark(s.word, "/*") && !HasMark(text, "*/") && forall d <- text :: !IsControl(d)
    requires NoSeparator(v) && IsSeparator(c)
    ensures Feed(s, "/*" + text + "*/" + v + [c]) == Feed(s, " " + v + [c])
  {
    hide Feed, WholeWord, HasMark, Controls;
    var back := "*/" + v + [c];
    assert (text + back)[|text| + 2 + |v|] == c;
    TextBeforeComment(s, text + back);
    assert "/*" + text + "*/" + v + [c] == "/*" + (text + back) == "/*" + text + back;
    CommentThenWord(EndWord(s), text, v, c);
    NoControlsNoTrace(EndWord(s), text);
    BlankEnds(s);
    assert " " + v + [c] == " " + (v + [c]);
    FeedConcat(s, " ", v + [c]);
  }

  lemma BlankEnds(s: Parser)
    ensures Feed(s, " ") == EndWord(s)
  {
    hide WholeWord;
    assert " "[..0] == "";
    assert Feed(s, "") == s;
    assert Feed(s, " ") == Step(Feed(s, " "[..0]), ' ');
  }

  /** A value of a name that has none yet becomes its only value. */
  lemma ValueWithoutName(s: Parser, w: string)
    requires s.readState == AttributeValue && s.attributes == map[] && !s.insideComment && w != "" && !HasMark(w, "/*")
    ensures WholeWord(s, w).attributes == map[s.attributeName := [w]]
  {
    WordWithoutMark(s, w);
    assert [] + [w] == [w];
  }
}
