/** Full names of tags: components joined with slashes, and read back with white space around them ignored. */
module FullNames {
  import opened Basics
  import opened Order

  const DELIMITER: char := '/'

  function StripLeft(s: string): string
  {
    if s != [] && IsSpace(s[0]) then StripLeft(s[1..]) else s
  }

  function StripRight(s: string): (r: string)
    ensures r <= s
  {
    if s != [] && IsSpace(s[|s| - 1]) then StripRight(s[..|s| - 1]) else s
  }

  function Strip(s: string): string { StripRight(StripLeft(s)) }

  /** The position of the last slash, or -1. */
  function LastSlash(s: string): (i: int)
    ensures -1 <= i < |s|
    ensures i >= 0 ==> s[i] == DELIMITER
    ensures forall k :: i < k < |s| ==> s[k] != DELIMITER
  {
    if s == [] then -1 else if s[|s| - 1] == DELIMITER then |s| - 1 else LastSlash(s[..|s| - 1])
  }

  function Join(p: Path): string
  {
    if p == [] then [] else if |p| == 1 then p[0]
    else Join(p[..|p| - 1]) + [DELIMITER] + p[|p| - 1]
  }

  /** The path a full name stands for; an empty last component makes it no tag at all. */
  function Parse(s: string): Path
    decreases |s|
  {
    StripShorter(s);
    var t := Strip(s);
    var i := LastSlash(t);
    if i < 0 then if t == [] then [] else [t]
    else
      var last := Strip(t[i + 1..]);
      if last == [] then [] else Parse(t[..i]) + [last]
  }

  lemma {:induction false} StripLeftShorter(s: string)
    ensures |StripLeft(s)| <= |s|
    ensures forall c :: c in StripLeft(s) ==> c in s
    ensures StripLeft(s) != [] ==> !IsSpace(StripLeft(s)[0])
  {
    if s != [] && IsSpace(s[0]) {
      StripLeftShorter(s[1..]);
    }
  }

  lemma {:induction false} StripRightEnd(s: string)
    ensures StripRight(s) != [] ==> !IsSpace(StripRight(s)[|StripRight(s)| - 1])
  {
    if s != [] && IsSpace(s[|s| - 1]) {
      StripRightEnd(s[..|s| - 1]);
    }
  }

  lemma StripShorter(s: string)
    ensures |Strip(s)| <= |s| && forall c :: c in Strip(s) ==> c in s
  {
    StripLeftShorter(s);
  }

  predicate Stripped(s: string)
  {
    s != [] && !IsSpace(s[0]) && !IsSpace(s[|s| - 1])
  }

  lemma StrippedIsFixed(s: string)
    requires Stripped(s)
    ensures Strip(s) == s
  {
  }

  lemma StripIsStripped(s: string)
    ensures Strip(s) == [] || Stripped(Strip(s))
  {
    StripLeftShorter(s);
    StripRightEnd(StripLeft(s));
  }

  // ---------- full names and paths ----------

  /** A name that survives being written into a full name. */
  predicate Clean(name: string)
  {
    Stripped(name) && DELIMITER !in name
  }

  predicate AllClean(p: Path)
  {
    forall i :: 0 <= i < |p| ==> Clean(p[i])
  }

  lemma {:induction false} JoinStripped(p: Path)
    requires p != [] && AllClean(p)
    ensures Stripped(Join(p))
  {
    if |p| > 1 {
      JoinStripped(p[..|p| - 1]);
      assert Clean(p[|p| - 1]);
    } else {
      assert Clean(p[0]);
    }
  }

  lemma {:induction false} LastSlashAt(head: string, name: string)
    requires DELIMITER !in name
    ensures LastSlash(head + [DELIMITER] + name) == |head|
  {
    var s := head + [DELIMITER] + name;
    if name != [] {
      var n := |name| - 1;
      assert s[|s| - 1] == name[n] && s[..|s| - 1] == head + [DELIMITER] + name[..n];
      assert name[n] in name && forall c :: c in name[..n] ==> c in name;
      LastSlashAt(head, name[..n]);
    }
  }

  /** Reading a full name back gives the path it was made from, when all components are clean. */
  lemma {:induction false} ParseJoin(p: Path)
    requires AllClean(p)
    ensures Parse(Join(p)) == p
  {
    hide Parse, Clean;
    if p == [] {
      ParseNothing();
    } else {
      var n := |p| - 1;
      assert p == p[..n] + [p[n]];
      if n == 0 {
        ParseOne(p[0]);
      } else {
        ParseJoin(p[..n]);
        JoinStripped(p);
        ParseLast(Join(p[..n]), p[n]);
      }
    }
  }

  lemma ParseNothing()
    ensures Parse([]) == []
  {
  }

  lemma ParseOne(name: string)
    requires Clean(name)
    ensures Parse(name) == [name]
  {
    StrippedIsFixed(name);
    NoSlash(name);
  }

  lemma ParseLast(head: string, name: string)
    requires Clean(name) && Stripped(head + [DELIMITER] + name)
    ensures Parse(head + [DELIMITER] + name) == Parse(head) + [name]
  {
    hide Strip, LastSlash, IsSpace;
    var s := head + [DELIMITER] + name;
    StrippedIsFixed(s);
    StrippedIsFixed(name);
    LastSlashAt(head, name);
    assert s[|head| + 1..] == name && s[..|head|] == head;
  }

  lemma NoSlash(s: string)
    requires DELIMITER !in s
    ensures LastSlash(s) == -1
  {
  }

  // ---------- white space and empty components ----------

  predicate AllWhite(w: string) { forall i :: 0 <= i < |w| ==> WhiteSpace(w[i]) }

  /** No white space at either end. */
  predicate Bare(m: string) { BareLeft(m) && BareRight(m) }

  predicate BareLeft(m: string) { m != "" ==> !WhiteSpace(m[0]) }

  predicate BareRight(m: string) { m != "" ==> !WhiteSpace(m[|m| - 1]) }

  lemma {:induction false} StripLeftWhite(w: string, s: string)
    requires AllWhite(w) && BareLeft(s)
    ensures StripLeft(w + s) == s
  {
    if w == "" {
      assert w + s == s;
    } else {
      assert (w + s)[1..] == w[1..] + s;
      StripLeftWhite(w[1..], s);
    }
  }

  lemma {:induction false} StripRightWhite(s: string, w: string)
    requires AllWhite(w) && BareRight(s)
    ensures StripRight(s + w) == s
  {
    if w == "" {
      assert s + w == s;
    } else {
      var n := |w| - 1;
      assert (s + w)[..|s| + n] == s + w[..n];
      StripRightWhite(s, w[..n]);
    }
  }

  /** White space around a name is stripped, and nothing else. */
  lemma StripWhite(w: string, m: string, v: string)
    requires AllWhite(w) && AllWhite(v) && Bare(m)
    ensures Strip(w + m + v) == m
  {
    if m == "" {
      assert w + m + v == (w + v) + "";
      StripLeftWhite(w + v, "");
    } else {
      assert w + m + v == w + (m + v);
      assert (m + v)[0] == m[0];
      StripLeftWhite(w, m + v);
      StripRightWhite(m, v);
    }
  }

  /** A name in a full name, with white space before and after it. */
  datatype Part = Part(before: string, name: string, after: string)

  predicate PartOk(p: Part)
  {
    AllWhite(p.before) && AllWhite(p.after) && Bare(p.name) && '/' !in p.name
  }

  function Written(p: Part): string { p.before + p.name + p.after }

  /** A full name as somebody may write it. */
  function WrittenOut(parts: seq<Part>): string
    requires parts != []
  {
    if |parts| == 1 then Written(parts[0])
    else WrittenOut(parts[..|parts| - 1]) + "/" + Written(parts[|parts| - 1])
  }

  /** The names behind the last one that is empty. */
  function NamesAtEnd(parts: seq<Part>): (p: Path)
  {
    if parts == [] || parts[|parts| - 1].name == "" then []
    else NamesAtEnd(parts[..|parts| - 1]) + [parts[|parts| - 1].name]
  }

  /** What a string is without the white space around it. */
  lemma {:induction false} LeftSplit(s: string) returns (w: string)
    ensures AllWhite(w) && s == w + StripLeft(s) && BareLeft(StripLeft(s))
  {
    if s != "" && IsSpace(s[0]) {
      var w' := LeftSplit(s[1..]);
      w := [s[0]] + w';
      assert s == [s[0]] + s[1..];
    } else {
      w := "";
    }
  }

  lemma {:induction false} RightSplit(s: string) returns (w: string)
    ensures AllWhite(w) && s == StripRight(s) + w && BareRight(StripRight(s))
  {
    if s != "" && IsSpace(s[|s| - 1]) {
      var w' := RightSplit(s[..|s| - 1]);
      w := w' + [s[|s| - 1]];
      assert s == s[..|s| - 1] + [s[|s| - 1]];
    } else {
      w := "";
    }
  }

  lemma Core(s: string) returns (l: string, r: string)
    ensures AllWhite(l) && AllWhite(r) && Bare(Strip(s)) && s == l + Strip(s) + r
  {
    hide StripLeft, StripRight;
    l := LeftSplit(s);
    r := RightSplit(StripLeft(s));
    var m, core := StripLeft(s), StripRight(StripLeft(s));
    assert core != "" ==> core[0] == m[0];
  }

  lemma StripIgnoresWhite(w: string, s: string, v: string)
    requires AllWhite(w) && AllWhite(v)
    ensures Strip(w + s + v) == Strip(s)
  {
    hide Strip, Bare;
    var l, r := Core(s);
    assert w + s + v == (w + l) + Strip(s) + (r + v);
    StripWhite(w + l, Strip(s), r + v);
  }

  /** White space around a full name means nothing. */
  lemma ParseIgnoresWhite(w: string, s: string, v: string)
    requires AllWhite(w) && AllWhite(v)
    ensures Parse(w + s + v) == Parse(s)
  {
    hide Strip;
    StripIgnoresWhite(w, s, v);
    StripShorter(s);
    StripShorter(w + s + v);
  }

  lemma ParseEndsInSlash(front: string)
    requires BareLeft(front)
    ensures Parse(front + "/") == []
  {
    hide StripLeft, StripRight, LastSlash;
    var s := front + "/";
    StripWhite("", s, "");
    assert "" + s + "" == s;
    LastSlashAt(front, "");
    assert s == front + [DELIMITER] + "" && s[|front| + 1..] == "";
    StripWhite("", "", "");
    assert "" + "" + "" == "";
  }

  lemma ParseLastName(front: string, before: string, name: string)
    requires BareLeft(front) && AllWhite(before) && name != "" && Bare(name) && '/' !in name
    ensures Parse(front + "/" + (before + name)) == Parse(front) + [name]
  {
    hide StripLeft, StripRight, LastSlash;
    var last := before + name;
    var s := front + "/" + last;
    assert s[|s| - 1] == name[|name| - 1] && s[0] == (front + "/")[0];
    StripWhite("", s, "");
    assert "" + s + "" == s;
    assert DELIMITER !in last;
    LastSlashAt(front, last);
    assert s == front + [DELIMITER] + last && s[|front| + 1..] == last && s[..|front|] == front;
    StripWhite(before, name, "");
    assert before + name + "" == last;
  }

  /** The last component of what is written, and the rest. */
  lemma ParseSplits(head: string, p: Part)
    requires PartOk(p)
    ensures Parse(head + "/" + Written(p)) == if p.name == "" then [] else Parse(head) + [p.name]
  {
    hide Parse, Bare, AllWhite;
    var l := HeadSplit(head);
    var front := LeftOf(head, l);
    assert AllWhite("") by { NothingIsWhite(); }
    if p.name == "" {
      assert head + "/" + Written(p) == l + (front + "/") + (p.before + p.after);
      WhiteConcat(p.before, p.after);
      ParseIgnoresWhite(l, front + "/", p.before + p.after);
      ParseEndsInSlash(front);
    } else {
      assert head + "/" + Written(p) == l + (front + "/" + (p.before + p.name)) + p.after;
      ParseIgnoresWhite(l, front + "/" + (p.before + p.name), p.after);
      ParseLastName(front, p.before, p.name);
      assert head == l + front + "";
      ParseIgnoresWhite(l, front, "");
    }
  }

  lemma NothingIsWhite()
    ensures AllWhite("")
  {
  }

  lemma WhiteConcat(w: string, v: string)
    requires AllWhite(w) && AllWhite(v)
    ensures AllWhite(w + v)
  {
  }

  lemma HeadSplit(head: string) returns (l: string)
    ensures l <= head && AllWhite(l) && BareLeft(LeftOf(head, l))
  {
    l := LeftSplit(head);
    assert head[|l|..] == StripLeft(head);
  }

  function LeftOf(head: string, l: string): (r: string)
    requires l <= head
    ensures head == l + r
  {
    head[|l|..]
  }

  /** Exactly what a full name stands for, however it is written: the names behind the last empty one, without the white
      space around them. */
  lemma {:induction false} ParseExactly(parts: seq<Part>)
    requires parts != [] && forall i :: 0 <= i < |parts| ==> PartOk(parts[i])
    ensures Parse(WrittenOut(parts)) == NamesAtEnd(parts)
  {
    hide Parse, Bare, AllWhite, Written;
    var n := |parts| - 1;
    if n == 0 {
      ParseSingle(parts[0]);
      assert parts[..0] == [];
      assert NamesAtEnd(parts[..0]) == [];
    } else {
      ParseExactly(parts[..n]);
      ParseSplits(WrittenOut(parts[..n]), parts[n]);
    }
  }

  lemma ParseSingle(p: Part)
    requires PartOk(p)
    ensures Parse(Written(p)) == if p.name == "" then [] else [p.name]
  {
    StripWhite(p.before, p.name, p.after);
    hide StripLeft, StripRight;
    NoSlash(p.name);
  }

  /** Whatever is read, the components that come out are clean. */
  lemma {:induction false} ParseIsClean(s: string)
    ensures AllClean(Parse(s))
    decreases |s|
  {
    hide Strip, LastSlash, IsSpace;
    StripShorter(s);
    StripIsStripped(s);
    var t := Strip(s);
    var i := LastSlash(t);
    if i >= 0 {
      StripShorter(t[i + 1..]);
      StripIsStripped(t[i + 1..]);
      ParseIsClean(t[..i]);
    }
  }

  /** The full name leads back to the tag exactly when every component is clean. */
  lemma FullNameRoundTrip(p: Path)
    ensures Parse(Join(p)) == p <==> AllClean(p)
  {
    ParseIsClean(Join(p));
    if AllClean(p) {
      ParseJoin(p);
    }
  }

  /** So a name with a slash is read back as two. */
  lemma SlashSplitsName()
    ensures Parse(Join(["a/b"])) == ["a", "b"]
  {
    assert AllClean(["a", "b"]);
    assert ["a", "b"][..1] == ["a"];
    assert Join(["a", "b"]) == "a/b";
    ParseJoin(["a", "b"]);
  }
}
