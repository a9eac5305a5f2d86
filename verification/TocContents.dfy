/** What the reader of tables of contents makes of any tags, and the contents model of any calls. */
module TocContents {
  import opened TocReaders

  // ---------- tags without a meaning ----------

  /** The tags that mean something; everything else, `LI` included, is passed over. */
  predicate Meant(tag: HtmlTag)
  {
    if tag.start then tag.name in ["UL", "OBJECT", "PARAM"] else tag.name in ["UL", "OBJECT"]
  }

  function OnlyMeant(tags: seq<HtmlTag>): seq<HtmlTag>
  {
    if tags == [] then []
    else OnlyMeant(tags[..|tags| - 1]) + if Meant(tags[|tags| - 1]) then [tags[|tags| - 1]] else []
  }

  /** A document is read as if it had no other tags. */
  lemma {:induction false} OthersAreIgnored(r: Reader, tags: seq<HtmlTag>, outside: Outside, n: int)
    ensures HandledAll(r, tags, outside, n) == HandledAll(r, OnlyMeant(tags), outside, n)
  {
    if tags != [] {
      hide Handled;
      var front, last := tags[..|tags| - 1], tags[|tags| - 1];
      OthersAreIgnored(r, front, outside, n);
      if Meant(last) {
        assert (OnlyMeant(front) + [last])[..|OnlyMeant(front)|] == OnlyMeant(front);
      } else {
        NotMeant(HandledAll(r, front, outside, n), last, outside, n);
        assert OnlyMeant(front) + [] == OnlyMeant(front);
      }
    }
  }

  lemma NotMeant(r: Reader, tag: HtmlTag, outside: Outside, n: int)
    requires !Meant(tag)
    ensures Handled(r, tag, outside, n) == r
  {
  }

  /** A parameter that is neither a name nor a reference means nothing; of several attributes of one name the last one
      counts, and others do not. */
  lemma ParameterMeans(r: Reader, attributes: seq<(string, string)>, outside: Outside, n: int)
    ensures
      var s := Handled(r, HtmlTag("PARAM", true, attributes), outside, n);
      var name, value := LastOf(attributes, "NAME"), LastOf(attributes, "VALUE");
      s == if name == "Name" then r.(text := value)
           else if name == "Local" then r.(reference := outside.fullReference(value)) else r
  {
    LastIsAttribute(attributes, "NAME");
    LastIsAttribute(attributes, "VALUE");
  }

  /** The values of all attributes of a name. */
  function ValuesOf(attributes: seq<(string, string)>, name: string): seq<string>
  {
    if attributes == [] then []
    else (if attributes[0].0 == name then [attributes[0].1] else []) + ValuesOf(attributes[1..], name)
  }

  function LastOf(attributes: seq<(string, string)>, name: string): string
  {
    var values := ValuesOf(attributes, name);
    if values == [] then "" else values[|values| - 1]
  }

  lemma {:induction false} ValuesLast(attributes: seq<(string, string)>, last: (string, string), name: string)
    ensures ValuesOf(attributes + [last], name) == ValuesOf(attributes, name) + if last.0 == name then [last.1] else []
  {
    if attributes == [] {
      assert [] + [last] == [last] && [last][1..] == [];
    } else {
      assert (attributes + [last])[1..] == attributes[1..] + [last];
      ValuesLast(attributes[1..], last, name);
    }
  }

  lemma {:induction false} LastIsAttribute(attributes: seq<(string, string)>, name: string)
    ensures AttributeOf(attributes, name) == LastOf(attributes, name)
  {
    if attributes != [] {
      var front, last := attributes[..|attributes| - 1], attributes[|attributes| - 1];
      assert attributes == front + [last];
      ValuesLast(front, last, name);
      LastIsAttribute(front, name);
    }
  }

  // ---------- any calls of the contents model ----------

  /** A paragraph of the contents is begun, gets some text, or is ended. */
  datatype Call = Begin(reference: int) | Data(text: string) | Finish

  function Called(c: Contents, call: Call): Contents
  {
    match call
    case Begin(reference) => Begun(c, reference)
    case Data(text) => if text == "" || c.stack == [] then c else c.(buffer := c.buffer + [text])
    case Finish => Ended(c)
  }

  function CalledAll(c: Contents, calls: seq<Call>): Contents
  {
    if calls == [] then c else Called(CalledAll(c, calls[..|calls| - 1]), calls[|calls| - 1])
  }

  /** The calls on the book reader; a reference of -1 stands for the number of paragraphs of the main text. */
  method Perform(book: BookReader, calls: seq<Call>)
    requires book.mainTextIsCurrent && forall call <- calls :: call.Begin? ==> call.reference != -1
    modifies book
    ensures book.Model() == CalledAll(old(book.Model()), calls) && book.mainTextIsCurrent
  {
    for i := 0 to |calls|
      invariant book.mainTextIsCurrent && book.Model() == CalledAll(old(book.Model()), calls[..i])
    {
      assert calls[..i + 1][..i] == calls[..i] && calls[i] in calls;
      match calls[i]
      case Begin(reference) => book.BeginContentsParagraph(reference);
      case Data(text) => book.AddContentsData(text);
      case Finish => book.EndContentsParagraph();
    }
    assert calls[..|calls|] == calls;
  }

  /** Pieces of text are joined in their order. */
  lemma {:induction false} JoinConcat(a: seq<string>, b: seq<string>)
    ensures Join(a + b) == Join(a) + Join(b) && Join([]) == ""
    ensures forall text: string :: Join([text]) == text
  {
    forall text: string
      ensures Join([text]) == text
    {
      assert [text][..0] == [];
    }
    if b == [] {
      assert a + b == a;
    } else {
      var front, last := b[..|b| - 1], b[|b| - 1];
      assert (a + b)[..|a + b| - 1] == a + front;
      JoinConcat(a, front);
    }
  }

  /** Nothing is buffered for no paragraph, no piece is empty, and every paragraph has a text but the last one, if it
      has just been made. */
  ghost predicate InOrder(c: Contents)
  {
    && (forall x <- c.buffer :: x != "")
    && (c.paragraphs == [] ==> c.stack == [] && c.buffer == [] && !c.lastIsEmpty)
    && (c.lastIsEmpty ==> c.stack != [] && c.paragraphs[|c.paragraphs| - 1].text == "")
    && (!c.lastIsEmpty && c.paragraphs != [] ==> c.paragraphs[|c.paragraphs| - 1].text != "")
    && (forall i :: 0 <= i < |c.paragraphs| - 1 ==> c.paragraphs[i].text != "")
  }

  lemma {:induction false} JoinNotEmpty(pieces: seq<string>)
    requires pieces != [] && forall x <- pieces :: x != ""
    ensures Join(pieces) != ""
  {
    assert pieces[|pieces| - 1] in pieces;
  }

  lemma OneCall(c: Contents, call: Call)
    requires InOrder(c)
    ensures InOrder(Called(c, call))
  {
    hide Join;
    if c.buffer != [] {
      JoinNotEmpty(c.buffer);
    }
  }

  /** Whatever the calls: when no paragraph is open, none is without a text. */
  lemma {:induction false} EveryParagraphHasText(calls: seq<Call>)
    ensures
      var c := CalledAll(Contents([], [], [], false), calls);
      InOrder(c) && (c.stack == [] ==> forall p <- c.paragraphs :: p.text != "")
  {
    if calls != [] {
      hide Called, InOrder;
      EveryParagraphHasText(calls[..|calls| - 1]);
      OneCall(CalledAll(Contents([], [], [], false), calls[..|calls| - 1]), calls[|calls| - 1]);
      NoneEmpty(CalledAll(Contents([], [], [], false), calls));
    }
  }

  lemma NoneEmpty(c: Contents)
    requires InOrder(c)
    ensures c.stack == [] ==> forall p <- c.paragraphs :: p.text != ""
  {
  }

  /** A paragraph that is ended, or followed by one below it, without any text gets three dots; otherwise its text is
      what it was given. */
  lemma TextOfParagraph(c: Contents, reference: int, pieces: seq<string>, next: Call)
    requires InOrder(c) && !next.Data? && forall x <- pieces :: x != ""
    ensures
      var made := Called(c, Begin(reference));
      var n := |made.paragraphs| - 1;
      var s := Called(made.(buffer := made.buffer + pieces), next);
      && n < |s.paragraphs| && s.paragraphs[n].text == (if pieces == [] then "..." else Join(pieces))
      && s.paragraphs[n].reference == reference
      && s.paragraphs[n].parent == (if c.stack == [] then -1 else c.stack[|c.stack| - 1])
  {
    hide Join;
    var made := Called(c, Begin(reference));
    assert made.buffer + pieces == pieces;
    assert "" + Join(pieces) == Join(pieces) && "" + "..." == "...";
  }

  lemma {:induction false} PiecesAreBuffered(c: Contents, pieces: seq<string>)
    requires c.stack != [] && forall x <- pieces :: x != ""
    ensures CalledAll(c, DataCalls(pieces)) == c.(buffer := c.buffer + pieces)
  {
    if pieces == [] {
      assert c.buffer + [] == c.buffer;
    } else {
      var front, last := pieces[..|pieces| - 1], pieces[|pieces| - 1];
      assert last in pieces && forall x :: x in front ==> x in pieces;
      assert DataCalls(pieces)[..|front|] == DataCalls(front);
      PiecesAreBuffered(c, front);
      assert c.buffer + front + [last] == c.buffer + pieces;
    }
  }

  function DataCalls(pieces: seq<string>): (r: seq<Call>)
    ensures |r| == |pieces| && forall i :: 0 <= i < |r| ==> r[i] == Data(pieces[i])
  {
    seq(|pieces|, i requires 0 <= i < |pieces| => Data(pieces[i]))
  }
}
