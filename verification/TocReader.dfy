/** Reading the table of contents of a CHM book (HHCReader.cpp) into the contents model (BookReader.cpp). */
module TocReaders {

  const NO_PARENT := -1

  /** A paragraph of the contents model: the number of its parent paragraph, its text and its reference. */
  datatype Paragraph = Paragraph(parent: int, text: string, reference: int)

  function Join(pieces: seq<string>): string
  {
    if pieces == [] then "" else Join(pieces[..|pieces| - 1]) + pieces[|pieces| - 1]
  }

  // ---------- the contents model ----------

  /** The part of the book reader that builds the contents. */
  datatype Contents = Contents(paragraphs: seq<Paragraph>, buffer: seq<string>, stack: seq<int>, lastIsEmpty: bool)

  /** Text goes to the paragraph made last. */
  function AddText(paragraphs: seq<Paragraph>, text: string): seq<Paragraph>
  {
    if paragraphs == [] then []
    else
      var n := |paragraphs| - 1;
      paragraphs[n := paragraphs[n].(text := paragraphs[n].text + text)]
  }

  /** Writes out the buffer, and dots for a paragraph that would have no text. */
  function Flushed(c: Contents): Contents
  {
    var d :=
      if c.buffer == [] then c
      else c.(paragraphs := AddText(c.paragraphs, Join(c.buffer)), buffer := [], lastIsEmpty := false);
    if d.lastIsEmpty then d.(paragraphs := AddText(d.paragraphs, "...")) else d
  }

  function Begun(c: Contents, reference: int): Contents
  {
    var d := Flushed(c);
    var parent := if d.stack == [] then NO_PARENT else d.stack[|d.stack| - 1];
    d.(paragraphs := d.paragraphs + [Paragraph(parent, "", reference)],
       stack := d.stack + [|d.paragraphs|], lastIsEmpty := true)
  }

  function Ended(c: Contents): Contents
  {
    if c.stack == [] then c
    else
      var d := Flushed(c);
      d.(stack := d.stack[..|d.stack| - 1], lastIsEmpty := false)
  }

  class BookReader {
    var paragraphs: seq<Paragraph>
    var contentsBuffer: seq<string>
    var tocStack: seq<int>
    var lastTOCParagraphIsEmpty: bool
    var contentsParagraphExists: bool
    /** Whether text goes to the main text, and how many paragraphs that has. */
    var mainTextIsCurrent: bool
    var mainParagraphs: int

    constructor ()
      ensures Model() == Contents([], [], [], false) && !mainTextIsCurrent && mainParagraphs == 0
    {
      paragraphs, contentsBuffer, tocStack := [], [], [];
      lastTOCParagraphIsEmpty, contentsParagraphExists := false, false;
      mainTextIsCurrent, mainParagraphs := false, 0;
    }

    function Model(): Contents
      reads this
    {
      Contents(paragraphs, contentsBuffer, tocStack, lastTOCParagraphIsEmpty)
    }

    method BeginContentsParagraph(referenceNumber: int)
      modifies this
      ensures mainTextIsCurrent == old(mainTextIsCurrent) && mainParagraphs == old(mainParagraphs)
      ensures Model() == if !mainTextIsCurrent then old(Model())
                            else Begun(old(Model()), if referenceNumber == -1 then mainParagraphs else referenceNumber)
    {
      if mainTextIsCurrent {
        var reference := if referenceNumber == -1 then mainParagraphs else referenceNumber;
        var peek := if tocStack == [] then NO_PARENT else tocStack[|tocStack| - 1];
        if contentsBuffer != [] {
          paragraphs := AddText(paragraphs, Join(contentsBuffer));
          contentsBuffer := [];
          lastTOCParagraphIsEmpty := false;
        }
        if lastTOCParagraphIsEmpty {
          paragraphs := AddText(paragraphs, "...");
        }
        tocStack := tocStack + [|paragraphs|];
        paragraphs := paragraphs + [Paragraph(peek, "", reference)];
        lastTOCParagraphIsEmpty := true;
        contentsParagraphExists := true;
      }
    }

    method EndContentsParagraph()
      modifies this
      ensures mainTextIsCurrent == old(mainTextIsCurrent) && mainParagraphs == old(mainParagraphs)
      ensures Model() == Ended(old(Model())) && !contentsParagraphExists
    {
      if tocStack != [] {
        if contentsBuffer != [] {
          paragraphs := AddText(paragraphs, Join(contentsBuffer));
          contentsBuffer := [];
          lastTOCParagraphIsEmpty := false;
        }
        if lastTOCParagraphIsEmpty {
          paragraphs := AddText(paragraphs, "...");
          lastTOCParagraphIsEmpty := false;
        }
        tocStack := tocStack[..|tocStack| - 1];
      }
      contentsParagraphExists := false;
    }

    method AddContentsData(data: string)
      modifies this
      ensures mainTextIsCurrent == old(mainTextIsCurrent) && mainParagraphs == old(mainParagraphs)
      ensures Model() == if data == "" || tocStack == [] then old(Model())
                            else old(Model()).(buffer := old(contentsBuffer) + [data])
    {
      if data != "" && tocStack != [] {
        contentsBuffer := contentsBuffer + [data];
      }
    }

    method SetReference(contentsParagraphNumber: nat, referenceNumber: int)
      modifies this
      ensures mainTextIsCurrent == old(mainTextIsCurrent) && mainParagraphs == old(mainParagraphs)
      ensures Model() ==
              old(Model()).(paragraphs := Referred(old(paragraphs), contentsParagraphNumber, referenceNumber))
    {
      if contentsParagraphNumber >= |paragraphs| {
        return;
      }
      var paragraph := paragraphs[contentsParagraphNumber].(reference := referenceNumber);
      paragraphs := paragraphs[contentsParagraphNumber := paragraph];
    }
  }

  function Referred(paragraphs: seq<Paragraph>, n: nat, reference: int): seq<Paragraph>
  {
    if n >= |paragraphs| then paragraphs else paragraphs[n := paragraphs[n].(reference := reference)]
  }

  // ---------- the tag handler ----------

  datatype HtmlTag = HtmlTag(name: string, start: bool, attributes: seq<(string, string)>)

  /** What the reader is given from outside: references in their full form, lower case, and the paragraphs that
      references lead to. */
  datatype Outside = Outside(fullReference: string -> string, lower: string -> string, target: string -> int)

  datatype Reader = Reader(
    isFirstChild: bool,
    text: string,
    reference: string,
    references: seq<string>,
    contents: Contents)

  /** The last value of an attribute. */
  function AttributeOf(attributes: seq<(string, string)>, name: string): string
  {
    if attributes == [] then ""
    else
      var last := attributes[|attributes| - 1];
      if last.0 == name then last.1 else AttributeOf(attributes[..|attributes| - 1], name)
  }

  /** The end of an entry that has a text or a reference: the entry before it, if it is still open, is closed first. */
  function EntryEnds(r: Reader, outside: Outside, mainParagraphs: int): Reader
  {
    if r.text == "" && r.reference == "" then r
    else
      var c := Begun(if r.isFirstChild then r.contents else Ended(r.contents), mainParagraphs);
      var text := if r.text == "" then "..." else r.text;
      r.(isFirstChild := false, text := text, references := r.references + [outside.lower(r.reference)],
         contents := c.(buffer := c.buffer + [text]))
  }

  function Handled(r: Reader, tag: HtmlTag, outside: Outside, mainParagraphs: int): Reader
  {
    if tag.start then
      if tag.name == "UL" then r.(isFirstChild := true)
      else if tag.name == "OBJECT" then r.(text := "", reference := "")
      else if tag.name == "PARAM" then
        var name, value := AttributeOf(tag.attributes, "NAME"), AttributeOf(tag.attributes, "VALUE");
        if name == "Name" then r.(text := value)
        else if name == "Local" then r.(reference := outside.fullReference(value))
        else r
      else r
    else if tag.name == "UL" then r.(contents := Ended(r.contents))
    else if tag.name == "OBJECT" then EntryEnds(r, outside, mainParagraphs)
    else r
  }

  function HandledAll(r: Reader, tags: seq<HtmlTag>, outside: Outside, mainParagraphs: int): Reader
  {
    if tags == [] then r
    else Handled(HandledAll(r, tags[..|tags| - 1], outside, mainParagraphs), tags[|tags| - 1], outside, mainParagraphs)
  }

  function AllReferred(paragraphs: seq<Paragraph>, references: seq<string>, target: string -> int): seq<Paragraph>
  {
    if references == [] then paragraphs
    else
      var n := |references| - 1;
      Referred(AllReferred(paragraphs, references[..n], target), n, target(references[n]))
  }

  class HHCReader {
    const outside: Outside
    const book: BookReader
    var isFirstChild: bool
    var text: string
    var reference: string
    var referenceVector: seq<string>

    /** The flag for first children outlives its reader, so it starts with any value. */
    constructor (outside: Outside, isFirstChild: bool)
      ensures State() == Reader(isFirstChild, "", "", [], Contents([], [], [], false)) && this.outside == outside
      ensures fresh(book) && !book.mainTextIsCurrent && book.mainParagraphs == 0
    {
      this.outside, this.isFirstChild := outside, isFirstChild;
      text, reference, referenceVector := "", "", [];
      book := new BookReader();
    }

    function State(): Reader
      reads this, book
    {
      Reader(isFirstChild, text, reference, referenceVector, book.Model())
    }

    method StartDocumentHandler()
      modifies book
      ensures State() == old(State()) && book.mainTextIsCurrent && book.mainParagraphs == old(book.mainParagraphs)
    {
      book.mainTextIsCurrent := true;
    }

    method TagHandler(tag: HtmlTag)
      requires book.mainTextIsCurrent
      modifies this, book
      ensures book.mainTextIsCurrent && book.mainParagraphs == old(book.mainParagraphs)
      ensures State() == Handled(old(State()), tag, outside, book.mainParagraphs)
    {
      if tag.start {
        if tag.name == "UL" {
          isFirstChild := true;
        } else if tag.name == "LI" {
        } else if tag.name == "OBJECT" {
          text, reference := "", "";
        } else if tag.name == "PARAM" {
          var name, value := "", "";
          for i := 0 to |tag.attributes|
            invariant name == AttributeOf(tag.attributes[..i], "NAME")
            invariant value == AttributeOf(tag.attributes[..i], "VALUE")
          {
            assert tag.attributes[..i + 1][..i] == tag.attributes[..i];
            if tag.attributes[i].0 == "NAME" {
              name := tag.attributes[i].1;
            } else if tag.attributes[i].0 == "VALUE" {
              value := tag.attributes[i].1;
            }
          }
          assert tag.attributes[..|tag.attributes|] == tag.attributes;
          if name == "Name" {
            text := value;
          } else if name == "Local" {
            reference := outside.fullReference(value);
          }
        }
      } else {
        if tag.name == "UL" {
          book.EndContentsParagraph();
        } else if tag.name == "OBJECT" {
          if text != "" || reference != "" {
            if !isFirstChild {
              book.EndContentsParagraph();
            } else {
              isFirstChild := false;
            }
            book.BeginContentsParagraph(-1);
            if text == "" {
              text := "...";
            }
            book.AddContentsData(text);
            referenceVector := referenceVector + [outside.lower(reference)];
          }
        }
      }
    }

    /** All tags of a document, one after the other. */
    method ReadDocument(tags: seq<HtmlTag>)
      modifies this, book
      ensures book.mainTextIsCurrent && book.mainParagraphs == old(book.mainParagraphs)
      ensures State() == HandledAll(old(State()), tags, outside, book.mainParagraphs)
    {
      StartDocumentHandler();
      for i := 0 to |tags|
        invariant book.mainTextIsCurrent && book.mainParagraphs == old(book.mainParagraphs)
        invariant State() == HandledAll(old(State()), tags[..i], outside, book.mainParagraphs)
      {
        assert tags[..i + 1][..i] == tags[..i];
        TagHandler(tags[i]);
      }
      assert tags[..|tags|] == tags;
    }

    method SetReferences()
      modifies book
      ensures book.paragraphs == AllReferred(old(book.paragraphs), referenceVector, outside.target)
    {
      for i := 0 to |referenceVector|
        invariant book.paragraphs == AllReferred(old(book.paragraphs), referenceVector[..i], outside.target)
      {
        assert referenceVector[..i + 1][..i] == referenceVector[..i];
        book.SetReference(i, outside.target(referenceVector[i]));
      }
      assert referenceVector[..|referenceVector|] == referenceVector;
    }
  }
}
