/** The decompressor object (LZXDecompressor.h, LZXDecompressor.cpp), without uncompressed blocks and E8. */
module LzxDecompressors {
  import opened Basics
  import opened Bits
  import opened BitReading
  import opened BitStreams
  import opened HuffmanCodes
  import opened HuffmanDecoders
  import opened CodeLengths
  import opened CodeLengthReader
  import opened Offsets
  import opened Lzx

  /** The position in the window and the remembered offsets; committed only when a whole frame succeeds. */
  datatype DecodingState = DecodingState(pos: nat, recent: Recent)

  /** How a frame ended. */
  datatype Outcome = Ok(out: seq<Byte>) | Stopped(problem: Problem)

  class LZXDecompressor {
    const slotNumber: nat
    const window: array<Byte>
    const mainTree: HuffmanDecoder
    const lengthTree: HuffmanDecoder
    const alignedOffsetTree: HuffmanDecoder
    const bitStream: BitStream

    var currentBlockType: nat
    var readHeader: bool
    var state: DecodingState
    var blockBytesLeft: nat

    ghost predicate Separate()
    {
      mainTree != lengthTree && mainTree != alignedOffsetTree && lengthTree != alignedOffsetTree
    }

    ghost predicate SizesOk()
      reads mainTree, lengthTree
    {
      && 8 * slotNumber + LITERALS <= 0xFFFF
      && |mainTree.codeLengths| <= LITERALS + 8 * slotNumber && |lengthTree.codeLengths| <= LENGTH_TREE_SIZE
    }

    ghost function CurrentTrees(): Trees
      reads mainTree, lengthTree, alignedOffsetTree
    {
      Trees(mainTree.codeLengths, lengthTree.codeLengths, alignedOffsetTree.codeLengths)
    }

    ghost predicate TreesBuilt(kind: nat)
      reads mainTree, lengthTree, alignedOffsetTree
    {
      && (kind == VERBATIM || kind == ALIGNED)
      && mainTree.Built() && lengthTree.Built()
      && (kind == ALIGNED ==> alignedOffsetTree.Built())
    }

    ghost function CursorAt(s: DecodingState): Cursor
      reads window
    {
      Cursor(window[..], s.pos, s.recent)
    }

    ghost function ModelAt(s: DecodingState): Decoder
      reads this, window, mainTree, lengthTree, alignedOffsetTree
    {
      Decoder(slotNumber, currentBlockType, readHeader, blockBytesLeft, CursorAt(s), CurrentTrees())
    }

    /** The value this object stands for. */
    ghost function Model(): Decoder
      reads this, window, mainTree, lengthTree, alignedOffsetTree
    {
      ModelAt(state)
    }

    /** Everything but the committed state is in order; `s` is where decoding stands. */
    ghost predicate WorkingAt(s: DecodingState)
      reads this, window, mainTree, lengthTree, alignedOffsetTree, bitStream
    {
      && Separate() && bitStream.Valid() && SizesOk() && s.pos <= window.Length
      && (blockBytesLeft > 0 ==> TreesBuilt(currentBlockType))
    }

    ghost predicate Valid()
      reads this, window, mainTree, lengthTree, alignedOffsetTree, bitStream
    {
      WorkingAt(state)
    }

    lemma ModelIsOk()
      requires Valid()
      ensures DecoderOk(Model())
    {
    }

    constructor (windowSizeIndex: nat)
      requires windowSizeIndex < 32
      ensures Valid() && slotNumber == SlotNumber(windowSizeIndex) && window.Length == Pow2(windowSizeIndex)
      ensures Model() == ResetDecoder(Model())
      ensures fresh(window) && fresh(mainTree) && fresh(lengthTree) && fresh(alignedOffsetTree) && fresh(bitStream)
    {
      slotNumber := SlotNumber(windowSizeIndex);
      window := new Byte[Pow2(windowSizeIndex)](_ => 0);
      mainTree := new HuffmanDecoder();
      lengthTree := new HuffmanDecoder();
      alignedOffsetTree := new HuffmanDecoder();
      bitStream := new BitStream();
      currentBlockType, readHeader, blockBytesLeft := 0, true, 0;
      state := DecodingState(0, Recent(1, 1, 1));
    }

    /** Forget everything that the next frame must not depend on. */
    method Reset()
      requires Separate() && bitStream.Valid() && 8 * slotNumber + LITERALS <= 0xFFFF
      modifies this, mainTree`codeLengths, lengthTree`codeLengths
      ensures Valid() && Model() == ResetDecoder(old(Model()))
    {
      currentBlockType, readHeader := 0, true;
      state := DecodingState(0, Recent(1, 1, 1));
      mainTree.Reset();
      lengthTree.Reset();
      blockBytesLeft := 0;
    }

    // ---------- one match ----------

    method DecodeFooter(kind: nat, footer: nat) returns (extra: nat)
      requires bitStream.Valid() && TreesBuilt(kind) && footer <= 17
      modifies bitStream
      ensures bitStream.Valid()
      ensures (extra, bitStream.Unread()) == ReadFooter(kind, CurrentTrees(), footer, old(bitStream.Unread()))
    {
      hide BitStream.Unread, DecodeSymbol, Usable;
      if kind == VERBATIM || footer == 1 || footer == 2 {
        extra := bitStream.Get(footer);
      } else if footer == 0 {
        extra := 0;
      } else if footer == 3 {
        extra := alignedOffsetTree.GetSymbol(bitStream);
      } else {
        extra := bitStream.Get(footer - 3);
        var low := alignedOffsetTree.GetSymbol(bitStream);
        extra := 8 * extra + low;
      }
    }

    method DecodeOffset(kind: nat, recent: Recent, slot: nat) returns (ok: bool, offset: nat, recent': Recent)
      requires bitStream.Valid() && TreesBuilt(kind)
      modifies bitStream
      ensures bitStream.Valid()
      ensures match ReadOffset(kind, CurrentTrees(), recent, slot, old(bitStream.Unread()))
              case None => !ok
              case Some(o) => ok && OffsetRead(offset, recent', bitStream.Unread()) == o
    {
      hide BitStream.Unread, ReadFooter, Usable;
      ok, offset, recent' := true, recent.r0, recent;
      match slot
      case 0 =>
      case 1 => offset, recent' := recent.r1, Recent(recent.r1, recent.r0, recent.r2);
      case 2 => offset, recent' := recent.r2, Recent(recent.r2, recent.r1, recent.r0);
      case _ =>
        if kind == VERBATIM && slot == 3 {
          offset := 1;
        } else if slot > LAST_SLOT {
          return false, 0, recent;
        } else {
          var extra := DecodeFooter(kind, FooterBits(slot));
          offset := JoinOffset(slot, extra);
        }
        recent' := Recent(offset, recent.r0, recent.r1);
    }

    method CopyMatch(pos: nat, src: nat, length: nat) returns (ok: bool)
      requires pos + length <= window.Length
      modifies window
      ensures match CopyBytes(old(window[..]), pos, src, length)
              case None => !ok
              case Some(bytes) => ok && window[..] == bytes
    {
      var s: nat := src;
      var i: nat := 0;
      while i < length
        invariant i <= length
        invariant CopyBytes(window[..], pos + i, s, length - i) == CopyBytes(old(window[..]), pos, src, length)
      {
        if s >= window.Length {
          s := s - window.Length;
          if s >= window.Length {
            return false;
          }
        }
        ghost var before := window[..];
        window[pos + i] := window[s];
        assert window[..] == before[pos + i := before[s]];
        s := s + 1;
        i := i + 1;
      }
      ok := true;
    }

    // ---------- one symbol ----------

    method DecodeSymbolAt(kind: nat, recent: Recent, left: nat) returns (ok: bool, symbol: Symbol)
      requires bitStream.Valid() && TreesBuilt(kind)
      modifies bitStream
      ensures bitStream.Valid()
      ensures match ReadSymbol(kind, CurrentTrees(), recent, old(bitStream.Unread()), left)
              case None => !ok
              case Some(s) => ok && SymbolRead(symbol, bitStream.Unread()) == s
    {
      hide BitStream.Unread, BitStream.Valid, HuffmanDecoder.Built, ReadOffset, DecodeSymbol, Usable, Table;
      symbol := Literal(0);
      var main := mainTree.GetSymbol(bitStream);
      if main < LITERALS {
        return true, Literal(main);
      }
      var length := main % 8;
      if length == 7 {
        var extra := lengthTree.GetSymbol(bitStream);
        length := length + extra;
      }
      length := length + 2;
      if length > left {
        return false, symbol;
      }
      var offset, recent';
      ok, offset, recent' := DecodeOffset(kind, recent, (main - LITERALS) / 8);
      symbol := Match(length, offset, recent');
    }

    method ApplySymbol(s: DecodingState, symbol: Symbol) returns (ok: bool, s': DecodingState)
      requires s.pos + SymbolSize(symbol) <= window.Length
      modifies window
      ensures match Apply(old(CursorAt(s)), symbol)
              case None => !ok
              case Some(c) => ok && CursorAt(s') == c
    {
      hide CopyBytes;
      s' := s;
      match symbol
      case Literal(value) =>
        window[s.pos] := value;
        ok, s' := true, s.(pos := s.pos + 1);
      case Match(length, offset, recent) =>
        if s.pos + window.Length < offset {
          return false, s;
        }
        ok := CopyMatch(s.pos, s.pos + window.Length - offset, length);
        s' := DecodingState(s.pos + length, recent);
    }

    method DecodeBytesAt(s: DecodingState, bytesToDecode: nat) returns (ok: bool, s': DecodingState)
      requires bitStream.Valid() && TreesBuilt(currentBlockType) && s.pos + bytesToDecode <= window.Length
      modifies window, bitStream
      ensures bitStream.Valid()
      ensures
        var before := old(Decoded(CursorAt(s), bitStream.Unread()));
        match DecodeBytes(currentBlockType, CurrentTrees(), before.cursor, before.rest, bytesToDecode)
        case None => !ok
        case Some(d) => ok && Decoded(CursorAt(s'), bitStream.Unread()) == d
    {
      hide BitStream.Unread, ReadSymbol, Apply, Usable, Table;
      s' := s;
      var n: nat := bytesToDecode;
      while n > 0
        invariant bitStream.Valid() && TreesBuilt(currentBlockType) && s'.pos + n <= window.Length
        invariant
          DecodeBytes(currentBlockType, CurrentTrees(), CursorAt(s'), bitStream.Unread(), n) ==
          DecodeBytes(
            currentBlockType, CurrentTrees(), old(CursorAt(s)), old(bitStream.Unread()), bytesToDecode)
      {
        var symbol;
        ok, symbol := DecodeSymbolAt(currentBlockType, s'.recent, n);
        if !ok {
          return;
        }
        ok, s' := ApplySymbol(s', symbol);
        if !ok {
          return;
        }
        n := n - SymbolSize(symbol);
      }
      ok := true;
    }

    // ---------- blocks ----------

    static function ProblemOf(status: Status): Problem
    {
      if status.Refused? then Malformed else LengthsOverrun
    }

    /** The three vectors of code lengths; the tables are built only when all three could be read. */
    method ReadAllLengths() returns (status: Status)
      requires Separate() && bitStream.Valid() && SizesOk()
      modifies bitStream, mainTree`codeLengths, lengthTree`codeLengths
      ensures bitStream.Valid()
      ensures status.Accepted? ==> SizesOk()
      ensures
        var l1 := ReadLengths(old(mainTree.codeLengths), 0, LITERALS, old(bitStream.Unread()));
        if !l1.Read? then !status.Accepted? && ProblemOf(status) == LengthsProblem(l1)
        else
          var l2 := ReadLengths(l1.lengths, LITERALS, 8 * slotNumber, l1.rest);
          if !l2.Read? then !status.Accepted? && ProblemOf(status) == LengthsProblem(l2)
          else
            var l3 := ReadLengths(old(lengthTree.codeLengths), 0, LENGTH_TREE_SIZE, l2.rest);
            if !l3.Read? then !status.Accepted? && ProblemOf(status) == LengthsProblem(l3)
            else
              && status.Accepted? && mainTree.codeLengths == l2.lengths
              && Read(lengthTree.codeLengths, bitStream.Unread()) == l3
    {
      hide BitStream.Unread, ReadLengths;
      status := ReadLengthsInto(bitStream, mainTree, 0, LITERALS);
      if status.Accepted? {
        status := ReadLengthsInto(bitStream, mainTree, LITERALS, 8 * slotNumber);
      }
      if status.Accepted? {
        status := ReadLengthsInto(bitStream, lengthTree, 0, LENGTH_TREE_SIZE);
      }
    }

    method ReadTreesNow() returns (problem: Option<Problem>)
      requires Separate() && bitStream.Valid() && SizesOk()
      modifies bitStream, mainTree, lengthTree
      ensures bitStream.Valid()
      ensures match ReadTrees(slotNumber, old(CurrentTrees()), old(bitStream.Unread()))
              case Failure(p) => problem == Some(p)
              case Success(t) =>
                && problem == None && TreesRead(CurrentTrees(), bitStream.Unread()) == t
                && mainTree.Built() && lengthTree.Built() && SizesOk()
    {
      hide BitStream.Unread, ReadLengths, Usable, Table, MaxLength;
      var status := ReadAllLengths();
      if !status.Accepted? {
        return Some(ProblemOf(status));
      }
      var ok := mainTree.BuildTable();
      if ok {
        ok := lengthTree.BuildTable();
      }
      problem := if ok then None else Some(Malformed);
    }

    method ReadAlignedNow(kind: nat) returns (ok: bool)
      requires Separate() && bitStream.Valid()
      modifies bitStream, alignedOffsetTree
      ensures bitStream.Valid()
      ensures match ReadAligned(kind, old(CurrentTrees()), old(bitStream.Unread()))
              case None => !ok
              case Some(t) =>
                && ok && TreesRead(CurrentTrees(), bitStream.Unread()) == t
                && (kind == ALIGNED ==> alignedOffsetTree.Built())
    {
      hide BitStream.Unread, ReadFixed, Usable, Table, MaxLength;
      ok := true;
      if kind == ALIGNED {
        ReadFixedLengths(bitStream, alignedOffsetTree, 3, ALIGNED_TREE_SIZE);
        ok := alignedOffsetTree.BuildTable();
      }
    }

    /** The header of a block: its kind, its size and its trees. */
    method StartBlockNow(ghost at: DecodingState) returns (problem: Option<Problem>)
      requires Separate() && bitStream.Valid() && SizesOk()
      modifies this`currentBlockType, this`blockBytesLeft, bitStream, mainTree, lengthTree, alignedOffsetTree
      ensures bitStream.Valid()
      ensures match StartBlock(old(ModelAt(at)), old(bitStream.Unread()))
              case Failure(p) => problem == Some(p)
              case Success(s) =>
                && problem == None && BlockStart(ModelAt(at), bitStream.Unread()) == s
                && TreesBuilt(currentBlockType) && SizesOk()
    {
      hide BitStream.Unread, ReadTrees, ReadAligned, GetVal, GetRest, Usable;
      currentBlockType := bitStream.Get(3);
      blockBytesLeft := bitStream.Get(24);
      if currentBlockType == UNCOMPRESSED {
        return Some(UncompressedBlock);
      }
      if currentBlockType != VERBATIM && currentBlockType != ALIGNED {
        return Some(Malformed);
      }
      var ok := ReadAlignedNow(currentBlockType);
      if !ok {
        return Some(Malformed);
      }
      problem := ReadTreesNow();
    }

    // ---------- frames ----------

    /** As much of the current block as fits: the window must have room for it. */
    method DecodePartNow(s: DecodingState, n: nat) returns (ok: bool, s': DecodingState)
      requires WorkingAt(s) && 0 < n <= blockBytesLeft
      modifies this`blockBytesLeft, window, bitStream
      ensures bitStream.Valid()
      ensures match DecodePart(old(ModelAt(s)), old(bitStream.Unread()), n)
              case Failure(p) => !ok && p == Malformed
              case Success(b) => ok && WorkingAt(s') && BlockStart(ModelAt(s'), bitStream.Unread()) == b
    {
      hide BitStream.Unread, DecodeBytes, Usable, Table;
      if s.pos + n > window.Length {
        return false, s;
      }
      ok, s' := DecodeBytesAt(s, n);
      if ok {
        blockBytesLeft := blockBytesLeft - n;
      }
    }

    method DecodeBlocksNow(s: DecodingState, outSize: nat) returns (problem: Option<Problem>, s': DecodingState)
      requires WorkingAt(s)
      modifies this`currentBlockType, this`blockBytesLeft, window, bitStream, mainTree, lengthTree, alignedOffsetTree
      ensures Separate() && bitStream.Valid()
      ensures match DecodeBlocks(old(ModelAt(s)), old(bitStream.Unread()), outSize)
              case Failure(p) => problem == Some(p)
              case Success(b) => problem == None && WorkingAt(s') && BlockStart(ModelAt(s'), bitStream.Unread()) == b
    {
      hide BitStream.Unread, BitStream.Valid, StartBlock, DecodePart, Usable, Table;
      s' := s;
      var bytesToWrite: nat := outSize;
      ghost var goal := DecodeBlocks(ModelAt(s), bitStream.Unread(), outSize);
      while bytesToWrite > 0
        invariant WorkingAt(s') && DecodeBlocks(ModelAt(s'), bitStream.Unread(), bytesToWrite) == goal
        decreases bytesToWrite, |bitStream.Unread()|
      {
        if blockBytesLeft == 0 {
          ghost var d, b := ModelAt(s'), bitStream.Unread();
          problem := StartBlockNow(s');
          if problem.Some? {
            return;
          }
          if blockBytesLeft == 0 {
            EmptyBlockConsumes(d, b);
          }
        }
        ghost var before, available, rest := bytesToWrite, blockBytesLeft, bitStream.Unread();
        while blockBytesLeft > 0 && bytesToWrite > 0
          invariant WorkingAt(s') && DecodeBlocks(ModelAt(s'), bitStream.Unread(), bytesToWrite) == goal
          invariant bytesToWrite <= before
          invariant bytesToWrite == before ==> blockBytesLeft == available && bitStream.Unread() == rest
          decreases bytesToWrite
        {
          var bytesToDecode := Min(blockBytesLeft, bytesToWrite);
          var ok;
          ok, s' := DecodePartNow(s', bytesToDecode);
          if !ok {
            return Some(Malformed), s';
          }
          bytesToWrite := bytesToWrite - bytesToDecode;
        }
      }
      problem := None;
    }

    /** Hand the stream a frame's data; the first frame after a reset has a header. */
    method OpenFrame(data: seq<Byte>)
      requires Valid()
      modifies this`readHeader, bitStream
      ensures Valid() && Model() == old(Model()).(header := false)
      ensures bitStream.Unread() == if old(readHeader) then SkipHeader(WordBits(data)) else WordBits(data)
    {
      hide BitStream.Unread, GetVal, GetRest, WordBits, Usable, Table;
      bitStream.SetData(data);
      if readHeader {
        var flag := bitStream.Get(1);
        if flag == 1 {
          var fileSize := bitStream.Get(32);  // handed to the E8 translation
        }
        readHeader := false;
      }
    }

    /** The bytes before the position; position 0 stands for the end of the window. */
    method LastBytes(s: DecodingState, n: nat) returns (out: seq<Byte>)
      requires n <= s.pos <= window.Length
      ensures out == CursorAt(s).bytes[s.pos - n..s.pos]
    {
      var end := if s.pos != 0 then s.pos else window.Length;
      out := window[end - n..end];
    }

    /** Decode one frame. The state is committed only on success; after a failure the caller must reset. */
    method DecompressFrame(data: seq<Byte>, outSize: nat) returns (outcome: Outcome)
      requires Valid()
      modifies this, window, bitStream, mainTree, lengthTree, alignedOffsetTree
      ensures Separate() && bitStream.Valid()
      ensures match Decompress(old(Model()), data, outSize)
              case Success(f) => Valid() && outcome == Ok(f.out) && Model() == f.decoder
              case Failure(p) => outcome == Stopped(p) && state == old(state)
    {
      hide BitStream.Unread, SkipHeader, WordBits, DecodeBlocks, TreesBuilt, TreesReady, SizesOk, CurrentTrees;
      OpenFrame(data);
      var problem, s := DecodeBlocksNow(state, outSize);
      if problem.Some? {
        return Stopped(problem.value);
      }
      var out := LastBytes(s, outSize);
      state := s;
      outcome := Ok(out);
    }
  }
}
