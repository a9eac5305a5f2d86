/** What every run of the decompressor keeps: remembered offsets in range, bytes already written, and,
    for data that reaches back only to written bytes, independence of everything before the reset. */
module LzxInvariants {
  import opened Bits
  import opened BitReading
  import opened HuffmanCodes
  import opened CodeLengths
  import opened Offsets
  import opened Lzx

  // ---------- the remembered offsets stay in range ----------

  predicate InRange(r: Recent, limit: int)
  {
    1 <= r.r0 <= limit && 1 <= r.r1 <= limit && 1 <= r.r2 <= limit
  }

  /** The tree sizes of a decompressor for a window of size 2^w. */
  predicate Sized(w: nat, t: Trees)
  {
    |t.main| <= LITERALS + 8 * SlotNumber(w) && |t.aligned| <= ALIGNED_TREE_SIZE
  }

  lemma FooterBound(kind: nat, t: Trees, footer: nat, b: seq<bool>)
    requires TreesReady(kind, t) && |t.aligned| <= ALIGNED_TREE_SIZE
    ensures ReadFooter(kind, t, footer, b).0 < Pow2(footer)
  {
    hide DecodeSymbol, Usable, GetVal, GetRest;
    GetBound(b, footer);
    if footer >= 3 {
      GetBound(b, footer - 3);
      assert Pow2(3) == 8;
      Pow2Add(3, footer - 3);
    }
  }

  lemma OffsetInRange(w: nat, kind: nat, t: Trees, recent: Recent, slot: nat, b: seq<bool>)
    requires 15 <= w <= 21 && TreesReady(kind, t) && |t.aligned| <= ALIGNED_TREE_SIZE
    requires InRange(recent, Pow2(w) - 3) && slot < SlotNumber(w)
    ensures
      var r := ReadOffset(kind, t, recent, slot, b);
      r.Some? && 1 <= r.value.offset <= Pow2(w) - 3 && InRange(r.value.recent, Pow2(w) - 3)
  {
    hide ReadFooter, Usable, Base, FooterBits, SlotNumber, Pow2;
    SlotsCoverWindow(w);
    if slot >= FIRST_SLOT {
      BaseEnds3();
      FooterBound(kind, t, FooterBits(slot), b);
      SlotRange(slot);
      BaseIncreasing(slot + 1, SlotNumber(w));
      BaseIncreasing(FIRST_SLOT + 1, SlotNumber(w));
    }
  }

  lemma BaseEnds3()
    ensures Base(FIRST_SLOT) == 3 && Base(FIRST_SLOT + 1) == 4
  {
  }

  lemma {:induction false} CopySucceeds(bytes: seq<Byte>, pos: nat, src: nat, n: nat)
    requires pos + n <= |bytes| && src < 2 * |bytes|
    ensures CopyBytes(bytes, pos, src, n).Some?
    decreases n
  {
    if n > 0 {
      var s := if src >= |bytes| then src - |bytes| else src;
      CopySucceeds(bytes[pos := bytes[s]], pos + 1, s + 1, n - 1);
    }
  }

  /** With offsets in range, neither check of the source index ever refuses a symbol. */
  lemma RangeChecksNeverFail(w: nat, kind: nat, t: Trees, c: Cursor, b: seq<bool>, left: nat)
    requires 15 <= w <= 21 && TreesReady(kind, t) && Sized(w, t)
    requires |c.bytes| == Pow2(w) && c.pos + left <= |c.bytes| && left > 0
    requires InRange(c.recent, Pow2(w) - 3) && ReadSymbol(kind, t, c.recent, b, left).Some?
    ensures
      var symbol := ReadSymbol(kind, t, c.recent, b, left).value.symbol;
      Apply(c, symbol).Some? && InRange(Apply(c, symbol).value.recent, Pow2(w) - 3)
  {
    hide DecodeSymbol, ReadMatchLength, ReadOffset, Usable, SlotNumber, Pow2;
    var (main, b1) := DecodeSymbol(t.main, b);
    if main >= LITERALS {
      var (length, b2) := ReadMatchLength(t, main, b1);
      var slot := (main - LITERALS) / 8;
      OffsetInRange(w, kind, t, c.recent, slot, b2);
      var offset := ReadOffset(kind, t, c.recent, slot, b2).value.offset;
      CopySucceeds(c.bytes, c.pos, c.pos + |c.bytes| - offset, length);
    }
  }

  lemma {:induction false} BytesKeepRange(w: nat, kind: nat, t: Trees, c: Cursor, b: seq<bool>, n: nat)
    requires 15 <= w <= 21 && TreesReady(kind, t) && Sized(w, t)
    requires |c.bytes| == Pow2(w) && c.pos + n <= |c.bytes| && InRange(c.recent, Pow2(w) - 3)
    ensures
      var r := DecodeBytes(kind, t, c, b, n);
      r.Some? ==> InRange(r.value.cursor.recent, Pow2(w) - 3)
    decreases n
  {
    hide TreesReady, Sized, InRange, ReadSymbol, Apply, Pow2;
    if n > 0 {
      var s := ReadSymbol(kind, t, c.recent, b, n);
      if s.Some? {
        RangeChecksNeverFail(w, kind, t, c, b, n);
        var c' := Apply(c, s.value.symbol).value;
        BytesKeepRange(w, kind, t, c', s.value.rest, n - SymbolSize(s.value.symbol));
      }
    }
  }

  /** The invariant of a decompressor for a window of size 2^w. */
  predicate KeepsRange(w: nat, d: Decoder)
  {
    && d.slots == SlotNumber(w) && |d.cursor.bytes| == Pow2(w)
    && Sized(w, d.trees) && InRange(d.cursor.recent, Pow2(w) - 3)
  }

  lemma StartKeepsRange(w: nat, d: Decoder, b: seq<bool>)
    requires KeepsRange(w, d)
    ensures var r := StartBlock(d, b); r.Success? ==> KeepsRange(w, r.value.decoder)
  {
    hide TreesReady, Usable, ReadLengths, ReadFixed, GetVal, GetRest, SlotNumber, Pow2;
  }

  lemma PartKeepsRange(w: nat, d: Decoder, b: seq<bool>, n: nat)
    requires 15 <= w <= 21 && KeepsRange(w, d) && DecoderOk(d) && 0 < n <= d.left
    ensures var r := DecodePart(d, b, n); r.Success? ==> KeepsRange(w, r.value.decoder)
  {
    hide Usable, DecodeBytes, SlotNumber, Pow2;
    if d.cursor.pos + n <= |d.cursor.bytes| {
      BytesKeepRange(w, d.kind, d.trees, d.cursor, b, n);
    }
  }

  lemma {:induction false} BlocksKeepRange(w: nat, d: Decoder, b: seq<bool>, n: nat)
    requires 15 <= w <= 21 && KeepsRange(w, d) && DecoderOk(d)
    ensures var r := DecodeBlocks(d, b, n); r.Success? ==> KeepsRange(w, r.value.decoder)
    decreases n, |b|, if d.left == 0 then 1 else 0
  {
    hide KeepsRange, StartBlock, DecodePart;
    if n > 0 && d.left == 0 {
      StartKeepsRange(w, d, b);
      if StartBlock(d, b).Success? {
        var s := StartBlock(d, b).value;
        if s.decoder.left == 0 {
          EmptyBlockConsumes(d, b);
        }
        BlocksKeepRange(w, s.decoder, s.rest, n);
      }
    } else if n > 0 {
      var m := Min(d.left, n);
      PartKeepsRange(w, d, b, m);
      if DecodePart(d, b, m).Success? {
        var p := DecodePart(d, b, m).value;
        BlocksKeepRange(w, p.decoder, p.rest, n - m);
      }
    }
  }

  /** Over any number of frames after a reset, whatever the data, the remembered offsets stay in [1, 2^w - 3]. */
  lemma {:induction false} EveryRunKeepsRange(w: nat, d: Decoder, frames: seq<FrameData>)
    requires 15 <= w <= 21 && KeepsRange(w, d) && DecoderOk(d)
    ensures var r := DecompressAll(d, frames); r.Success? ==> KeepsRange(w, r.value.decoder)
    decreases frames
  {
    hide DecodeBlocks, SkipHeader, WordBits;
    if frames != [] {
      var f := frames[0];
      var b := if d.header then SkipHeader(WordBits(f.data)) else WordBits(f.data);
      BlocksKeepRange(w, d.(header := false), b, f.size);
      var r := Decompress(d, f.data, f.size);
      if r.Success? {
        EveryRunKeepsRange(w, r.value.decoder, frames[1..]);
      }
    }
  }

  // ---------- what is refused ----------

  /** The next symbol is a match longer than what may still be written. */
  predicate TooLong(t: Trees, b: seq<bool>, left: nat)
    requires TreeReady(t.main) && TreeReady(t.length)
  {
    var (main, b1) := DecodeSymbol(t.main, b);
    main >= LITERALS && ReadMatchLength(t, main, b1).0 > left
  }

  /** With 249 length symbols the longest match is one of 257 bytes. */
  lemma LongestMatch(t: Trees, main: nat, b: seq<bool>)
    requires TreeReady(t.length) && |t.length| <= 249
    ensures 2 <= ReadMatchLength(t, main, b).0 <= 257
    ensures main % 8 == 7 && HasCode(t.length, 248) ==> ReadMatchLength(t, main, Code(t.length, 248) + b) == (257, b)
  {
    hide Usable, DecodeSymbol, Code;
    if main % 8 == 7 && HasCode(t.length, 248) {
      DecodeCode(t.length, 248, b);
    }
  }

  /** No symbol is refused but for its length: not for its slot, and not by either check of the source index. */
  predicate BytesAccepted(kind: nat, t: Trees, c: Cursor, b: seq<bool>, n: nat)
    requires TreesReady(kind, t) && c.pos + n <= |c.bytes|
    decreases n
  {
    if n == 0 then true
    else
      match ReadSymbol(kind, t, c.recent, b, n)
      case None => TooLong(t, b, n)
      case Some(s) =>
        match Apply(c, s.symbol)
        case None => false
        case Some(c') => BytesAccepted(kind, t, c', s.rest, n - SymbolSize(s.symbol))
  }

  predicate PartAccepted(d: Decoder, b: seq<bool>, n: nat)
    requires d.left > 0 ==> TreesReady(d.kind, d.trees)
    requires 0 < n <= d.left
  {
    d.cursor.pos + n > |d.cursor.bytes| || BytesAccepted(d.kind, d.trees, d.cursor, b, n)
  }

  ghost predicate BlocksAccepted(d: Decoder, b: seq<bool>, n: nat)
    requires DecoderOk(d)
    decreases n, |b|, if d.left == 0 then 1 else 0
  {
    if n == 0 then true
    else if d.left == 0 then
      match StartBlock(d, b)
      case Failure(_) => true
      case Success(s) =>
        if s.decoder.left == 0 then EmptyBlockConsumes(d, b); BlocksAccepted(s.decoder, s.rest, n)
        else BlocksAccepted(s.decoder, s.rest, n)
    else
      var m := Min(d.left, n);
      PartAccepted(d, b, m) &&
      match DecodePart(d, b, m)
      case Failure(_) => true
      case Success(p) => BlocksAccepted(p.decoder, p.rest, n - m)
  }

  ghost predicate FrameAccepted(d: Decoder, f: FrameData)
    requires DecoderOk(d)
  {
    var b := if d.header then SkipHeader(WordBits(f.data)) else WordBits(f.data);
    BlocksAccepted(d.(header := false), b, f.size)
  }

  /** In no frame of the run, the one it ends with included, is a symbol refused but for its length. */
  ghost predicate RunAccepted(d: Decoder, frames: seq<FrameData>)
    requires DecoderOk(d)
    decreases frames
  {
    frames != [] ==>
      && FrameAccepted(d, frames[0])
      && match Decompress(d, frames[0].data, frames[0].size)
         case Failure(_) => true
         case Success(f) => RunAccepted(f.decoder, frames[1..])
  }

  lemma RefusedForLength(w: nat, kind: nat, t: Trees, recent: Recent, b: seq<bool>, left: nat)
    requires 15 <= w <= 21 && TreesReady(kind, t) && Sized(w, t) && InRange(recent, Pow2(w) - 3)
    ensures ReadSymbol(kind, t, recent, b, left).None? <==> TooLong(t, b, left)
  {
    hide DecodeSymbol, ReadMatchLength, ReadOffset, Usable, SlotNumber, Pow2;
    var (main, b1) := DecodeSymbol(t.main, b);
    if main >= LITERALS {
      var (length, b2) := ReadMatchLength(t, main, b1);
      OffsetInRange(w, kind, t, recent, (main - LITERALS) / 8, b2);
    }
  }

  lemma {:induction false} BytesAreAccepted(w: nat, kind: nat, t: Trees, c: Cursor, b: seq<bool>, n: nat)
    requires 15 <= w <= 21 && TreesReady(kind, t) && Sized(w, t)
    requires |c.bytes| == Pow2(w) && c.pos + n <= |c.bytes| && InRange(c.recent, Pow2(w) - 3)
    ensures BytesAccepted(kind, t, c, b, n)
    decreases n
  {
    hide Sized, InRange, ReadSymbol, Apply, Pow2, TooLong, Usable;
    if n > 0 {
      var s := ReadSymbol(kind, t, c.recent, b, n);
      RefusedForLength(w, kind, t, c.recent, b, n);
      if s.Some? {
        RangeChecksNeverFail(w, kind, t, c, b, n);
        var c' := Apply(c, s.value.symbol).value;
        BytesAreAccepted(w, kind, t, c', s.value.rest, n - SymbolSize(s.value.symbol));
      }
    }
  }

  lemma PartIsAccepted(w: nat, d: Decoder, b: seq<bool>, n: nat)
    requires 15 <= w <= 21 && KeepsRange(w, d) && DecoderOk(d) && 0 < n <= d.left
    ensures PartAccepted(d, b, n)
  {
    hide Usable, BytesAccepted, SlotNumber, Pow2;
    if d.cursor.pos + n <= |d.cursor.bytes| {
      BytesAreAccepted(w, d.kind, d.trees, d.cursor, b, n);
    }
  }

  lemma {:induction false} BlocksAreAccepted(w: nat, d: Decoder, b: seq<bool>, n: nat)
    requires 15 <= w <= 21 && KeepsRange(w, d) && DecoderOk(d)
    ensures BlocksAccepted(d, b, n)
    decreases n, |b|, if d.left == 0 then 1 else 0
  {
    hide KeepsRange, StartBlock, DecodePart, PartAccepted;
    if n > 0 && d.left == 0 {
      StartKeepsRange(w, d, b);
      if StartBlock(d, b).Success? {
        var s := StartBlock(d, b).value;
        if s.decoder.left == 0 {
          EmptyBlockConsumes(d, b);
        }
        BlocksAreAccepted(w, s.decoder, s.rest, n);
      }
    } else if n > 0 {
      var m := Min(d.left, n);
      PartIsAccepted(w, d, b, m);
      PartKeepsRange(w, d, b, m);
      if DecodePart(d, b, m).Success? {
        var p := DecodePart(d, b, m).value;
        BlocksAreAccepted(w, p.decoder, p.rest, n - m);
      }
    }
  }

  /** Over any number of frames, whatever the data and also in a frame that fails, the range checks refuse nothing. */
  lemma {:induction false} EveryRunIsAccepted(w: nat, d: Decoder, frames: seq<FrameData>)
    requires 15 <= w <= 21 && KeepsRange(w, d) && DecoderOk(d)
    ensures RunAccepted(d, frames)
    decreases frames
  {
    hide DecodeBlocks, BlocksAccepted, SkipHeader, WordBits;
    if frames != [] {
      var f := frames[0];
      var b := if d.header then SkipHeader(WordBits(f.data)) else WordBits(f.data);
      BlocksAreAccepted(w, d.(header := false), b, f.size);
      BlocksKeepRange(w, d.(header := false), b, f.size);
      var r := Decompress(d, f.data, f.size);
      if r.Success? {
        EveryRunIsAccepted(w, r.value.decoder, frames[1..]);
      }
    }
  }

  lemma ResetIsInRange(w: nat, d: Decoder)
    requires 15 <= w <= 21 && d.slots == SlotNumber(w) && |d.cursor.bytes| == Pow2(w)
    requires |d.trees.aligned| <= ALIGNED_TREE_SIZE
    ensures KeepsRange(w, ResetDecoder(d))
  {
    Pow2Monotone(2, w);
    assert Pow2(2) == 4;
  }
}
