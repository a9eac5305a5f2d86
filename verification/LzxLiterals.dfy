/** A frame written bit by bit, as the format lays it down: one block of literals after a reset. */
module LzxLiterals {
  import opened Basics
  import opened Bits
  import opened BitReading
  import opened HuffmanCodes
  import opened CodeLengths
  import opened Offsets
  import opened Lzx
  import opened LzxEncoder
  import opened LzxRoundTrip
  import opened LzxIntervals
  import opened LzxEncodable
  import opened LzxDecompressors

  /** Bytes sent as they are. */
  function Literals(bytes: seq<Byte>): (tokens: seq<Token>)
    ensures |tokens| == |bytes| && forall i :: 0 <= i < |bytes| ==> tokens[i] == Token.Byte(bytes[i])
  {
    if bytes == [] then [] else [Token.Byte(bytes[0])] + Literals(bytes[1..])
  }

  lemma {:induction false} LiteralsExpand(out: seq<Byte>, bytes: seq<Byte>)
    ensures AllInReach(|out|, Literals(bytes)) && Expand(out, Literals(bytes)) == out + bytes
    ensures Size(Literals(bytes)) == |bytes|
    decreases bytes
  {
    hide AllInReach, Expand;
    NoExpansion(out);
    if bytes == [] {
      assert out + bytes == out;
    } else {
      var first, rest := Token.Byte(bytes[0]), Literals(bytes[1..]);
      assert Literals(bytes) == [first] + rest;
      hide Literals;
      LiteralsExpand(out + [bytes[0]], bytes[1..]);
      ExpandFirst(out, first, rest);
      assert out + [bytes[0]] + bytes[1..] == out + bytes;
    }
  }

  lemma ExpandFirst(out: seq<Byte>, first: Token, rest: seq<Token>)
    requires InReach(|out|, first) && AllInReach(|ExpandToken(out, first)|, rest)
    ensures AllInReach(|out|, [first] + rest) && Size([first] + rest) == TokenSize(first) + Size(rest)
    ensures Expand(out, [first] + rest) == Expand(ExpandToken(out, first), rest)
  {
    hide ExpandToken, InReach;
    assert ([first] + rest)[1..] == rest;
  }

  /** The code lengths of the block's two trees, and a pre-tree they can be sent with; and for a block with aligned
      offsets those of a third one. */
  datatype Plain = Plain(aligned: Option<seq<Byte>>, pre: seq<Byte>, main: seq<Byte>, length: seq<Byte>)

  predicate ThirdTreeOk(aligned: seq<Byte>)
  {
    |aligned| == 8 && Usable(aligned) && forall i :: 0 <= i < 8 ==> aligned[i] < 8
  }

  /** Fits a window of size 2^w, and every byte of the data has a code. */
  predicate PlainOk(p: Plain, w: nat, data: seq<Byte>)
  {
    && FirstPreOk(p.pre) && AllUpTo16(p.main) && AllUpTo16(p.length) && Usable(p.main) && Usable(p.length)
    && |p.main| == 256 + 8 * SlotNumber(w) && |p.length| == 249
    && (p.aligned.Some? ==> ThirdTreeOk(p.aligned.value))
    && forall i :: 0 <= i < |data| ==> HasCode(p.main, data[i])
  }

  function Codes(main: seq<Byte>, data: seq<Byte>): seq<bool>
    requires forall i :: 0 <= i < |data| ==> HasCode(main, data[i])
  {
    if data == [] then []
    else
      assert HasCode(main, data[0]);
      Code(main, data[0]) + Codes(main, data[1..])
  }

  function TreeBits(pre: seq<Byte>, lengths: seq<Byte>): seq<bool>
    requires FirstPreOk(pre) && AllUpTo16(lengths)
  {
    FixedBits(pre, 4) + FirstBits(pre, lengths)
  }

  function KindOf(p: Plain): nat { if p.aligned.Some? then 2 else 1 }

  /** The trees in the order in which they are sent. */
  function TreesBits(p: Plain): seq<bool>
    requires FirstPreOk(p.pre) && AllUpTo16(p.main) && AllUpTo16(p.length) && |p.main| >= 256
  {
    (if p.aligned.Some? then FixedBits(p.aligned.value, 3) else []) +
    (TreeBits(p.pre, p.main[..256]) + (TreeBits(p.pre, p.main[256..]) + TreeBits(p.pre, p.length)))
  }

  /** No file size; a block of kind 1 or 2 with its size; the trees; the codes of the bytes. */
  function PlainBits(p: Plain, w: nat, data: seq<Byte>): seq<bool>
    requires PlainOk(p, w, data)
  {
    [false] + (BitsOf(KindOf(p), 3) + (BitsOf(|data|, 24) + TreesBits(p) + Codes(p.main, data)))
  }

  /** There are such trees for any data. */
  lemma SomePlain(w: nat, data: seq<Byte>) returns (p: Plain)
    requires 15 <= w <= 21
    ensures PlainOk(p, w, data)
  {
    hide Usable, SlotNumber;
    SlotsCoverWindow(w);
    p := Plain(None, Same(5, 20), Same(10, 256 + 8 * SlotNumber(w)), Same(8, 249));
    assert Pow2(5) == 32 && Pow2(10) == 1024 && Pow2(8) == 256;
    FlatUsable(p.pre, 5);
    FlatUsable(p.main, 10);
    FlatUsable(p.length, 8);
  }

  // ---------- what the encoder makes of it ----------

  lemma {:induction false} LiteralsOk(kind: nat, t: Trees, recent: Recent, available: nat, data: seq<Byte>)
    requires forall i :: 0 <= i < |data| ==> HasCode(t.main, data[i])
    ensures TokensOk(kind, t, recent, available, Literals(data))
    ensures TokensBits(kind, t, recent, available, Literals(data)) == Codes(t.main, data)
    decreases data
  {
    hide Code;
    if data != [] {
      var first := Token.Byte(data[0]);
      assert Literals(data)[1..] == Literals(data[1..]);
      LiteralsOk(kind, t, Shift(recent, first), available + 1, data[1..]);
    }
  }

  /** The plan says what it is to say: these lengths behind those, in these bits. */
  ghost predicate Sends(plan: Plan, pre: seq<Byte>, lengths: seq<Byte>, values: seq<Byte>)
  {
    && FirstPreOk(pre) && AllUpTo16(values)
    && PlanOk(plan, lengths, |lengths|, |values|)
    && Planned(plan, lengths, |lengths|, |values|) == lengths + values
    && PlanBits(plan, lengths, |lengths|, |values|) == TreeBits(pre, values)
  }

  lemma SendingPlan(pre: seq<Byte>, lengths: seq<Byte>, values: seq<Byte>) returns (plan: Plan)
    requires FirstPreOk(pre) && AllUpTo16(values)
    ensures Sends(plan, pre, lengths, values)
  {
    hide Usable, PlanOk, PlanBits, FixedBits, FirstBits, FirstPreOk, Splice, Extend;
    plan := FirstPlan(pre, lengths, values);
  }

  function ThirdTree(p: Plain): seq<Byte> { if p.aligned.Some? then p.aligned.value else [] }

  /** The block's header. */
  lemma PlainHeader(p: Plain, w: nat, data: seq<Byte>) returns (h: Header)
    requires 15 <= w <= 21 && PlainOk(p, w, data) && |data| <= Pow2(w)
    ensures h.kind == KindOf(p) && h.size == |data|
    ensures HeaderOk(SlotNumber(w), Trees([], [], []), h)
    ensures TreesAfter(SlotNumber(w), Trees([], [], []), h) == Trees(p.main, p.length, ThirdTree(p))
    ensures HeaderBits(SlotNumber(w), Trees([], [], []), h) ==
            BitsOf(KindOf(p), 3) + (BitsOf(|data|, 24) + TreesBits(p))
  {
    hide Usable, SlotNumber, FirstPreOk, Sends, TreeBits, BitsOf;
    var low := SendingPlan(p.pre, [], p.main[..256]);
    var high := SendingPlan(p.pre, p.main[..256], p.main[256..]);
    var length := SendingPlan(p.pre, [], p.length);
    Pow2Monotone(w, 21);
    SmallPow2s();
    hide Pow2;
    h := Header(KindOf(p), |data|, ThirdTree(p), low, high, length);
    PlainHeaderOk(p, SlotNumber(w), h);
    PlainHeaderBits(p, SlotNumber(w), h);
  }

  lemma PlainHeaderOk(p: Plain, slots: nat, h: Header)
    requires FirstPreOk(p.pre) && AllUpTo16(p.main) && AllUpTo16(p.length) && Usable(p.main) && Usable(p.length)
    requires |p.main| == 256 + 8 * slots && |p.length| == 249 && (p.aligned.Some? ==> ThirdTreeOk(p.aligned.value))
    requires h.kind == KindOf(p) && h.size < Pow2(24) && h.aligned == ThirdTree(p)
    requires Sends(h.low, p.pre, [], p.main[..256]) && Sends(h.high, p.pre, p.main[..256], p.main[256..])
    requires Sends(h.length, p.pre, [], p.length)
    ensures HeaderOk(slots, Trees([], [], []), h)
    ensures TreesAfter(slots, Trees([], [], []), h) == Trees(p.main, p.length, ThirdTree(p))
  {
    hide Usable, PlanOk, PlanBits, Planned, TreeBits, FirstPreOk, AllUpTo16, Pow2;
    assert p.main[..256] + p.main[256..] == p.main && [] + p.main[..256] == p.main[..256] && [] + p.length == p.length;
  }

  lemma PlainHeaderBits(p: Plain, slots: nat, h: Header)
    requires FirstPreOk(p.pre) && AllUpTo16(p.main) && AllUpTo16(p.length)
    requires |p.main| == 256 + 8 * slots && |p.length| == 249
    requires h.kind == KindOf(p) && h.aligned == ThirdTree(p) && HeaderOk(slots, Trees([], [], []), h)
    requires Sends(h.low, p.pre, [], p.main[..256]) && Sends(h.high, p.pre, p.main[..256], p.main[256..])
    requires Sends(h.length, p.pre, [], p.length)
    ensures HeaderBits(slots, Trees([], [], []), h) == BitsOf(KindOf(p), 3) + (BitsOf(h.size, 24) + TreesBits(p))
  {
    hide Usable, PlanOk, PlanBits, Planned, TreeBits, FirstPreOk, AllUpTo16, Pow2, BitsOf, FixedBits, HeaderOk;
    assert [] + p.main[..256] == p.main[..256] && [] + p.length == p.length;
  }

  lemma SmallPow2s()
    ensures Pow2(21) < Pow2(24)
  {
    Pow2Monotone(21, 23);
    assert Pow2(24) == 2 * Pow2(23);
  }

  lemma PlainFrame(p: Plain, w: nat, data: seq<Byte>) returns (frame: Frame)
    requires 15 <= w <= 21 && PlainOk(p, w, data) && 0 < |data| <= Pow2(w)
    ensures IntervalOk(FreshEnc(SlotNumber(w)), [frame], Pow2(w)) && frame.size == |data|
    ensures FramesTokens([frame]) == Literals(data)
    ensures FrameBits(true, FreshEnc(SlotNumber(w)), frame) == PlainBits(p, w, data)
  {
    hide HeaderOk, HeaderBits, TreesAfter, SlotNumber, Literals, Codes, Size, Expand, TokensOk, TokensBits, Pow2,
      Usable, TreesBits, PlainBits, PieceBits, FrameBits, PieceOk, ThirdTree, FirstPreOk, AllUpTo16, AllInReach;
    var slots := SlotNumber(w);
    var h := PlainHeader(p, w, data);
    LiteralsOk(KindOf(p), Trees(p.main, p.length, ThirdTree(p)), Recent(1, 1, 1), 0, data);
    LiteralsExpand([], data);
    var piece := Opened(h, Literals(data));
    frame := Frame(None, [piece], |data|);
    PieceIsOk(slots, h, Literals(data));
    OneFrame(FreshEnc(slots), frame, piece, Pow2(w));
    PlainFrameBits(p, w, data, h, frame);
  }

  lemma PieceIsOk(slots: nat, h: Header, tokens: seq<Token>)
    requires HeaderOk(slots, Trees([], [], []), h) && h.size == Size(tokens)
    requires TokensOk(h.kind, TreesAfter(slots, Trees([], [], []), h), Recent(1, 1, 1), 0, tokens)
    ensures PieceOk(FreshEnc(slots), Opened(h, tokens), Size(tokens))
  {
    hide HeaderOk, TreesAfter, TokensOk, Size;
  }

  lemma PlainFrameBits(p: Plain, w: nat, data: seq<Byte>, h: Header, frame: Frame)
    requires PlainOk(p, w, data) && HeaderOk(SlotNumber(w), Trees([], [], []), h)
    requires h.kind == KindOf(p) && h.size == |data|
    requires TreesAfter(SlotNumber(w), Trees([], [], []), h) == Trees(p.main, p.length, ThirdTree(p))
    requires HeaderBits(SlotNumber(w), Trees([], [], []), h) ==
             BitsOf(KindOf(p), 3) + (BitsOf(|data|, 24) + TreesBits(p))
    requires frame == Frame(None, [Opened(h, Literals(data))], |data|)
    requires TokensOk(KindOf(p), Trees(p.main, p.length, ThirdTree(p)), Recent(1, 1, 1), 0, Literals(data))
    requires TokensBits(KindOf(p), Trees(p.main, p.length, ThirdTree(p)), Recent(1, 1, 1), 0, Literals(data)) ==
             Codes(p.main, data)
    requires FrameOk(FreshEnc(SlotNumber(w)), frame)
    ensures FrameBits(true, FreshEnc(SlotNumber(w)), frame) == PlainBits(p, w, data)
  {
    hide HeaderOk, HeaderBits, TreesAfter, SlotNumber, Literals, Codes, TokensOk, TokensBits, TreesBits, FirstPreOk,
      Usable, FrameOk, BitsOf, ThirdTree;
    var e, piece := FreshEnc(SlotNumber(w)), Opened(h, Literals(data));
    OnePieceBits(e, frame, piece);
    ZeroBit();
    assert PieceBits(e, piece) ==
           BitsOf(KindOf(p), 3) + (BitsOf(|data|, 24) + TreesBits(p)) + Codes(p.main, data);
    Regroup([false], BitsOf(KindOf(p), 3), BitsOf(|data|, 24), TreesBits(p), Codes(p.main, data));
  }

  lemma Regroup(a: seq<bool>, b: seq<bool>, c: seq<bool>, d: seq<bool>, e: seq<bool>)
    ensures a + ((b + (c + d)) + e) == a + (b + (c + d + e))
  {
  }

  lemma OnePieceBits(e: Enc, frame: Frame, piece: Piece)
    requires FrameOk(e, frame) && frame.pieces == [piece] && frame.fileSize == None
    ensures PieceStarts(e, piece) && TokensFit(Started(e, piece), piece.tokens)
    ensures FrameBits(true, e, frame) == BitsOf(0, 1) + PieceBits(e, piece)
  {
    hide TokensFit, PieceStarts, Started, PieceBits, BitsOf;
    assert frame.pieces[0] == piece && frame.pieces[1..] == [];
    assert FlagBits(frame) == BitsOf(0, 1);
    assert PiecesBits(e, frame.pieces, frame.size) ==
           PieceBits(e, piece) + PiecesBits(AfterPiece(e, piece), [], frame.size - Size(piece.tokens));
    assert PieceBits(e, piece) + [] == PieceBits(e, piece);
  }

  lemma ZeroBit()
    ensures BitsOf(0, 1) == [false]
  {
    assert BitsOf(0, 1) == BitsOf(0, 0) + [false];
  }

  // ---------- what the decompressor makes of it ----------

  /** After a reset, the frame decompresses to its bytes. */
  lemma PlainFrameDecodes(d: Decoder, p: Plain, w: nat, data: seq<Byte>)
    requires 15 <= w <= 21 && d.slots == SlotNumber(w) && |d.cursor.bytes| == Pow2(w)
    requires PlainOk(p, w, data) && 0 < |data| <= Pow2(w)
    ensures DecoderOk(ResetDecoder(d))
    ensures
      var r := Decompress(ResetDecoder(d), ToBytes(PlainBits(p, w, data)), |data|);
      r.Success? && r.value.out == data
  {
    hide PlainOk, PlainBits, SlotNumber, Pow2, IntervalOk, FrameBits, Decompress, FramesTokens, Literals, Expand,
      FrameOk, AllInReach, ToBytes;
    var frame := PlainFrame(p, w, data);
    RoundTrip(d, [frame]);
    LiteralsExpand([], data);
    assert [] + data == data;
    OneFrameIsPacked(d, frame);
  }

  lemma OneFrameIsPacked(d: Decoder, frame: Frame)
    requires IntervalOk(FreshEnc(d.slots), [frame], |d.cursor.bytes|) && DecoderOk(ResetDecoder(d))
    ensures FrameOk(FreshEnc(d.slots), frame)
    ensures
      var e := FreshEnc(d.slots);
      var r := DecompressAll(ResetDecoder(d), Packed(true, e, [frame], |d.cursor.bytes|));
      var s := Decompress(ResetDecoder(d), ToBytes(FrameBits(true, e, frame)), frame.size);
      (r.Success? <==> s.Success?) && (r.Success? ==> r.value.out == s.value.out)
  {
    hide FrameOk, Decompress, FrameBits, ToBytes, AfterFrame;
    var e := FreshEnc(d.slots);
    assert [frame][1..] == [] && Packed(false, AfterFrame(e, frame), [], |d.cursor.bytes|) == [];
    var packed := Packed(true, e, [frame], |d.cursor.bytes|);
    assert packed[0] == FrameData(ToBytes(FrameBits(true, e, frame)), frame.size) && packed[1..] == [];
    var s := Decompress(ResetDecoder(d), packed[0].data, packed[0].size);
    assert s.Success? ==> s.value.out + [] == s.value.out;
  }

  /** The same on the object, whatever it was used for before, and also after a failure. */
  method DecodePlainFrame(decompressor: LZXDecompressor, p: Plain, w: nat, data: seq<Byte>) returns (outcome: Outcome)
    requires decompressor.Separate() && decompressor.bitStream.Valid()
    requires 15 <= w <= 21 && decompressor.slotNumber == SlotNumber(w)
    requires decompressor.window.Length == Pow2(w) && PlainOk(p, w, data) && 0 < |data| <= Pow2(w)
    modifies decompressor, decompressor.window, decompressor.mainTree, decompressor.lengthTree,
      decompressor.alignedOffsetTree, decompressor.bitStream
    ensures outcome == Ok(data)
  {
    hide PlainOk, PlainBits, Pow2, SlotNumber, Decompress, ToBytes, Base;
    SlotsCoverWindow(w);
    PlainFrameDecodes(decompressor.Model(), p, w, data);
    decompressor.Reset();
    decompressor.ModelIsOk();
    outcome := decompressor.DecompressFrame(ToBytes(PlainBits(p, w, data)), |data|);
  }
}
