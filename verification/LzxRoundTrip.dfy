/** Blocks, frames and whole reset intervals: decompressing what an encoder wrote gives the LZ77 expansion. */
module LzxRoundTrip {
  import opened Basics
  import opened Bits
  import opened BitReading
  import opened HuffmanCodes
  import opened CodeLengths
  import opened Lzx
  import opened LzxReach
  import opened LzxEncoder

  // ---------- block headers ----------

  /** A block's kind and size, and how its code lengths are sent. */
  datatype Header = Header(kind: nat, size: nat, aligned: seq<Byte>, low: Plan, high: Plan, length: Plan)

  /** The vector after a plan has been carried out on it. */
  function Planned(plan: Plan, lengths: seq<Byte>, from: nat, size: nat): seq<Byte>
    requires PlanOk(plan, lengths, from, size)
  {
    var all := Extend(lengths, from + size);
    ItemsSize(plan.pre, all, from, from + size, plan.items);
    Splice(all, from, Values(plan.items))
  }

  predicate AlignedOk(h: Header)
  {
    h.kind == ALIGNED ==>
      |h.aligned| == ALIGNED_TREE_SIZE && Usable(h.aligned) && forall i :: 0 <= i < |h.aligned| ==> h.aligned[i] < 8
  }

  predicate HeaderOk(slots: nat, t: Trees, h: Header)
  {
    && (h.kind == VERBATIM || h.kind == ALIGNED) && h.size < Pow2(24) && AlignedOk(h)
    && PlanOk(h.low, t.main, 0, LITERALS)
    && PlanOk(h.high, Planned(h.low, t.main, 0, LITERALS), LITERALS, 8 * slots)
    && PlanOk(h.length, t.length, 0, LENGTH_TREE_SIZE)
    && Usable(TreesAfter(slots, t, h).main) && Usable(TreesAfter(slots, t, h).length)
  }

  function TreesAfter(slots: nat, t: Trees, h: Header): Trees
    requires PlanOk(h.low, t.main, 0, LITERALS)
    requires PlanOk(h.high, Planned(h.low, t.main, 0, LITERALS), LITERALS, 8 * slots)
    requires PlanOk(h.length, t.length, 0, LENGTH_TREE_SIZE)
  {
    Trees(
      Planned(h.high, Planned(h.low, t.main, 0, LITERALS), LITERALS, 8 * slots),
      Planned(h.length, t.length, 0, LENGTH_TREE_SIZE),
      if h.kind == ALIGNED then h.aligned else t.aligned)
  }

  function AlignedBits(h: Header): seq<bool>
  {
    if h.kind == ALIGNED then FixedBits(h.aligned, 3) else []
  }

  function LowBits(t: Trees, h: Header): seq<bool>
    requires PlanOk(h.low, t.main, 0, LITERALS)
  {
    PlanBits(h.low, t.main, 0, LITERALS)
  }

  function HighBits(slots: nat, t: Trees, h: Header): seq<bool>
    requires PlanOk(h.low, t.main, 0, LITERALS)
    requires PlanOk(h.high, Planned(h.low, t.main, 0, LITERALS), LITERALS, 8 * slots)
  {
    PlanBits(h.high, Planned(h.low, t.main, 0, LITERALS), LITERALS, 8 * slots)
  }

  function HeaderBits(slots: nat, t: Trees, h: Header): seq<bool>
    requires HeaderOk(slots, t, h)
  {
    BitsOf(h.kind, 3) + (BitsOf(h.size, 24) + (AlignedBits(h) +
    (LowBits(t, h) + (HighBits(slots, t, h) + PlanBits(h.length, t.length, 0, LENGTH_TREE_SIZE)))))
  }

  lemma ReadPlanned(plan: Plan, lengths: seq<Byte>, from: nat, size: nat, rest: seq<bool>)
    requires PlanOk(plan, lengths, from, size)
    ensures
      ReadLengths(lengths, from, size, PlanBits(plan, lengths, from, size) + rest) ==
      Read(Planned(plan, lengths, from, size), rest)
  {
    hide PlanOk, ReadLengths, PlanBits;
    ReadPlanBits(plan, lengths, from, size, rest);
  }

  lemma ReadTreesOfHeader(slots: nat, t: Trees, u: Trees, h: Header, rest: seq<bool>)
    requires HeaderOk(slots, t, h) && u.main == t.main && u.length == t.length
    ensures
      var bits := LowBits(t, h) + (HighBits(slots, t, h) + (PlanBits(h.length, t.length, 0, LENGTH_TREE_SIZE) + rest));
      ReadTrees(slots, u, bits) == Success(TreesRead(TreesAfter(slots, t, h).(aligned := u.aligned), rest))
  {
    hide PlanOk, ReadLengths, PlanBits, Planned, Usable;
    var b3 := PlanBits(h.length, t.length, 0, LENGTH_TREE_SIZE) + rest;
    var b2 := HighBits(slots, t, h) + b3;
    var middle := Planned(h.low, t.main, 0, LITERALS);
    ReadPlanned(h.low, t.main, 0, LITERALS, b2);
    ReadPlanned(h.high, middle, LITERALS, 8 * slots, b3);
    ReadPlanned(h.length, t.length, 0, LENGTH_TREE_SIZE, rest);
  }

  lemma ReadAlignedBits(h: Header, u: Trees, rest: seq<bool>)
    requires AlignedOk(h)
    ensures
      ReadAligned(h.kind, u, AlignedBits(h) + rest) ==
      Some(TreesRead(if h.kind == ALIGNED then u.(aligned := h.aligned) else u, rest))
  {
    hide Usable, ReadFixed, FixedBits;
    if h.kind == ALIGNED {
      assert Pow2(3) == 8;
      ReadFixedBits(h.aligned, 3, rest);
    } else {
      assert [] + rest == rest;
    }
  }

  /** The decompressor reads a header back, whatever trees it still had for aligned offsets. */
  lemma StartBlockOfHeader(d: Decoder, t: Trees, h: Header, rest: seq<bool>)
    requires HeaderOk(d.slots, t, h) && d.trees.main == t.main && d.trees.length == t.length
    ensures
      var aligned := if h.kind == ALIGNED then h.aligned else d.trees.aligned;
      StartBlock(d, HeaderBits(d.slots, t, h) + rest) == Success(BlockStart(
        d.(kind := h.kind, left := h.size, trees := TreesAfter(d.slots, t, h).(aligned := aligned)), rest))
  {
    hide PlanOk, PlanBits, Planned, Usable, ReadTrees, ReadAligned, AlignedBits, LowBits, HighBits, AlignedOk,
      GetVal, GetRest, TreesAfter;
    var b4 := LowBits(t, h) + (HighBits(d.slots, t, h) + (PlanBits(h.length, t.length, 0, LENGTH_TREE_SIZE) + rest));
    var b3 := AlignedBits(h) + b4;
    var b2 := BitsOf(h.size, 24) + b3;
    assert HeaderBits(d.slots, t, h) + rest == BitsOf(h.kind, 3) + b2;
    assert Pow2(3) == 8;
    GetPrinted(h.kind, 3, b2);
    GetPrinted(h.size, 24, b3);
    ReadAlignedBits(h, d.trees, b4);
    var u := if h.kind == ALIGNED then d.trees.(aligned := h.aligned) else d.trees;
    ReadTreesOfHeader(d.slots, t, u, h, rest);
  }

  // ---------- the encoder's state ----------

  /** What the encoder knows about the decompressor, and the bytes sent since the reset. */
  datatype Enc = Enc(slots: nat, kind: nat, left: nat, trees: Trees, recent: Recent, out: seq<Byte>)

  function FreshEnc(slots: nat): Enc
  {
    Enc(slots, 0, 0, Trees([], [], []), Recent(1, 1, 1), [])
  }

  ghost predicate Matches(e: Enc, d: Decoder)
  {
    && d.slots == e.slots && d.left == e.left
    && d.cursor.pos == |e.out| <= |d.cursor.bytes| && d.cursor.bytes[..|e.out|] == e.out
    && d.cursor.recent == e.recent
    && d.trees.main == e.trees.main && d.trees.length == e.trees.length
    && (e.left > 0 ==> d.kind == e.kind && SameTrees(e.kind, e.trees, d.trees) && TreesReady(d.kind, d.trees))
  }

  /** A reset brings any decompressor into the encoder's starting state. */
  lemma ResetMatches(d: Decoder)
    ensures Matches(FreshEnc(d.slots), ResetDecoder(d)) && DecoderOk(ResetDecoder(d))
  {
  }

  function Begin(e: Enc, h: Header): Enc
    requires HeaderOk(e.slots, e.trees, h)
  {
    e.(kind := h.kind, left := h.size, trees := TreesAfter(e.slots, e.trees, h))
  }

  predicate TokensFit(e: Enc, tokens: seq<Token>)
  {
    TokensOk(e.kind, e.trees, e.recent, |e.out|, tokens) && Size(tokens) <= e.left
  }

  function Send(e: Enc, tokens: seq<Token>): (r: Enc)
    requires TokensFit(e, tokens)
    ensures |r.out| == |e.out| + Size(tokens) && r.slots == e.slots
  {
    TokensInReach(e.kind, e.trees, e.recent, |e.out|, tokens);
    e.(left := e.left - Size(tokens), recent := ShiftAll(e.recent, tokens), out := Expand(e.out, tokens))
  }

  function SentBits(e: Enc, tokens: seq<Token>): seq<bool>
    requires TokensFit(e, tokens)
  {
    TokensBits(e.kind, e.trees, e.recent, |e.out|, tokens)
  }

  lemma HeaderDecodes(e: Enc, d: Decoder, h: Header, rest: seq<bool>)
    requires Matches(e, d) && HeaderOk(e.slots, e.trees, h)
    ensures
      var r := StartBlock(d, HeaderBits(e.slots, e.trees, h) + rest);
      r.Success? && r.value.rest == rest && Matches(Begin(e, h), r.value.decoder) && r.value.decoder.header == d.header
  {
    hide HeaderOk, HeaderBits, TreesAfter, TreesReady, Usable;
    StartBlockOfHeader(d, e.trees, h, rest);
    var started := StartBlock(d, HeaderBits(e.slots, e.trees, h) + rest).value.decoder;
    assert SameTrees(h.kind, Begin(e, h).trees, started.trees) by {
      AlignedAfter(e.slots, e.trees, h);
    }
  }

  lemma AlignedAfter(slots: nat, t: Trees, h: Header)
    requires HeaderOk(slots, t, h)
    ensures h.kind == ALIGNED ==> TreesAfter(slots, t, h).aligned == h.aligned
  {
  }

  lemma PartDecodes(e: Enc, d: Decoder, tokens: seq<Token>, rest: seq<bool>)
    requires Matches(e, d) && TokensFit(e, tokens) && Size(tokens) > 0
    requires |e.out| + Size(tokens) <= |d.cursor.bytes|
    ensures DecoderOk(d)
    ensures
      var r := DecodePart(d, SentBits(e, tokens) + rest, Size(tokens));
      r.Success? && r.value.rest == rest && Matches(Send(e, tokens), r.value.decoder)
    ensures PartInReach(d, SentBits(e, tokens) + rest, Size(tokens))
  {
    hide TokensOk, TokensBits, DecodeBytes, BytesInReach, TreesReady, SameTrees, ShiftAll, Expand, AllInReach;
    DecodeTokensBits(e.kind, e.trees, d.trees, d.cursor, tokens, rest, Size(tokens));
  }

  // ---------- frames ----------

  /** Tokens sent in the current block, or in a new block opened for them. */
  datatype Piece = Opened(header: Header, tokens: seq<Token>) | Continued(tokens: seq<Token>)

  predicate PieceStarts(e: Enc, piece: Piece)
  {
    match piece
    case Opened(header, _) => e.left == 0 && HeaderOk(e.slots, e.trees, header)
    case Continued(_) => e.left > 0
  }

  function Started(e: Enc, piece: Piece): Enc
    requires PieceStarts(e, piece)
  {
    match piece
    case Opened(header, _) => Begin(e, header)
    case Continued(_) => e
  }

  /** A piece carries as many bytes as both its block and its frame still need. */
  predicate PieceOk(e: Enc, piece: Piece, n: nat)
  {
    && PieceStarts(e, piece)
    && TokensFit(Started(e, piece), piece.tokens)
    && Size(piece.tokens) == Min(Started(e, piece).left, n)
  }

  function PieceBits(e: Enc, piece: Piece): seq<bool>
    requires PieceStarts(e, piece) && TokensFit(Started(e, piece), piece.tokens)
  {
    match piece
    case Opened(header, tokens) => HeaderBits(e.slots, e.trees, header) + SentBits(Begin(e, header), tokens)
    case Continued(tokens) => SentBits(e, tokens)
  }

  function AfterPiece(e: Enc, piece: Piece): (r: Enc)
    requires PieceStarts(e, piece) && TokensFit(Started(e, piece), piece.tokens)
    ensures |r.out| == |e.out| + Size(piece.tokens) && r.slots == e.slots
  {
    Send(Started(e, piece), piece.tokens)
  }

  predicate PiecesOk(e: Enc, pieces: seq<Piece>, n: nat)
    decreases pieces
  {
    if pieces == [] then n == 0
    else
      && n > 0 && PieceOk(e, pieces[0], n)
      && PiecesOk(AfterPiece(e, pieces[0]), pieces[1..], n - Size(pieces[0].tokens))
  }

  function PiecesBits(e: Enc, pieces: seq<Piece>, n: nat): seq<bool>
    requires PiecesOk(e, pieces, n)
    decreases pieces
  {
    hide TokensFit, PieceStarts, Started;
    if pieces == [] then []
    else
      PieceBits(e, pieces[0]) +
      PiecesBits(AfterPiece(e, pieces[0]), pieces[1..], n - Size(pieces[0].tokens))
  }

  function AfterPieces(e: Enc, pieces: seq<Piece>, n: nat): (r: Enc)
    requires PiecesOk(e, pieces, n)
    ensures |r.out| == |e.out| + n && r.slots == e.slots
    decreases pieces
  {
    hide TokensFit, PieceStarts, Started;
    if pieces == [] then e
    else AfterPieces(AfterPiece(e, pieces[0]), pieces[1..], n - Size(pieces[0].tokens))
  }

  lemma NoTokens(e: Enc, tokens: seq<Token>)
    requires TokensFit(e, tokens) && Size(tokens) == 0
    ensures tokens == [] && SentBits(e, tokens) == [] && Send(e, tokens) == e
  {
    if tokens != [] {
      TokenNotEmpty(e.kind, e.trees, e.recent, |e.out|, tokens[0]);
    }
  }

  /** Decoding goes on from another state with the same result, and stays in reach when that does. */
  ghost predicate SameRun(d: Decoder, b: seq<bool>, n: nat, d': Decoder, b': seq<bool>, n': nat)
    requires DecoderOk(d) && DecoderOk(d')
  {
    && DecodeBlocks(d, b, n) == DecodeBlocks(d', b', n')
    && (BlocksInReach(d', b', n') ==> BlocksInReach(d, b, n))
  }

  /** The tokens of a piece, once its block is open. */
  lemma TokensDecode(e: Enc, d: Decoder, tokens: seq<Token>, rest: seq<bool>, n: nat)
    requires Matches(e, d) && DecoderOk(d) && TokensFit(e, tokens) && Size(tokens) == Min(e.left, n)
    requires n > 0 && |e.out| + n <= |d.cursor.bytes|
    ensures exists d' :: Matches(Send(e, tokens), d') && DecoderOk(d') && d'.header == d.header &&
                         |d'.cursor.bytes| == |d.cursor.bytes| &&
                         SameRun(d, SentBits(e, tokens) + rest, n, d', rest, n - Size(tokens))
  {
    hide TokensFit, Send, SentBits, StartBlock, DecodePart, PartInReach;
    if Size(tokens) == 0 {
      NoTokens(e, tokens);
      assert [] + rest == rest;
      assert Matches(Send(e, tokens), d);
    } else {
      PartDecodes(e, d, tokens, rest);
      var d' := DecodePart(d, SentBits(e, tokens) + rest, Size(tokens)).value.decoder;
      assert Matches(Send(e, tokens), d');
    }
  }

  /** One piece: the decompressor stands where the encoder does, with the rest of the bits. */
  lemma PieceDecodes(e: Enc, d: Decoder, piece: Piece, rest: seq<bool>, n: nat)
    requires Matches(e, d) && DecoderOk(d) && PieceOk(e, piece, n)
    requires n > 0 && |e.out| + n <= |d.cursor.bytes|
    ensures exists d' :: Matches(AfterPiece(e, piece), d') && DecoderOk(d') && d'.header == d.header &&
                         |d'.cursor.bytes| == |d.cursor.bytes| &&
                         SameRun(d, PieceBits(e, piece) + rest, n, d', rest, n - Size(piece.tokens))
  {
    hide TokensFit, Send, SentBits, StartBlock, DecodePart, HeaderOk, HeaderBits, TreesAfter;
    match piece
    case Opened(header, tokens) =>
      var tail := SentBits(Begin(e, header), tokens) + rest;
      assert PieceBits(e, piece) + rest == HeaderBits(e.slots, e.trees, header) + tail;
      HeaderDecodes(e, d, header, tail);
      var s := StartBlock(d, HeaderBits(e.slots, e.trees, header) + tail).value;
      TokensDecode(Begin(e, header), s.decoder, tokens, rest, n);
    case Continued(tokens) =>
      TokensDecode(e, d, tokens, rest, n);
  }

  lemma {:induction false} PiecesDecode(e: Enc, d: Decoder, pieces: seq<Piece>, rest: seq<bool>, n: nat)
    requires Matches(e, d) && DecoderOk(d) && PiecesOk(e, pieces, n)
    requires |e.out| + n <= |d.cursor.bytes|
    ensures
      var r := DecodeBlocks(d, PiecesBits(e, pieces, n) + rest, n);
      r.Success? && r.value.rest == rest && Matches(AfterPieces(e, pieces, n), r.value.decoder)
    ensures BlocksInReach(d, PiecesBits(e, pieces, n) + rest, n)
    decreases pieces
  {
    hide BlocksInReach, Matches, PieceStarts, TokensFit, Started, PieceBits, AfterPiece, DecodeBlocks, DecoderOk;
    if pieces == [] {
      assert [] + rest == rest;
      NothingToDecode(d, rest);
    } else {
      var piece := pieces[0];
      var e', n' := AfterPiece(e, piece), n - Size(piece.tokens);
      var tail := PiecesBits(e', pieces[1..], n') + rest;
      assert PiecesBits(e, pieces, n) + rest == PieceBits(e, piece) + tail;
      PieceDecodes(e, d, piece, tail, n);
      var d' :| Matches(e', d') && DecoderOk(d') && d'.header == d.header &&
                |d'.cursor.bytes| == |d.cursor.bytes| &&
                SameRun(d, PieceBits(e, piece) + tail, n, d', tail, n');
      PiecesDecode(e', d', pieces[1..], rest, n');
    }
  }

  lemma NothingToDecode(d: Decoder, b: seq<bool>)
    requires DecoderOk(d)
    ensures DecodeBlocks(d, b, 0) == Success(BlockStart(d, b)) && BlocksInReach(d, b, 0)
  {
  }

  /** A frame: an optional E8 file size (only looked at after a reset), its pieces, its number of bytes. */
  datatype Frame = Frame(fileSize: Option<nat>, pieces: seq<Piece>, size: nat)

  predicate FrameOk(e: Enc, frame: Frame)
  {
    (frame.fileSize.Some? ==> frame.fileSize.value < Pow2(32)) && PiecesOk(e, frame.pieces, frame.size)
  }

  function FlagBits(frame: Frame): seq<bool>
  {
    match frame.fileSize
    case None => BitsOf(0, 1)
    case Some(v) => BitsOf(1, 1) + BitsOf(v, 32)
  }

  function FrameBits(first: bool, e: Enc, frame: Frame): seq<bool>
    requires FrameOk(e, frame)
  {
    (if first then FlagBits(frame) else []) + PiecesBits(e, frame.pieces, frame.size)
  }

  function AfterFrame(e: Enc, frame: Frame): (r: Enc)
    requires FrameOk(e, frame)
    ensures |r.out| == |e.out| + frame.size && r.slots == e.slots
  {
    AfterPieces(e, frame.pieces, frame.size)
  }

  lemma SkipFlagBits(frame: Frame, rest: seq<bool>)
    requires frame.fileSize.Some? ==> frame.fileSize.value < Pow2(32)
    ensures SkipHeader(FlagBits(frame) + rest) == rest
  {
    hide GetVal, GetRest;
    assert Pow2(1) == 2;
    match frame.fileSize
    case None =>
      GetPrinted(0, 1, rest);
    case Some(v) =>
      assert FlagBits(frame) + rest == BitsOf(1, 1) + (BitsOf(v, 32) + rest);
      GetPrinted(1, 1, BitsOf(v, 32) + rest);
      GetPrinted(v, 32, rest);
  }

  /** One call of `decompress` on a packed frame appends the frame's bytes to what was there. */
  lemma FrameDecodes(e: Enc, d: Decoder, frame: Frame)
    requires Matches(e, d) && DecoderOk(d) && FrameOk(e, frame)
    requires |e.out| + frame.size <= |d.cursor.bytes|
    ensures
      var r := Decompress(d, ToBytes(FrameBits(d.header, e, frame)), frame.size);
      && r.Success?
      && Matches(AfterFrame(e, frame), r.value.decoder) && !r.value.decoder.header
      && |r.value.decoder.cursor.bytes| == |d.cursor.bytes|
      && r.value.out == AfterFrame(e, frame).out[|e.out|..]
    ensures FrameInReach(d, FrameData(ToBytes(FrameBits(d.header, e, frame)), frame.size))
  {
    hide BlocksInReach, PiecesOk, PiecesBits, AfterPieces, DecodeBlocks, ToBytes, WordBits, SkipHeader, FlagBits,
      TreesReady, SameTrees;
    var bits := FrameBits(d.header, e, frame);
    var pad := PackedBits(bits);
    var tail := PiecesBits(e, frame.pieces, frame.size) + Zeros(pad);
    if d.header {
      assert bits + Zeros(pad) == FlagBits(frame) + tail;
      SkipFlagBits(frame, tail);
    } else {
      assert bits + Zeros(pad) == tail;
    }
    PiecesDecode(e, d.(header := false), frame.pieces, Zeros(pad), frame.size);
    var s := DecodeBlocks(d.(header := false), tail, frame.size).value.decoder;
    assert s.cursor.bytes[..s.cursor.pos][|e.out|..] == s.cursor.bytes[|e.out|..s.cursor.pos];
  }
}
