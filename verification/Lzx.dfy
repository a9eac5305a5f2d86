/** What decompressing means, on values: a cursor into the window, three remembered offsets, code lengths, bits. */
module Lzx {
  import opened Basics
  import opened Bits
  import opened BitReading
  import opened HuffmanCodes
  import opened CodeLengths
  import opened Offsets

  const VERBATIM: nat := 1
  const ALIGNED: nat := 2
  const UNCOMPRESSED: nat := 3

  const LITERALS: nat := 256
  const LENGTH_TREE_SIZE: nat := 249
  const ALIGNED_TREE_SIZE: nat := 8

  datatype Recent = Recent(r0: nat, r1: nat, r2: nat)

  /** The window, the position where the next byte goes, and the remembered offsets. */
  datatype Cursor = Cursor(bytes: seq<Byte>, pos: nat, recent: Recent)

  /** The code lengths of the three trees. */
  datatype Trees = Trees(main: seq<Byte>, length: seq<Byte>, aligned: seq<Byte>)

  predicate TreeReady(lengths: seq<Byte>) { lengths != [] && Usable(lengths) }

  predicate TreesReady(kind: nat, t: Trees)
  {
    && (kind == VERBATIM || kind == ALIGNED)
    && TreeReady(t.main) && TreeReady(t.length)
    && (kind == ALIGNED ==> TreeReady(t.aligned))
  }

  // ---------- one match ----------

  /** The footer of an explicit offset, for a slot with position footer bits `footer`. */
  function ReadFooter(kind: nat, t: Trees, footer: nat, b: seq<bool>): (r: (nat, seq<bool>))
    requires TreesReady(kind, t)
    ensures |r.1| <= |b|
  {
    if kind == VERBATIM || footer == 1 || footer == 2 then (GetVal(b, footer), GetRest(b, footer))
    else if footer == 0 then (0, b)
    else if footer == 3 then DecodeSymbol(t.aligned, b)
    else
      var (low, rest) := DecodeSymbol(t.aligned, GetRest(b, footer - 3));
      (8 * GetVal(b, footer - 3) + low, rest)
  }

  datatype OffsetRead = OffsetRead(offset: nat, recent: Recent, rest: seq<bool>)

  /** The match offset for the slot field of a main symbol; the first three slots name remembered offsets. */
  function ReadOffset(kind: nat, t: Trees, recent: Recent, slot: nat, b: seq<bool>): (r: Option<OffsetRead>)
    requires TreesReady(kind, t)
    ensures r.Some? ==> |r.value.rest| <= |b|
  {
    if slot == 0 then Some(OffsetRead(recent.r0, recent, b))
    else if slot == 1 then Some(OffsetRead(recent.r1, Recent(recent.r1, recent.r0, recent.r2), b))
    else if slot == 2 then Some(OffsetRead(recent.r2, Recent(recent.r2, recent.r1, recent.r0), b))
    else if kind == VERBATIM && slot == 3 then Some(OffsetRead(1, Recent(1, recent.r0, recent.r1), b))
    else if slot > LAST_SLOT then None
    else
      var (extra, rest) := ReadFooter(kind, t, FooterBits(slot), b);
      var offset := JoinOffset(slot, extra);
      Some(OffsetRead(offset, Recent(offset, recent.r0, recent.r1), rest))
  }

  /** Copy `n` bytes inside the window, byte by byte, the source index wrapping once. */
  function CopyBytes(bytes: seq<Byte>, pos: nat, src: nat, n: nat): (r: Option<seq<Byte>>)
    requires pos + n <= |bytes|
    ensures r.Some? ==> |r.value| == |bytes|
    decreases n
  {
    if n == 0 then Some(bytes)
    else
      var s := if src >= |bytes| then src - |bytes| else src;
      if s >= |bytes| then None
      else CopyBytes(bytes[pos := bytes[s]], pos + 1, s + 1, n - 1)
  }

  // ---------- one symbol ----------

  datatype Symbol =
    | Literal(value: Byte)
    | Match(length: nat, offset: nat, recent: Recent)

  datatype SymbolRead = SymbolRead(symbol: Symbol, rest: seq<bool>)

  function ReadMatchLength(t: Trees, main: nat, b: seq<bool>): (r: (nat, seq<bool>))
    requires TreeReady(t.length)
    ensures r.0 >= 2 && |r.1| <= |b|
  {
    if main % 8 == 7 then
      var (extra, rest) := DecodeSymbol(t.length, b);
      (7 + extra + 2, rest)
    else (main % 8 + 2, b)
  }

  /** The next literal or match; a match longer than what may still be written is refused. */
  function ReadSymbol(kind: nat, t: Trees, recent: Recent, b: seq<bool>, left: nat): (r: Option<SymbolRead>)
    requires TreesReady(kind, t)
    ensures r.Some? ==> |r.value.rest| <= |b|
    ensures r.Some? && r.value.symbol.Match? ==> 2 <= r.value.symbol.length <= left
  {
    var (main, b1) := DecodeSymbol(t.main, b);
    if main < LITERALS then Some(SymbolRead(Literal(main), b1))
    else
      var (length, b2) := ReadMatchLength(t, main, b1);
      if length > left then None
      else
        match ReadOffset(kind, t, recent, (main - LITERALS) / 8, b2)
        case None => None
        case Some(o) => Some(SymbolRead(Match(length, o.offset, o.recent), o.rest))
  }

  function SymbolSize(s: Symbol): nat { if s.Literal? then 1 else s.length }

  /** Write a symbol's bytes into the window. */
  function Apply(c: Cursor, s: Symbol): (r: Option<Cursor>)
    requires c.pos + SymbolSize(s) <= |c.bytes|
    ensures r.Some? ==> r.value.pos == c.pos + SymbolSize(s) && |r.value.bytes| == |c.bytes|
  {
    match s
    case Literal(value) => Some(Cursor(c.bytes[c.pos := value], c.pos + 1, c.recent))
    case Match(length, offset, recent) =>
      if c.pos + |c.bytes| < offset then None
      else
        match CopyBytes(c.bytes, c.pos, c.pos + |c.bytes| - offset, length)
        case None => None
        case Some(bytes) => Some(Cursor(bytes, c.pos + length, recent))
  }

  datatype Decoded = Decoded(cursor: Cursor, rest: seq<bool>)

  /** Decode exactly `n` bytes. */
  function DecodeBytes(kind: nat, t: Trees, c: Cursor, b: seq<bool>, n: nat): (r: Option<Decoded>)
    requires TreesReady(kind, t) && c.pos + n <= |c.bytes|
    ensures r.Some? ==> r.value.cursor.pos == c.pos + n && |r.value.cursor.bytes| == |c.bytes|
    ensures r.Some? ==> |r.value.rest| <= |b|
    decreases n
  {
    if n == 0 then Some(Decoded(c, b))
    else
      match ReadSymbol(kind, t, c.recent, b, n)
      case None => None
      case Some(s) =>
        match Apply(c, s.symbol)
        case None => None
        case Some(c') => DecodeBytes(kind, t, c', s.rest, n - SymbolSize(s.symbol))
  }

  // ---------- blocks ----------

  /** Everything the decompressor keeps between frames. */
  datatype Decoder = Decoder(slots: nat, kind: nat, header: bool, left: nat, cursor: Cursor, trees: Trees)

  ghost predicate DecoderOk(d: Decoder)
  {
    d.cursor.pos <= |d.cursor.bytes| && (d.left > 0 ==> TreesReady(d.kind, d.trees))
  }

  /** Why decoding stops: bad data, code lengths running out of their vector, or a block kind not modelled here. */
  datatype Problem = Malformed | LengthsOverrun | UncompressedBlock

  datatype Result<T> = Success(value: T) | Failure(problem: Problem)

  datatype TreesRead = TreesRead(trees: Trees, rest: seq<bool>)

  function ReadAligned(kind: nat, t: Trees, b: seq<bool>): (r: Option<TreesRead>)
    ensures r.Some? ==> |r.value.rest| <= |b|
  {
    if kind == ALIGNED then
      var (lengths, rest) := ReadFixed(b, 3, ALIGNED_TREE_SIZE);
      if Usable(lengths) then Some(TreesRead(t.(aligned := lengths), rest)) else None
    else Some(TreesRead(t, b))
  }

  function LengthsProblem(r: Lengths): Problem
    requires !r.Read?
  {
    if r.Rejected? then Malformed else LengthsOverrun
  }

  /** The main tree's lengths come in two parts, then the length tree's. */
  function ReadTrees(slots: nat, t: Trees, b: seq<bool>): (r: Result<TreesRead>)
    ensures r.Success? ==> |r.value.rest| <= |b|
    ensures r.Success? ==> TreeReady(r.value.trees.main) && TreeReady(r.value.trees.length)
    ensures r.Success? ==> r.value.trees.aligned == t.aligned
  {
    var l1 := ReadLengths(t.main, 0, LITERALS, b);
    if !l1.Read? then Failure(LengthsProblem(l1))
    else
      var l2 := ReadLengths(l1.lengths, LITERALS, 8 * slots, l1.rest);
      if !l2.Read? then Failure(LengthsProblem(l2))
      else
        var l3 := ReadLengths(t.length, 0, LENGTH_TREE_SIZE, l2.rest);
        if !l3.Read? then Failure(LengthsProblem(l3))
        else if Usable(l2.lengths) && Usable(l3.lengths) then
          Success(TreesRead(Trees(l2.lengths, l3.lengths, t.aligned), l3.rest))
        else Failure(Malformed)
  }

  datatype BlockStart = BlockStart(decoder: Decoder, rest: seq<bool>)

  function StartBlock(d: Decoder, b: seq<bool>): (r: Result<BlockStart>)
    ensures r.Success? ==> |r.value.rest| <= |b|
    ensures r.Success? ==>
      r.value.decoder == d.(kind := r.value.decoder.kind, left := r.value.decoder.left, trees := r.value.decoder.trees)
    ensures r.Success? ==> TreesReady(r.value.decoder.kind, r.value.decoder.trees)
  {
    var kind, b1 := GetVal(b, 3), GetRest(b, 3);
    var size, b2 := GetVal(b1, 24), GetRest(b1, 24);
    if kind == UNCOMPRESSED then Failure(UncompressedBlock)
    else if kind != VERBATIM && kind != ALIGNED then Failure(Malformed)
    else
      match ReadAligned(kind, d.trees, b2)
      case None => Failure(Malformed)
      case Some(a) =>
        match ReadTrees(d.slots, a.trees, a.rest)
        case Failure(problem) => Failure(problem)
        case Success(t) => Success(BlockStart(d.(kind := kind, left := size, trees := t.trees), t.rest))
  }

  /** A block of size zero still consumes input, so reading blocks ends. */
  lemma EmptyBlockConsumes(d: Decoder, b: seq<bool>)
    requires StartBlock(d, b).Success? && StartBlock(d, b).value.decoder.left == 0
    ensures |StartBlock(d, b).value.rest| < |b|
  {
    hide ReadAligned, ReadTrees, TreesReady;
    if |b| < 3 {
      ShortHeader(b);
    }
  }

  /** With fewer than three bits left, the padded header never announces an empty block. */
  lemma ShortHeader(b: seq<bool>)
    requires |b| < 3
    ensures (GetVal(b, 3) == VERBATIM || GetVal(b, 3) == ALIGNED) ==> GetVal(GetRest(b, 3), 24) > 0
  {
    var p := Padded(b, 3);
    assert p == p[..2] + [false] && p[..2] == p[..1] + [p[1]];
    assert Val(p) == 2 * Val(p[..2]);
    if GetVal(b, 3) == ALIGNED {
      var q := Padded(b, 8);
      assert Val(p[..2]) == 2 * Val(p[..1]) + Bit(p[1]);
      assert |b| == 2;
      assert q == b + Zeros(6);
      assert p[..2] == b;
      ValConcat(b, Zeros(6));
      assert Val(q) >= Val(b) * Pow2(6);
      assert Val(b) == 1;
    }
  }

  // ---------- frames ----------

  function DecodePart(d: Decoder, b: seq<bool>, n: nat): (r: Result<BlockStart>)
    requires DecoderOk(d) && 0 < n <= d.left
    ensures r.Success? ==> r.value.decoder == d.(cursor := r.value.decoder.cursor, left := d.left - n)
    ensures r.Success? ==> r.value.decoder.cursor.pos == d.cursor.pos + n
    ensures r.Success? ==> |r.value.decoder.cursor.bytes| == |d.cursor.bytes| && |r.value.rest| <= |b|
    ensures r.Success? ==> DecoderOk(r.value.decoder)
  {
    if d.cursor.pos + n > |d.cursor.bytes| then Failure(Malformed)
    else
      match DecodeBytes(d.kind, d.trees, d.cursor, b, n)
      case None => Failure(Malformed)
      case Some(c) => Success(BlockStart(d.(cursor := c.cursor, left := d.left - n), c.rest))
  }

  function Min(a: nat, b: nat): nat { if a < b then a else b }

  /** Decode `n` bytes across as many blocks as it takes. */
  function DecodeBlocks(d: Decoder, b: seq<bool>, n: nat): (r: Result<BlockStart>)
    requires DecoderOk(d)
    ensures r.Success? ==> DecoderOk(r.value.decoder) && r.value.decoder.cursor.pos == d.cursor.pos + n
    ensures r.Success? ==> |r.value.decoder.cursor.bytes| == |d.cursor.bytes|
    ensures r.Success? ==> r.value.decoder.slots == d.slots && r.value.decoder.header == d.header
    decreases n, |b|, if d.left == 0 then 1 else 0
  {
    if n == 0 then Success(BlockStart(d, b))
    else if d.left == 0 then
      match StartBlock(d, b)
      case Failure(problem) => Failure(problem)
      case Success(s) =>
        if s.decoder.left == 0 then EmptyBlockConsumes(d, b); DecodeBlocks(s.decoder, s.rest, n)
        else DecodeBlocks(s.decoder, s.rest, n)
    else
      var m := Min(d.left, n);
      match DecodePart(d, b, m)
      case Failure(problem) => Failure(problem)
      case Success(p) => DecodeBlocks(p.decoder, p.rest, n - m)
  }

  /** The first frame after a reset starts with a flag and, if it is set, 32 more bits. */
  function SkipHeader(b: seq<bool>): seq<bool>
  {
    if GetVal(b, 1) == 1 then GetRest(GetRest(b, 1), 32) else GetRest(b, 1)
  }

  datatype FrameOut = FrameOut(decoder: Decoder, out: seq<Byte>)

  /** One call of `decompress`: the bytes are those of the window before the E8 translation. */
  function Decompress(d: Decoder, data: seq<Byte>, outSize: nat): (r: Result<FrameOut>)
    requires DecoderOk(d)
    ensures r.Success? ==> DecoderOk(r.value.decoder) && |r.value.out| == outSize
  {
    var b := if d.header then SkipHeader(WordBits(data)) else WordBits(data);
    match DecodeBlocks(d.(header := false), b, outSize)
    case Failure(problem) => Failure(problem)
    case Success(s) =>
      var end := s.decoder.cursor.pos;
      Success(FrameOut(s.decoder, s.decoder.cursor.bytes[end - outSize..end]))
  }

  /** A frame as it is stored: its bytes, and how many bytes it decompresses to. */
  datatype FrameData = FrameData(data: seq<Byte>, size: nat)

  /** Decompress frame after frame; the outputs are joined. */
  function DecompressAll(d: Decoder, frames: seq<FrameData>): (r: Result<FrameOut>)
    requires DecoderOk(d)
    decreases frames
  {
    if frames == [] then Success(FrameOut(d, []))
    else
      match Decompress(d, frames[0].data, frames[0].size)
      case Failure(problem) => Failure(problem)
      case Success(f) =>
        match DecompressAll(f.decoder, frames[1..])
        case Failure(problem) => Failure(problem)
        case Success(g) => Success(FrameOut(g.decoder, f.out + g.out))
  }

  /** The state after `reset`: the window keeps its old bytes and the aligned tree its old lengths. */
  function ResetDecoder(d: Decoder): Decoder
  {
    Decoder(d.slots, 0, true, 0, Cursor(d.cursor.bytes, 0, Recent(1, 1, 1)), Trees([], [], d.trees.aligned))
  }
}
