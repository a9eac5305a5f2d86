/** A compressed CHM section: frames of 32 KB, a reset table, and what sequential decoding makes of it. */
module ChmSection {
  import opened Bits
  import opened Offsets
  import opened Lzx
  import opened LzxReach
  import opened LzxReset

  const FRAME_SIZE: nat := 0x8000

  datatype SectionInfo = SectionInfo(
    windowSizeIndex: nat,
    resetInterval: nat,
    compressedSize: nat,
    uncompressedSize: nat,
    resetTable: seq<nat>)

  /** The reset table starts at 0 and ascends. */
  predicate TableOk(entries: seq<nat>)
  {
    (entries != [] ==> entries[0] == 0) && forall j :: 0 < j < |entries| ==> entries[j - 1] < entries[j]
  }

  /** The reader refuses sections of more frames. */
  const MAX_FRAMES: nat := 2048

  /** What the reader checks of a section's tables beside that limit. */
  predicate TablesOk(s: SectionInfo)
  {
    && s.resetTable != [] && TableOk(s.resetTable)
    && s.uncompressedSize > 0 && (s.uncompressedSize - 1) / FRAME_SIZE == |s.resetTable| - 1
  }

  /** What it takes for granted: a window it has, resets, and an end of the data behind the last frame's start. */
  predicate TakenForGranted(s: SectionInfo)
    requires s.resetTable != []
  {
    s.windowSizeIndex < 32 && s.resetInterval > 0 && s.resetTable[|s.resetTable| - 1] <= s.compressedSize
  }

  predicate SectionOk(s: SectionInfo)
  {
    TablesOk(s) && TakenForGranted(s)
  }

  /** The entry loop: each value read must be larger than the one before, the first must be zero. */
  method CheckResetTable(values: seq<nat>) returns (ok: bool, table: seq<nat>)
    ensures ok == TableOk(values)
    ensures ok ==> table == values
  {
    table := [];
    var previous: nat := 0;
    for j := 0 to |values|
      invariant table == values[..j] && TableOk(values[..j])
      invariant previous == if j == 0 then 0 else values[j - 1]
    {
      if (j > 0) == (values[j] <= previous) {
        assert j > 0 ==> !(values[j - 1] < values[j]);
        return false, table;
      }
      table := table + [values[j]];
      previous := values[j];
    }
    ok := true;
  }

  // ---------- frames ----------

  predicate IsTail(s: SectionInfo, i: nat) { i + 1 == |s.resetTable| }

  /** How many bytes a frame decompresses to, as the reader computes it. */
  function SizeOfFrame(s: SectionInfo, i: nat): nat
  {
    if IsTail(s, i) then s.uncompressedSize % FRAME_SIZE else FRAME_SIZE
  }

  /** Bytes [start, end) of the base stream; what lies behind its end reads as zeros. */
  function BaseBytes(base: seq<Byte>, start: nat, end: nat): (b: seq<Byte>)
    requires start <= end
    ensures |b| == end - start
  {
    seq(end - start, i requires 0 <= i => if start + i < |base| then base[start + i] else 0)
  }

  function FrameEnd(s: SectionInfo, i: nat): nat
    requires i < |s.resetTable|
  {
    if IsTail(s, i) then s.compressedSize else s.resetTable[i + 1]
  }

  function FrameAt(s: SectionInfo, base: seq<Byte>, i: nat): FrameData
    requires SectionOk(s) && i < |s.resetTable|
  {
    FrameData(BaseBytes(base, s.resetTable[i], FrameEnd(s, i)), SizeOfFrame(s, i))
  }

  lemma FrameAtIs(s: SectionInfo, base: seq<Byte>, i: nat)
    requires SectionOk(s) && i < |s.resetTable|
    ensures FrameAt(s, base, i) ==
            FrameData(
              BaseBytes(base, s.resetTable[i],
                        if i + 1 == |s.resetTable| then s.compressedSize else s.resetTable[i + 1]),
              SizeOfFrame(s, i))
  {
  }

  /** A base stream that ends early is read as if zeros followed. */
  lemma ZerosBehindBase(s: SectionInfo, base: seq<Byte>, zeros: seq<Byte>, i: nat)
    requires SectionOk(s) && i < |s.resetTable| && forall z <- zeros :: z == 0
    ensures FrameAt(s, base + zeros, i) == FrameAt(s, base, i)
    ensures |FrameAt(s, base, i).data| == FrameEnd(s, i) - s.resetTable[i]
    ensures forall k :: 0 <= k < |FrameAt(s, base, i).data| && s.resetTable[i] + k < |base| ==>
      FrameAt(s, base, i).data[k] == base[s.resetTable[i] + k]
  {
    var start, end := s.resetTable[i], FrameEnd(s, i);
    var a, b := BaseBytes(base + zeros, start, end), BaseBytes(base, start, end);
    assert forall k :: |base| <= k < |base + zeros| ==> (base + zeros)[k] in zeros;
    assert forall k :: 0 <= k < end - start ==> a[k] == b[k];
  }

  // ---------- sequential decoding ----------

  function NewDecoder(windowSizeIndex: nat): (d: Decoder)
    ensures DecoderOk(d)
  {
    Decoder(
      SlotNumber(windowSizeIndex), 0, true, 0,
      Cursor(seq(Pow2(windowSizeIndex), _ => 0), 0, Recent(1, 1, 1)), Trees([], [], []))
  }

  /** The state in which frame `i` is decoded: new at every reset, otherwise what the frame before left. */
  function StateBefore(s: SectionInfo, base: seq<Byte>, i: nat): (d: Decoder)
    requires SectionOk(s) && i <= |s.resetTable|
    ensures DecoderOk(d)
    decreases i
  {
    if i % s.resetInterval == 0 then NewDecoder(s.windowSizeIndex)
    else
      var f := FrameAt(s, base, i - 1);
      match Decompress(StateBefore(s, base, i - 1), f.data, f.size)
      case Success(r) => r.decoder
      case Failure(_) => NewDecoder(s.windowSizeIndex)
  }

  ghost predicate FrameGood(s: SectionInfo, base: seq<Byte>, i: nat)
    requires SectionOk(s) && i < |s.resetTable|
  {
    var f := FrameAt(s, base, i);
    var d := StateBefore(s, base, i);
    Decompress(d, f.data, f.size).Success? && FrameInReach(d, f)
  }

  /** Every frame decodes in sequence, reaching back only to bytes written since its reset. */
  ghost predicate WellFormed(s: SectionInfo, base: seq<Byte>)
    requires SectionOk(s)
  {
    forall i :: 0 <= i < |s.resetTable| ==> FrameGood(s, base, i)
  }

  function FrameContent(s: SectionInfo, base: seq<Byte>, i: nat): seq<Byte>
    requires SectionOk(s) && i < |s.resetTable|
  {
    var f := FrameAt(s, base, i);
    match Decompress(StateBefore(s, base, i), f.data, f.size)
    case Success(r) => r.out
    case Failure(_) => []
  }

  /** The contents of all frames from `i` on. */
  function ContentFrom(s: SectionInfo, base: seq<Byte>, i: nat): seq<Byte>
    requires SectionOk(s) && i <= |s.resetTable|
    decreases |s.resetTable| - i
  {
    if i == |s.resetTable| then [] else FrameContent(s, base, i) + ContentFrom(s, base, i + 1)
  }

  /** The whole decompressed section. */
  function Content(s: SectionInfo, base: seq<Byte>): seq<Byte>
    requires SectionOk(s)
  {
    ContentFrom(s, base, 0)
  }

  lemma FrameContentSize(s: SectionInfo, base: seq<Byte>, i: nat)
    requires SectionOk(s) && i < |s.resetTable| && FrameGood(s, base, i)
    ensures |FrameContent(s, base, i)| == SizeOfFrame(s, i)
  {
    hide SectionOk, StateBefore, FrameAt, FrameInReach, DecodeBlocks;
    assert FrameAt(s, base, i).size == SizeOfFrame(s, i) by { FrameAtSize(s, base, i); }
  }

  lemma FrameAtSize(s: SectionInfo, base: seq<Byte>, i: nat)
    requires SectionOk(s) && i < |s.resetTable|
    ensures FrameAt(s, base, i).size == SizeOfFrame(s, i)
  {
  }

  /** Frame `i` starts at byte 32768 * i of the content. */
  lemma {:induction false} ContentAtFrame(s: SectionInfo, base: seq<Byte>, i: nat)
    requires SectionOk(s) && WellFormed(s, base) && i < |s.resetTable|
    ensures i * FRAME_SIZE <= |Content(s, base)|
    ensures ContentFrom(s, base, i) == Content(s, base)[i * FRAME_SIZE..]
    decreases i
  {
    hide SectionOk, FrameContent, FrameGood;
    if i > 0 {
      ContentAtFrame(s, base, i - 1);
      FrameContentSize(s, base, i - 1);
      assert Content(s, base)[(i - 1) * FRAME_SIZE..][FRAME_SIZE..] == Content(s, base)[i * FRAME_SIZE..];
    }
  }

  /** The section's content has its announced size exactly when that is not a multiple of the frame size;
      otherwise the reader takes the last frame to be empty. */
  lemma ContentSize(s: SectionInfo, base: seq<Byte>)
    requires SectionOk(s) && WellFormed(s, base)
    ensures |Content(s, base)| ==
      if s.uncompressedSize % FRAME_SIZE != 0 then s.uncompressedSize else s.uncompressedSize - FRAME_SIZE
  {
    hide FrameContent, FrameGood, Decompress;
    var last: nat := |s.resetTable| - 1;
    ContentAtFrame(s, base, last);
    FrameContentSize(s, base, last);
    assert ContentFrom(s, base, last + 1) == [];
  }

  /** A section of one full frame; its single frame is taken to be empty, whatever is stored. */
  const OneFullFrame: SectionInfo := SectionInfo(15, 2, 0, 0x8000, [0])

  /** So a section that announces just one full frame comes out empty. */
  lemma FullLastFrameIsLost(base: seq<Byte>)
    ensures SectionOk(OneFullFrame) && WellFormed(OneFullFrame, base) && Content(OneFullFrame, base) == []
  {
    var s := OneFullFrame;
    assert SectionOk(s);
    FrameAtIs(s, base, 0);
    assert FrameGood(s, base, 0) by { hide Pow2, SlotNumber; }
    hide FrameGood, FrameContent, Decompress;
    ContentSize(s, base);
  }

  // ---------- the state a reader is in ----------

  /** A decompressor may decode frame `i` next: either a reset comes first, or it agrees with the sequential state. */
  ghost predicate ReadyFor(s: SectionInfo, base: seq<Byte>, i: nat, d: Decoder)
    requires SectionOk(s) && i <= |s.resetTable|
  {
    && d.slots == SlotNumber(s.windowSizeIndex) && |d.cursor.bytes| == Pow2(s.windowSizeIndex)
    && (i % s.resetInterval != 0 ==> Agree(StateBefore(s, base, i), d))
  }

  /** The decompressor as the reader leaves it before decoding frame `i`. */
  function MaybeReset(s: SectionInfo, i: nat, d: Decoder): Decoder
    requires s.resetInterval > 0
  {
    if i % s.resetInterval == 0 then ResetDecoder(d) else d
  }

  lemma ResetAgrees(windowSizeIndex: nat, d: Decoder)
    requires d.slots == SlotNumber(windowSizeIndex) && |d.cursor.bytes| == Pow2(windowSizeIndex)
    ensures DecoderOk(ResetDecoder(d)) && Agree(NewDecoder(windowSizeIndex), ResetDecoder(d))
  {
  }

  /** Decoding frame `i` from any such state gives the frame's content and makes ready for the next frame. */
  lemma FrameDecodesAnywhere(s: SectionInfo, base: seq<Byte>, i: nat, d: Decoder)
    requires SectionOk(s) && WellFormed(s, base) && i < |s.resetTable| && ReadyFor(s, base, i, d)
    requires DecoderOk(MaybeReset(s, i, d))
    ensures
      var f := FrameAt(s, base, i);
      var r := Decompress(MaybeReset(s, i, d), f.data, f.size);
      r.Success? && r.value.out == FrameContent(s, base, i) && ReadyFor(s, base, i + 1, r.value.decoder)
  {
    hide Decompress, FrameInReach, NewDecoder, FrameAt, SlotNumber;
    assert FrameGood(s, base, i);
    if i % s.resetInterval == 0 {
      ResetAgrees(s.windowSizeIndex, d);
    }
    var e, f := MaybeReset(s, i, d), FrameAt(s, base, i);
    assert Agree(StateBefore(s, base, i), e);
    SameFrame(StateBefore(s, base, i), e, f);
    StateAfterFrame(s, base, i);
    ShapeKept(e, f);
  }

  lemma StateAfterFrame(s: SectionInfo, base: seq<Byte>, i: nat)
    requires SectionOk(s) && i < |s.resetTable| && FrameGood(s, base, i)
    ensures
      var f := FrameAt(s, base, i);
      (i + 1) % s.resetInterval != 0 ==>
        StateBefore(s, base, i + 1) == Decompress(StateBefore(s, base, i), f.data, f.size).value.decoder
  {
    hide FrameInReach, Decompress, FrameAt;
    assert StateBefore(s, base, i + 1 - 1) == StateBefore(s, base, i);
  }

  lemma ShapeKept(d: Decoder, f: FrameData)
    requires DecoderOk(d)
    ensures
      var r := Decompress(d, f.data, f.size);
      r.Success? ==> r.value.decoder.slots == d.slots && |r.value.decoder.cursor.bytes| == |d.cursor.bytes|
  {
  }
}
