/** Sections written by a compressor: they are well-formed, and their content is the tokens' expansion. */
module ChmCompressed {
  import opened Bits
  import opened Offsets
  import opened Lzx
  import opened LzxReach
  import opened LzxEncoder
  import opened LzxRoundTrip
  import opened LzxIntervals
  import opened ChmSection
  import opened ChmRandomAccess

  /** The stored frames with indices in [i, end). */
  function FramesOf(s: SectionInfo, base: seq<Byte>, i: nat, end: nat): seq<FrameData>
    requires SectionOk(s) && i <= end <= |s.resetTable|
    decreases end - i
  {
    if i == end then [] else [FrameAt(s, base, i)] + FramesOf(s, base, i + 1, end)
  }

  /** From the reset at frame `i` on, the stored frames are what an encoder packed, interval by interval. */
  predicate CompressedFrom(s: SectionInfo, base: seq<Byte>, i: nat, intervals: seq<seq<Frame>>)
    requires SectionOk(s) && i <= |s.resetTable|
    decreases intervals
  {
    var e, capacity := FreshEnc(SlotNumber(s.windowSizeIndex)), Pow2(s.windowSizeIndex);
    if intervals == [] then i == |s.resetTable|
    else
      var end := Min(i + s.resetInterval, |s.resetTable|);
      && i < end && IntervalOk(e, intervals[0], capacity)
      && FramesOf(s, base, i, end) == Packed(true, e, intervals[0], capacity)
      && CompressedFrom(s, base, end, intervals[1..])
  }

  lemma FirstInReach(s: SectionInfo, base: seq<Byte>, i: nat, intervals: seq<seq<Frame>>)
    requires SectionOk(s) && i <= |s.resetTable| && CompressedFrom(s, base, i, intervals) && intervals != []
    ensures AllInReach(0, FramesTokens(intervals[0]))
    ensures CompressedFrom(s, base, Min(i + s.resetInterval, |s.resetTable|), intervals[1..])
  {
    hide Packed, IntervalOk, AllInReach, FramesTokens, SlotNumber, Pow2, Expand, AfterFrames;
    FramesExpand(FreshEnc(SlotNumber(s.windowSizeIndex)), intervals[0], Pow2(s.windowSizeIndex));
  }

  lemma {:induction false} IntervalsInReach(s: SectionInfo, base: seq<Byte>, i: nat, intervals: seq<seq<Frame>>)
    requires SectionOk(s) && i <= |s.resetTable| && CompressedFrom(s, base, i, intervals)
    ensures forall k :: 0 <= k < |intervals| ==> AllInReach(0, FramesTokens(intervals[k]))
    decreases intervals
  {
    if intervals != [] {
      hide CompressedFrom, AllInReach, FramesTokens;
      FirstInReach(s, base, i, intervals);
      IntervalsInReach(s, base, Min(i + s.resetInterval, |s.resetTable|), intervals[1..]);
      assert forall k :: 0 < k < |intervals| ==> intervals[k] == intervals[1..][k - 1];
    }
  }

  /** What the tokens of all intervals expand to; no interval reaches into the one before. */
  function Expansion(intervals: seq<seq<Frame>>): seq<Byte>
    requires forall k :: 0 <= k < |intervals| ==> AllInReach(0, FramesTokens(intervals[k]))
  {
    if intervals == [] then [] else Expand([], FramesTokens(intervals[0])) + Expansion(intervals[1..])
  }

  /** Frames that decode one after the other are the section's own sequential decoding up to the next reset. */
  lemma {:induction false} IntervalIsGood(s: SectionInfo, base: seq<Byte>, i: nat, end: nat)
    requires SectionOk(s) && i <= end <= |s.resetTable|
    requires forall j :: i < j < end ==> j % s.resetInterval != 0
    requires DecompressAll(StateBefore(s, base, i), FramesOf(s, base, i, end)).Success?
    requires AllFramesInReach(StateBefore(s, base, i), FramesOf(s, base, i, end))
    ensures forall j :: i <= j < end ==> FrameGood(s, base, j)
    ensures
      ContentFrom(s, base, i) ==
      DecompressAll(StateBefore(s, base, i), FramesOf(s, base, i, end)).value.out + ContentFrom(s, base, end)
    decreases end - i
  {
    hide SectionOk, FrameInReach, Decompress, StateBefore, FrameAt;
    if i == end {
      assert [] + ContentFrom(s, base, end) == ContentFrom(s, base, end);
    } else {
      var frames := FramesOf(s, base, i, end);
      assert frames[1..] == FramesOf(s, base, i + 1, end);
      assert FrameGood(s, base, i);
      if i + 1 < end {
        StateAfterFrame(s, base, i);
        IntervalIsGood(s, base, i + 1, end);
      } else {
        assert FramesOf(s, base, i + 1, end) == [];
      }
    }
  }

  /** One interval: its frames decode to the expansion of its tokens. */
  lemma CompressedInterval(s: SectionInfo, base: seq<Byte>, i: nat, frames: seq<Frame>)
    requires SectionOk(s) && i < |s.resetTable| && i % s.resetInterval == 0
    requires IntervalOk(FreshEnc(SlotNumber(s.windowSizeIndex)), frames, Pow2(s.windowSizeIndex))
    requires
      FramesOf(s, base, i, Min(i + s.resetInterval, |s.resetTable|)) ==
      Packed(true, FreshEnc(SlotNumber(s.windowSizeIndex)), frames, Pow2(s.windowSizeIndex))
    ensures AllInReach(0, FramesTokens(frames))
    ensures
      var end := Min(i + s.resetInterval, |s.resetTable|);
      && (forall j :: i <= j < end ==> FrameGood(s, base, j))
      && ContentFrom(s, base, i) == Expand([], FramesTokens(frames)) + ContentFrom(s, base, end)
  {
    hide IntervalOk, Packed, AllFramesInReach, DecompressAll, FrameGood, FramesOf, ContentFrom, AllInReach, Expand,
      SlotNumber, Pow2;
    var d := NewDecoder(s.windowSizeIndex);
    assert ResetDecoder(d) == d == StateBefore(s, base, i);
    RoundTrip(d, frames);
    var end := Min(i + s.resetInterval, |s.resetTable|);
    forall j | i < j < end
      ensures j % s.resetInterval != 0
    {
      BetweenResets(i, s.resetInterval, j);
    }
    IntervalIsGood(s, base, i, end);
  }

  lemma {:induction false} CompressedIsWellFormed(s: SectionInfo, base: seq<Byte>, i: nat, intervals: seq<seq<Frame>>)
    requires SectionOk(s) && i <= |s.resetTable| && CompressedFrom(s, base, i, intervals)
    requires i % s.resetInterval == 0 || i == |s.resetTable|
    ensures forall j :: i <= j < |s.resetTable| ==> FrameGood(s, base, j)
    ensures forall k :: 0 <= k < |intervals| ==> AllInReach(0, FramesTokens(intervals[k]))
    ensures ContentFrom(s, base, i) == Expansion(intervals)
    decreases intervals
  {
    hide IntervalOk, Packed, FrameGood, FramesOf, AllInReach, Expand, FrameContent, FramesTokens, SlotNumber, Pow2;
    IntervalsInReach(s, base, i, intervals);
    if intervals != [] {
      var end := Min(i + s.resetInterval, |s.resetTable|);
      if i < |s.resetTable| {
        CompressedInterval(s, base, i, intervals[0]);
      }
      AtReset(i, s.resetInterval);
      CompressedIsWellFormed(s, base, end, intervals[1..]);
    }
  }

  /** A compressed section is well-formed, and what a stream has to deliver of a range of it is that range of the
      expansion of the tokens the section was made from. */
  lemma ReadBackAnywhere(s: SectionInfo, base: seq<Byte>, intervals: seq<seq<Frame>>, offset: nat, size: nat)
    requires SectionOk(s) && CompressedFrom(s, base, 0, intervals) && size > 0
    ensures WellFormed(s, base)
    ensures forall k :: 0 <= k < |intervals| ==> AllInReach(0, FramesTokens(intervals[k]))
    ensures Content(s, base) == Expansion(intervals)
    ensures offset + size <= |Expansion(intervals)| ==>
      && StartIndex(s, offset) <= |s.resetTable|
      && Delivered(s, base, offset, size) == Expansion(intervals)[offset..offset + size]
  {
    hide CompressedFrom, FrameGood, Expansion, Delivered, StartIndex, AllInReach, ContentFrom, FramesTokens;
    ZeroIsReset(s.resetInterval);
    CompressedIsWellFormed(s, base, 0, intervals);
    assert WellFormed(s, base);
    if offset + size <= |Expansion(intervals)| {
      RandomAccess(s, base, offset, size);
    }
  }

  lemma ZeroIsReset(r: nat)
    requires r > 0
    ensures 0 % r == 0
  {
  }
}
