/** Laying packed frames out as a section: whatever was packed can be stored, and is then read back anywhere. */
module ChmLayouts {
  import opened Bits
  import opened Offsets
  import opened BitReading
  import opened Lzx
  import opened LzxEncoder
  import opened LzxRoundTrip
  import opened LzxIntervals
  import opened LzxEncodable
  import opened LzxLiterals
  import opened ChmSection
  import opened ChmInputStreams
  import opened ChmRandomAccess
  import opened ChmCompressed

  // ---------- the section ----------

  /** The data of the frames, one after the other. */
  function Joined(frames: seq<FrameData>): seq<Byte>
  {
    if frames == [] then [] else Joined(frames[..|frames| - 1]) + frames[|frames| - 1].data
  }

  /** Where each frame begins. */
  function OffsetsOf(frames: seq<FrameData>): (r: seq<nat>)
    ensures |r| == |frames|
  {
    seq(|frames|, i requires 0 <= i < |frames| => |Joined(frames[..i])|)
  }

  /** The tables of a section that stores these frames from the start of the base stream on. */
  function SectionOf(w: nat, resetInterval: nat, frames: seq<FrameData>): SectionInfo
    requires frames != []
  {
    SectionInfo(
      w, resetInterval, |Joined(frames)|, (|frames| - 1) * FRAME_SIZE + frames[|frames| - 1].size,
      OffsetsOf(frames))
  }

  /** Full frames and a last one that is neither empty nor full; none is stored in no bytes. */
  predicate FramesFit(frames: seq<FrameData>)
  {
    && frames != [] && 0 < frames[|frames| - 1].size < FRAME_SIZE
    && (forall i :: 0 <= i < |frames| - 1 ==> frames[i].size == FRAME_SIZE)
    && forall i :: 0 <= i < |frames| ==> frames[i].data != []
  }

  lemma JoinedNext(frames: seq<FrameData>, i: nat)
    requires i < |frames|
    ensures Joined(frames[..i + 1]) == Joined(frames[..i]) + frames[i].data
  {
    assert frames[..i + 1][..i] == frames[..i];
  }

  lemma {:induction false} JoinedPrefix(frames: seq<FrameData>, i: nat)
    requires i <= |frames|
    ensures Joined(frames[..i]) <= Joined(frames)
    decreases |frames| - i
  {
    if i == |frames| {
      assert frames[..i] == frames;
    } else {
      hide Joined;
      JoinedNext(frames, i);
      JoinedPrefix(frames, i + 1);
    }
  }

  /** Such a section passes every check on its tables. */
  lemma SectionIsOk(w: nat, resetInterval: nat, frames: seq<FrameData>)
    requires FramesFit(frames) && w < 32 && resetInterval > 0
    ensures SectionOk(SectionOf(w, resetInterval, frames))
  {
    hide Joined;
    var s := SectionOf(w, resetInterval, frames);
    assert frames[..0] == [];
    assert Joined([]) == [] by { NothingJoined(); }
    forall j | 0 < j < |frames|
      ensures s.resetTable[j - 1] < s.resetTable[j]
    {
      JoinedNext(frames, j - 1);
    }
    JoinedPrefix(frames, |frames| - 1);
  }

  lemma NothingJoined()
    ensures Joined([]) == []
  {
  }

  lemma SizeIsStored(w: nat, resetInterval: nat, frames: seq<FrameData>, i: nat)
    requires FramesFit(frames) && i < |frames|
    ensures SizeOfFrame(SectionOf(w, resetInterval, frames), i) == frames[i].size
  {
    hide Joined;
  }

  lemma BytesAreStored(frames: seq<FrameData>, i: nat)
    requires i < |frames|
    ensures |Joined(frames[..i])| + |frames[i].data| == |Joined(frames[..i + 1])|
    ensures BaseBytes(Joined(frames), |Joined(frames[..i])|, |Joined(frames[..i + 1])|) == frames[i].data
  {
    hide Joined;
    JoinedNext(frames, i);
    JoinedPrefix(frames, i + 1);
  }

  /** The tables that pass are exactly those of frames laid out one after the other. */
  lemma TableOkExactly(table: seq<nat>)
    requires table != []
    ensures TableOk(table) <==>
      exists frames: seq<FrameData> ::
        OffsetsOf(frames) == table && forall i :: 0 <= i < |frames| ==> frames[i].data != []
  {
    hide Joined;
    if TableOk(table) {
      var frames := FramesOfTable(table);
    } else if frames: seq<FrameData> :|
      OffsetsOf(frames) == table && forall i :: 0 <= i < |frames| ==> frames[i].data != []
    {
      OffsetsAscend(frames);
      assert false;
    }
  }

  lemma OffsetsAscend(frames: seq<FrameData>)
    requires forall i :: 0 <= i < |frames| ==> frames[i].data != []
    ensures TableOk(OffsetsOf(frames))
  {
    hide Joined;
    NothingJoined();
    assert frames[..0] == [];
    var table := OffsetsOf(frames);
    forall j | 0 < j < |table|
      ensures table[j - 1] < table[j]
    {
      JoinedNext(frames, j - 1);
    }
  }

  lemma {:induction false} FramesOfTable(table: seq<nat>) returns (frames: seq<FrameData>)
    requires table != [] && TableOk(table)
    ensures OffsetsOf(frames) == table && forall i :: 0 <= i < |frames| ==> frames[i].data != []
  {
    hide Joined;
    NothingJoined();
    var n := |table| - 1;
    if n == 0 {
      frames := [FrameData([0], 1)];
      assert frames[..0] == [];
    } else {
      assert TableOk(table[..n]);
      var front := FramesOfTable(table[..n]);
      var gap := table[n] - table[n - 1];
      var last := FrameData(seq(gap, _ => 0), 1);
      frames := front[..n - 1] + [last, FrameData([0], 1)];
      forall i | 0 <= i < n
        ensures frames[..i] == front[..i]
      {
      }
      JoinedNext(frames, n - 1);
      assert OffsetsOf(front)[n - 1] == table[n - 1];
    }
  }

  /** The reader finds every frame as it was packed. */
  lemma FrameIsStored(w: nat, resetInterval: nat, frames: seq<FrameData>, i: nat)
    requires FramesFit(frames) && w < 32 && resetInterval > 0 && i < |frames|
    ensures SectionOk(SectionOf(w, resetInterval, frames))
    ensures FrameAt(SectionOf(w, resetInterval, frames), Joined(frames), i) == frames[i]
  {
    SectionIsOk(w, resetInterval, frames);
    hide Joined, BaseBytes, SizeOfFrame, SectionOk, FramesFit;
    BytesAreStored(frames, i);
    SizeIsStored(w, resetInterval, frames, i);
    assert frames[..|frames|] == frames;
    FrameAtIs(SectionOf(w, resetInterval, frames), Joined(frames), i);
  }

  lemma {:induction false} FramesAreStored(w: nat, resetInterval: nat, frames: seq<FrameData>, i: nat, end: nat)
    requires FramesFit(frames) && w < 32 && resetInterval > 0 && i <= end <= |frames|
    ensures SectionOk(SectionOf(w, resetInterval, frames))
    ensures FramesOf(SectionOf(w, resetInterval, frames), Joined(frames), i, end) == frames[i..end]
    decreases end - i
  {
    hide Joined, FrameAt;
    SectionIsOk(w, resetInterval, frames);
    if i < end {
      FrameIsStored(w, resetInterval, frames, i);
      FramesAreStored(w, resetInterval, frames, i + 1, end);
      assert frames[i..end] == [frames[i]] + frames[i + 1..end];
    }
  }

  // ---------- intervals ----------

  predicate AllFull(frames: seq<Frame>)
  {
    forall f <- frames :: f.size == FRAME_SIZE
  }

  /** Intervals that can stand between resets: only the last one may be short, and its last frame must be. */
  predicate Sendable(w: nat, resetInterval: nat, intervals: seq<seq<Frame>>)
  {
    && intervals != [] && IntervalOk(FreshEnc(SlotNumber(w)), intervals[0], Pow2(w))
    && if |intervals| == 1 then
         var frames := intervals[0];
         && 1 <= |frames| <= resetInterval
         && AllFull(frames[..|frames| - 1]) && 0 < frames[|frames| - 1].size < FRAME_SIZE
       else |intervals[0]| == resetInterval && AllFull(intervals[0]) && Sendable(w, resetInterval, intervals[1..])
  }

  /** All frames of all intervals as they are packed. */
  function AllPacked(w: nat, resetInterval: nat, intervals: seq<seq<Frame>>): seq<FrameData>
    requires Sendable(w, resetInterval, intervals)
  {
    Packed(true, FreshEnc(SlotNumber(w)), intervals[0], Pow2(w)) +
    if |intervals| == 1 then [] else AllPacked(w, resetInterval, intervals[1..])
  }

  lemma FrameHasBits(first: bool, e: Enc, f: Frame)
    requires FrameOk(e, f) && f.size > 0
    ensures ToBytes(FrameBits(first, e, f)) != []
  {
    hide HeaderOk, TreesAfter, ShiftAll, Expand;
    assert PieceBits(e, f.pieces[0]) != [];
  }

  lemma {:induction false} PackedIs(first: bool, e: Enc, frames: seq<Frame>, capacity: nat, i: nat)
    requires IntervalOk(e, frames, capacity) && i < |frames|
    ensures |Packed(first, e, frames, capacity)| == |frames|
    ensures
      var p := Packed(first, e, frames, capacity)[i];
      p.size == frames[i].size && (p.size > 0 ==> p.data != [])
    decreases frames
  {
    hide FrameOk, FrameBits, ToBytes, AfterFrame;
    if i == 0 {
      if frames[0].size > 0 {
        FrameHasBits(first, e, frames[0]);
      }
      if |frames| > 1 {
        PackedIs(false, AfterFrame(e, frames[0]), frames[1..], capacity, 0);
      }
    } else {
      PackedIs(false, AfterFrame(e, frames[0]), frames[1..], capacity, i - 1);
    }
  }

  lemma PackedFits(w: nat, frames: seq<Frame>, i: nat)
    requires IntervalOk(FreshEnc(SlotNumber(w)), frames, Pow2(w)) && i < |frames| && frames[i].size > 0
    ensures
      var p := Packed(true, FreshEnc(SlotNumber(w)), frames, Pow2(w));
      |p| == |frames| && p[i].size == frames[i].size && p[i].data != []
  {
    PackedIs(true, FreshEnc(SlotNumber(w)), frames, Pow2(w), i);
  }

  lemma FullAt(frames: seq<Frame>, n: nat, i: nat)
    requires i < n <= |frames| && AllFull(frames[..n])
    ensures frames[i].size == FRAME_SIZE
  {
    assert frames[..n][i] in frames[..n];
  }

  /** The frames of the first interval come first. */
  lemma FirstPacked(w: nat, resetInterval: nat, intervals: seq<seq<Frame>>)
    requires Sendable(w, resetInterval, intervals) && resetInterval > 0
    ensures intervals != [] && IntervalOk(FreshEnc(SlotNumber(w)), intervals[0], Pow2(w))
    ensures
      var p, frames := Packed(true, FreshEnc(SlotNumber(w)), intervals[0], Pow2(w)), intervals[0];
      && |p| == |frames| <= resetInterval && p != []
      && (forall i :: 0 <= i < |p| ==> p[i].data != [])
      && (forall i :: 0 <= i < |p| - 1 ==> p[i].size == FRAME_SIZE)
      && if |intervals| == 1 then
           0 < p[|p| - 1].size < FRAME_SIZE && AllPacked(w, resetInterval, intervals) == p
         else
           && p[|p| - 1].size == FRAME_SIZE && |p| == resetInterval && Sendable(w, resetInterval, intervals[1..])
           && AllPacked(w, resetInterval, intervals) == p + AllPacked(w, resetInterval, intervals[1..])
  {
    hide IntervalOk, Packed, SlotNumber, Pow2, AllFull;
    var frames := intervals[0];
    var p := Packed(true, FreshEnc(SlotNumber(w)), frames, Pow2(w));
    var full := if |intervals| == 1 then |frames| - 1 else |frames|;
    assert frames[..|frames|] == frames;
    PackedIs(true, FreshEnc(SlotNumber(w)), frames, Pow2(w), 0);
    forall i | 0 <= i < |frames|
      ensures p[i].size == frames[i].size && p[i].data != []
      ensures i < full ==> p[i].size == FRAME_SIZE
    {
      if i < full {
        FullAt(frames, full, i);
      }
      PackedFits(w, frames, i);
    }
    assert p + [] == p;
  }

  lemma {:induction false} AllPackedFits(w: nat, resetInterval: nat, intervals: seq<seq<Frame>>)
    requires Sendable(w, resetInterval, intervals) && resetInterval > 0
    ensures FramesFit(AllPacked(w, resetInterval, intervals))
    decreases |intervals|
  {
    hide IntervalOk, Packed, SlotNumber, Pow2, Sendable, AllPacked;
    FirstPacked(w, resetInterval, intervals);
    if |intervals| != 1 {
      AllPackedFits(w, resetInterval, intervals[1..]);
    }
  }

  lemma FirstStored(s: SectionInfo, base: seq<Byte>, i: nat, end: nat, intervals: seq<seq<Frame>>)
    requires SectionOk(s) && i < end <= |s.resetTable| && end == Min(i + s.resetInterval, |s.resetTable|)
    requires intervals != []
    requires IntervalOk(FreshEnc(SlotNumber(s.windowSizeIndex)), intervals[0], Pow2(s.windowSizeIndex))
    requires
      FramesOf(s, base, i, end) ==
      Packed(true, FreshEnc(SlotNumber(s.windowSizeIndex)), intervals[0], Pow2(s.windowSizeIndex))
    requires if |intervals| == 1 then end == |s.resetTable| else CompressedFrom(s, base, end, intervals[1..])
    ensures CompressedFrom(s, base, i, intervals)
  {
    hide IntervalOk, Packed, SlotNumber, Pow2, SectionOk, FramesOf;
  }

  /** Laid out as a section, the intervals are there to be read. */
  lemma {:induction false} LaidOut(
    w: nat, resetInterval: nat, frames: seq<FrameData>, i: nat, intervals: seq<seq<Frame>>)
    requires FramesFit(frames) && w < 32 && resetInterval > 0 && i <= |frames|
    requires Sendable(w, resetInterval, intervals) && frames[i..] == AllPacked(w, resetInterval, intervals)
    ensures SectionOk(SectionOf(w, resetInterval, frames))
    ensures CompressedFrom(SectionOf(w, resetInterval, frames), Joined(frames), i, intervals)
    decreases |intervals|
  {
    hide Joined, IntervalOk, Packed, FramesOf, FramesFit, SlotNumber, Pow2, SectionOk, Sendable, AllPacked,
      CompressedFrom, FreshEnc;
    SectionIsOk(w, resetInterval, frames);
    FirstPacked(w, resetInterval, intervals);
    var p := Packed(true, FreshEnc(SlotNumber(w)), intervals[0], Pow2(w));
    var end := i + |p|;
    assert frames[i..end] == frames[i..][..|p|] == p;
    if |intervals| != 1 {
      assert frames[end..] == frames[i..][|p|..] == AllPacked(w, resetInterval, intervals[1..]);
      LaidOut(w, resetInterval, frames, end, intervals[1..]);
    }
    FramesAreStored(w, resetInterval, frames, i, end);
    FirstStored(SectionOf(w, resetInterval, frames), Joined(frames), i, end, intervals);
  }

  /** Main result, with nothing assumed of the stored bytes: intervals laid out as a section are accepted by the
      reader, and any range it is asked for is that range of the tokens' expansion. */
  lemma StoredIsReadBack(w: nat, resetInterval: nat, intervals: seq<seq<Frame>>, offset: nat, size: nat)
    requires w < 32 && resetInterval > 0 && Sendable(w, resetInterval, intervals) && size > 0
    ensures AllPacked(w, resetInterval, intervals) != []
    ensures forall k :: 0 <= k < |intervals| ==> AllInReach(0, FramesTokens(intervals[k]))
    ensures
      var frames := AllPacked(w, resetInterval, intervals);
      var s, base := SectionOf(w, resetInterval, frames), Joined(frames);
      && SectionOk(s) && WellFormed(s, base) && Content(s, base) == Expansion(intervals)
      && |Expansion(intervals)| == s.uncompressedSize
      && (offset + size <= |Expansion(intervals)| ==>
            && StartIndex(s, offset) <= |s.resetTable|
            && Delivered(s, base, offset, size) == Expansion(intervals)[offset..offset + size])
  {
    hide Joined, Sendable, AllPacked, WellFormed, Content, Expansion, Delivered, StartIndex, CompressedFrom,
      FramesTokens, AllInReach;
    AllPackedFits(w, resetInterval, intervals);
    var frames := AllPacked(w, resetInterval, intervals);
    assert frames[0..] == frames;
    LaidOut(w, resetInterval, frames, 0, intervals);
    var s, base := SectionOf(w, resetInterval, frames), Joined(frames);
    ReadBackAnywhere(s, base, intervals, offset, size);
    ContentSize(s, base);
  }

  /** The same through the stream: a range of what was laid out, read in pieces of any sizes, is joined again its part
      of the expansion. A range beyond the end is not asked for. */
  method ReadStored(w: nat, resetInterval: nat, intervals: seq<seq<Frame>>, offset: nat, size: nat, sizes: seq<nat>)
    returns (data: seq<Byte>)
    requires w < 32 && resetInterval > 0 && Sendable(w, resetInterval, intervals) && size > 0
    ensures forall k :: 0 <= k < |intervals| ==> AllInReach(0, FramesTokens(intervals[k]))
    ensures offset + size <= |Expansion(intervals)| ==>
      data == CHMInputStream.Take(Expansion(intervals)[offset..offset + size], Sum(sizes))
  {
    hide Joined, Sendable, AllPacked, WellFormed, Content, Expansion, Delivered, StartIndex, FramesTokens, AllInReach,
      SectionOk;
    StoredIsReadBack(w, resetInterval, intervals, offset, size);
    var frames := AllPacked(w, resetInterval, intervals);
    var section := SectionOf(w, resetInterval, frames);
    data := [];
    if offset + size <= section.uncompressedSize {
      data := ReadEntry(Joined(frames), section, offset, size, sizes);
    }
  }

  // ---------- every content ----------

  /** Some bytes as a frame of their own. */
  lemma FrameOfBytes(w: nat, bytes: seq<Byte>) returns (frame: Frame)
    requires 15 <= w <= 21 && 0 < |bytes| <= FRAME_SIZE
    ensures IntervalOk(FreshEnc(SlotNumber(w)), [frame], Pow2(w)) && frame.size == |bytes|
    ensures AllInReach(0, FramesTokens([frame])) && Expand([], FramesTokens([frame])) == bytes
  {
    hide IntervalOk, AllInReach, Expand, FramesTokens, Literals, SlotNumber, Size;
    LiteralsExpand([], bytes);
    assert Pow2(5) == 32;
    Pow2Add(5, 5);
    Pow2Add(10, 5);
    Pow2Monotone(15, w);
    hide Pow2;
    frame := EveryTokenListIsEncodable(w, Literals(bytes));
    assert [] + bytes == bytes;
  }

  /** Content that does not end with a full frame, sent in frames with a reset before each. */
  lemma {:induction false} SendContent(w: nat, content: seq<Byte>) returns (intervals: seq<seq<Frame>>)
    requires 15 <= w <= 21 && |content| % FRAME_SIZE != 0
    ensures Sendable(w, 1, intervals)
    ensures forall k :: 0 <= k < |intervals| ==> AllInReach(0, FramesTokens(intervals[k]))
    ensures Expansion(intervals) == content
    decreases |content|
  {
    hide IntervalOk, AllInReach, Expand, FramesTokens, SlotNumber, Pow2;
    if |content| < FRAME_SIZE {
      var frame := FrameOfBytes(w, content);
      intervals := [[frame]];
      assert [frame][..0] == [] && intervals[1..] == [];
      assert content + [] == content;
    } else {
      var first, rest := content[..FRAME_SIZE], content[FRAME_SIZE..];
      var frame := FrameOfBytes(w, first);
      var others := SendContent(w, rest);
      intervals := [[frame]] + others;
      assert intervals[1..] == others;
      assert content == first + rest;
    }
  }

  /** Which contents can be stored at all: just those that do not end with a full frame and do not need too many. */
  lemma StorableExactly(w: nat, content: seq<Byte>)
    requires 15 <= w <= 21
    ensures
      (exists s: SectionInfo, base: seq<Byte> ::
         && SectionOk(s) && |s.resetTable| <= MAX_FRAMES
         && s.windowSizeIndex == w && s.uncompressedSize == |content|
         && WellFormed(s, base) && Content(s, base) == content) <==>
      |content| % 32768 != 0 && |content| <= 2048 * 32768
  {
    hide Joined, Sendable, AllPacked, WellFormed, Content, Expansion, Delivered, TableOk;
    if |content| % FRAME_SIZE != 0 && |content| <= MAX_FRAMES * FRAME_SIZE {
      var intervals := SendContent(w, content);
      StoredIsReadBack(w, 1, intervals, 0, 1);
      var frames := AllPacked(w, 1, intervals);
      var s, base := SectionOf(w, 1, frames), Joined(frames);
      assert Content(s, base) == content;
    } else if s: SectionInfo, base: seq<Byte> :|
      && SectionOk(s) && |s.resetTable| <= MAX_FRAMES && s.uncompressedSize == |content|
      && WellFormed(s, base) && Content(s, base) == content
    {
      ContentSize(s, base);
    }
  }
}
