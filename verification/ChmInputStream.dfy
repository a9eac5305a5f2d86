/** The stream that reads a part of a compressed section (CHMFile.h, CHMFile.cpp). */
module ChmInputStreams {
  import opened Bits
  import opened Offsets
  import opened Lzx
  import opened LzxDecompressors
  import opened ChmSection

  class CHMInputStream {
    const section: SectionInfo
    const base: seq<Byte>
    const baseStartIndex: nat
    const bytesToSkip: nat
    const size: nat

    var baseIndex: nat
    var offset: nat
    var doSkip: bool
    var decompressor: LZXDecompressor?
    var outData: seq<Byte>
    var outDataOffset: nat
    var outDataLength: nat

    ghost function Parts(): set<object>
      reads this
    {
      if decompressor == null then {}
      else {decompressor, decompressor.window, decompressor.mainTree, decompressor.lengthTree,
            decompressor.alignedOffsetTree, decompressor.bitStream}
    }

    /** Holds at all times, also after a frame could not be decoded. */
    ghost predicate Sound()
      reads this, Parts()
    {
      && SectionOk(section)
      && (decompressor != null ==>
            && decompressor.Separate() && decompressor.bitStream.Valid()
            && decompressor.slotNumber == SlotNumber(section.windowSizeIndex)
            && decompressor.window.Length == Pow2(section.windowSizeIndex))
    }

    /** The decompressor can go on with the next frame. */
    ghost predicate Primed()
      reads this, Parts()
    {
      && Sound() && decompressor != null && decompressor.Valid()
      && baseIndex <= |section.resetTable|
      && (WellFormed(section, base) ==> ReadyFor(section, base, baseIndex, decompressor.Model()))
    }

    /** The stream is open and no frame has failed. */
    ghost predicate Valid()
      reads this, Parts()
    {
      Primed() && outDataOffset + outDataLength <= |outData|
    }

    /** What the frame buffer and the frames not yet decoded still hold. */
    ghost function Remaining(): seq<Byte>
      requires Valid()
      reads this, Parts()
    {
      outData[outDataOffset..outDataOffset + outDataLength] + ContentFrom(section, base, baseIndex)
    }

    /** What the stream will still deliver. */
    ghost function Pending(): seq<Byte>
      requires Valid()
      reads this, Parts()
    {
      var rest := if doSkip then Skip(Remaining(), bytesToSkip) else Remaining();
      Take(rest, size - offset)
    }

    static function Take(s: seq<Byte>, n: int): (r: seq<Byte>)
    {
      if n < 0 then [] else if n < |s| then s[..n] else s
    }

    static function Skip(s: seq<Byte>, n: nat): seq<Byte>
    {
      if n < |s| then s[n..] else []
    }

    constructor (base: seq<Byte>, section: SectionInfo, offset: nat, size: nat)
      requires SectionOk(section)
      ensures Sound() && this.section == section && this.base == base && this.size == size
      ensures decompressor == null
      ensures baseStartIndex == offset / FRAME_SIZE - offset / FRAME_SIZE % section.resetInterval
      ensures bytesToSkip == offset - baseStartIndex * FRAME_SIZE
    {
      this.base, this.section, this.size := base, section, size;
      var index: nat := offset / FRAME_SIZE;
      index := index - index % section.resetInterval;
      baseStartIndex := index;
      bytesToSkip := offset - index * FRAME_SIZE;
      baseIndex, this.offset, doSkip, decompressor := 0, 0, true, null;
      outData, outDataOffset, outDataLength := [], 0, 0;
    }

    /** A new decompressor, or the old one reset. */
    method RefreshDecompressor(ghost i: nat)
      requires Sound() && i <= |section.resetTable| && i % section.resetInterval == 0
      modifies this`decompressor, Parts()
      ensures Sound() && decompressor != null && decompressor.Valid() && fresh(Parts() - old(Parts()))
      ensures ReadyFor(section, base, i, decompressor.Model())
    {
      hide ResetDecoder, Pow2, SlotNumber;
      if decompressor == null {
        SlotsBounded(section.windowSizeIndex);
        decompressor := new LZXDecompressor(section.windowSizeIndex);
      } else {
        SlotsBounded(section.windowSizeIndex);
        decompressor.Reset();
      }
    }

    method Open()
      requires Sound() && baseStartIndex <= |section.resetTable| && baseStartIndex % section.resetInterval == 0
      modifies this, Parts()
      ensures Valid() && fresh(Parts() - old(Parts())) && offset == 0
      ensures Pending() == Take(Skip(ContentFrom(section, base, baseStartIndex), bytesToSkip), size)
    {
      hide WellFormed, ContentFrom, ReadyFor, LZXDecompressor.WorkingAt, LZXDecompressor.ModelAt,
        LZXDecompressor.Separate, Pow2, SlotNumber, Take, Skip, Remaining;
      offset := 0;
      doSkip := true;
      baseIndex := baseStartIndex;
      RefreshDecompressor(baseStartIndex);
      outDataOffset, outDataLength := 0, 0;
      NothingBuffered();
    }

    lemma NothingBuffered()
      requires Valid() && outDataLength == 0
      ensures Remaining() == ContentFrom(section, base, baseIndex)
    {
      hide WellFormed, ContentFrom, ReadyFor, SectionOk;
    }

    method ResetIfDue()
      requires Sound() && decompressor != null && decompressor.Valid()
      modifies Parts()
      ensures Sound() && decompressor.Valid()
      ensures decompressor.Model() == MaybeReset(section, baseIndex, old(decompressor.Model()))
    {
      hide ReadyFor, WellFormed, Pow2, SlotNumber;
      if baseIndex % section.resetInterval == 0 {
        SlotsBounded(section.windowSizeIndex);
        decompressor.Reset();
      }
    }

    /** What a decompressor makes of a frame of a well-formed section, in whatever state it is. */
    lemma FrameIsGood(i: nat, d: Decoder, inData: seq<Byte>, outSize: nat)
      requires SectionOk(section) && WellFormed(section, base) && i < |section.resetTable|
      requires ReadyFor(section, base, i, d)
      requires FrameAt(section, base, i) == FrameData(inData, outSize) && DecoderOk(d)
      ensures DecoderOk(MaybeReset(section, i, d))
      ensures
        var r := Decompress(MaybeReset(section, i, d), inData, outSize);
        r.Success? && r.value.out == FrameContent(section, base, i) && ReadyFor(section, base, i + 1, r.value.decoder)
    {
      hide Decompress, WellFormed, FrameAt, FrameContent, SlotNumber, ReadyFor, Pow2;
      assert DecoderOk(MaybeReset(section, i, d));
      FrameDecodesAnywhere(section, base, i, d);
    }

    /** Frame `i` has been decoded, with its content when the section is well-formed. */
    ghost predicate FrameDone(i: nat, outcome: Outcome, outSize: nat)
      reads this, Parts()
    {
      hide WellFormed, FrameContent, ReadyFor, LZXDecompressor.WorkingAt, LZXDecompressor.ModelAt, Pow2, SlotNumber;
      && SectionOk(section) && i < |section.resetTable| && Sound() && decompressor != null
      && (outcome.Ok? ==> decompressor.Valid() && |outcome.out| == outSize)
      && (WellFormed(section, base) ==>
            && outcome.Ok? && outcome.out == FrameContent(section, base, i)
            && ReadyFor(section, base, i + 1, decompressor.Model()))
    }

    /** Decode the data of the frame at hand, after a reset if one is due. */
    method DecodeFrame(outSize: nat) returns (outcome: Outcome)
      requires Primed() && baseIndex < |section.resetTable| && outSize == SizeOfFrame(section, baseIndex)
      modifies Parts()
      ensures FrameDone(baseIndex, outcome, outSize)
    {
      hide ReadyFor, Decompress, WellFormed, DecoderOk, MaybeReset, FrameAt, FrameContent, Pow2, SlotNumber,
        LZXDecompressor.WorkingAt, LZXDecompressor.ModelAt, LZXDecompressor.Separate;
      var start := section.resetTable[baseIndex];
      var end :=
        if baseIndex + 1 == |section.resetTable| then section.compressedSize else section.resetTable[baseIndex + 1];
      var inData := BaseBytes(base, start, end);
      FrameAtIs(section, base, baseIndex);
      decompressor.ModelIsOk();
      if WellFormed(section, base) {
        FrameIsGood(baseIndex, decompressor.Model(), inData, outSize);
      }
      ResetIfDue();
      decompressor.ModelIsOk();
      outcome := decompressor.DecompressFrame(inData, outSize);
    }

    /** Decode the next frame into the buffer. */
    method NextFrame() returns (ok: bool)
      requires Valid() && outDataLength == 0 && baseIndex < |section.resetTable|
      modifies this`baseIndex, this`outData, this`outDataOffset, this`outDataLength, Parts()
      ensures Sound()
      ensures ok ==> Valid() && baseIndex == old(baseIndex) + 1
      ensures WellFormed(section, base) ==> ok && Remaining() == old(Remaining())
    {
      hide ReadyFor, WellFormed, FrameContent, Pow2, SlotNumber,
        LZXDecompressor.WorkingAt, LZXDecompressor.ModelAt, LZXDecompressor.Separate;
      var isTail := baseIndex + 1 == |section.resetTable|;
      outDataLength := if isTail then section.uncompressedSize % FRAME_SIZE else FRAME_SIZE;
      outDataOffset := 0;
      var outcome := DecodeFrame(outDataLength);
      baseIndex := baseIndex + 1;
      ok := outcome.Ok?;
      if ok {
        outData := outcome.out;
      }
    }

    /** What the frame buffer has, but not more than `left` bytes. */
    method TakePart(left: nat) returns (part: seq<Byte>)
      requires Valid()
      modifies this`outDataOffset, this`outDataLength
      ensures Valid() && |part| == Min(old(outDataLength), left)
      ensures outDataLength == old(outDataLength) - |part|
      ensures old(Remaining()) == part + Remaining()
    {
      hide WellFormed, ContentFrom, ReadyFor, LZXDecompressor.WorkingAt, LZXDecompressor.ModelAt,
        LZXDecompressor.Separate;
      var partSize := Min(outDataLength, left);
      part := outData[outDataOffset..outDataOffset + partSize];
      outDataLength := outDataLength - partSize;
      outDataOffset := outDataOffset + partSize;
    }

    /** Deliver up to `maxSize` bytes, decoding frames as needed; stop early at the end or at a bad frame. */
    method DoRead(maxSize: nat) returns (data: seq<Byte>, ok: bool)
      requires Valid()
      modifies this`baseIndex, this`outData, this`outDataOffset, this`outDataLength, Parts()
      ensures Sound() && |data| <= maxSize
      ensures ok ==> Valid()
      ensures WellFormed(section, base) ==>
        && ok && data == Take(old(Remaining()), maxSize) && Remaining() == Skip(old(Remaining()), maxSize)
    {
      hide WellFormed, ContentFrom, ReadyFor, SectionOk, Take, Skip, Remaining, Valid, Sound;
      ValidMeans();
      ghost var all := Remaining();
      data, ok := [], true;
      var left: nat := maxSize;
      var first := true;
      while first || left != 0
        invariant Valid() && |data| + left == maxSize && baseIndex <= |section.resetTable|
        invariant WellFormed(section, base) ==> data + Remaining() == all
        decreases first, |section.resetTable| - baseIndex, left
      {
        first := false;
        var atEnd;
        ok, atEnd := FillBuffer();
        if !ok {
          return;
        }
        if atEnd {
          break;
        }
        ghost var before := Remaining();
        var part := TakePart(left);
        assert data + before == data + part + Remaining();
        data := data + part;
        left := left - |part|;
      }
      ValidMeans();
      TakenAndLeft(all, data, Remaining(), maxSize);
    }

    lemma ValidMeans()
      requires Valid()
      ensures Sound() && SectionOk(section) && baseIndex <= |section.resetTable|
    {
    }

    /** Decode the next frame if the buffer is used up. */
    method FillBuffer() returns (ok: bool, atEnd: bool)
      requires Valid()
      modifies this`baseIndex, this`outData, this`outDataOffset, this`outDataLength, Parts()
      ensures Sound() && (ok ==> Valid()) && (atEnd ==> ok && Remaining() == [])
      ensures ok ==> old(baseIndex) <= baseIndex <= |section.resetTable|
      ensures ok && !atEnd && baseIndex == old(baseIndex) ==> outDataLength > 0
      ensures WellFormed(section, base) ==> ok && Remaining() == old(Remaining())
    {
      hide WellFormed, ContentFrom, ReadyFor, SectionOk, Pow2, SlotNumber, LZXDecompressor.WorkingAt,
        LZXDecompressor.ModelAt, LZXDecompressor.Separate;
      ok, atEnd := true, false;
      if outDataLength == 0 {
        if baseIndex >= |section.resetTable| {
          AtTheEnd();
          atEnd := true;
        } else {
          ok := NextFrame();
        }
      }
    }

    lemma AtTheEnd()
      requires Valid() && outDataLength == 0 && baseIndex >= |section.resetTable|
      ensures Remaining() == []
    {
      hide WellFormed, ReadyFor, SectionOk;
      NothingLeft(section, base);
    }

    static lemma TakenAndLeft(all: seq<Byte>, data: seq<Byte>, rest: seq<Byte>, n: nat)
      requires |data| <= n && (|data| == n || rest == [])
      ensures all == data + rest ==> data == Take(all, n) && rest == Skip(all, n)
    {
    }

    method Read(maxSize: nat) returns (data: seq<Byte>, ok: bool)
      requires Valid() && offset <= size
      modifies this`baseIndex, this`outData, this`outDataOffset, this`outDataLength, this`doSkip, this`offset, Parts()
      ensures Sound() && offset <= size && offset == old(offset) + |data|
      ensures ok ==> Valid()
      ensures WellFormed(section, base) ==>
        && ok && data == Take(old(Pending()), maxSize) && Pending() == Skip(old(Pending()), maxSize)
    {
      hide WellFormed, ContentFrom, ReadyFor, LZXDecompressor.WorkingAt, LZXDecompressor.ModelAt,
        LZXDecompressor.Separate, Remaining, Pending;
      data, ok := [], true;
      if doSkip {
        ok := SkipPart();
        if !ok {
          return;
        }
      }
      data, ok := ReadOn(maxSize);
    }

    method ReadOn(maxSize: nat) returns (data: seq<Byte>, ok: bool)
      requires Valid() && offset <= size && !doSkip
      modifies this`baseIndex, this`outData, this`outDataOffset, this`outDataLength, this`offset, Parts()
      ensures Sound() && offset <= size && offset == old(offset) + |data|
      ensures ok ==> Valid()
      ensures WellFormed(section, base) ==>
        && ok && data == Take(old(Pending()), maxSize) && Pending() == Skip(old(Pending()), maxSize)
    {
      hide WellFormed, ContentFrom, ReadyFor, LZXDecompressor.WorkingAt, LZXDecompressor.ModelAt,
        LZXDecompressor.Separate, Take, Skip, Pow2, SlotNumber, SectionOk;
      ghost var rest := Remaining();
      data, ok := DoRead(Min(maxSize, size - offset));
      TakeOfTake(rest, maxSize, size - offset);
      offset := offset + |data|;
    }

    method SkipPart() returns (ok: bool)
      requires Valid() && doSkip
      modifies this`baseIndex, this`outData, this`outDataOffset, this`outDataLength, this`doSkip, Parts()
      ensures Sound() && !doSkip
      ensures ok ==> Valid()
      ensures WellFormed(section, base) ==> ok && Pending() == old(Pending())
    {
      hide WellFormed, ContentFrom, ReadyFor, LZXDecompressor.WorkingAt, LZXDecompressor.ModelAt,
        LZXDecompressor.Separate;
      var data;
      data, ok := DoRead(bytesToSkip);
      doSkip := false;
    }

    /** Forward, `seek` reads and forgets. Backward, it opens the stream again, which sets the offset to 0 before
        the way to go is computed from it; so it always ends at the start. */
    method Seek(target: int, absolute: bool) returns (ok: bool)
      requires Valid() && offset <= size
      requires baseStartIndex <= |section.resetTable| && baseStartIndex % section.resetInterval == 0
      modifies this, Parts()
      ensures Sound() && offset <= size && (ok ==> Valid())
      ensures
        var way := if absolute then target - old(offset) else target;
        WellFormed(section, base) ==>
          && ok && offset == (if way >= 0 then old(offset) + |Take(old(Pending()), way)| else 0)
          && Pending() == if way >= 0 then Skip(old(Pending()), way)
                          else Take(Skip(ContentFrom(section, base, baseStartIndex), bytesToSkip), size)
    {
      hide WellFormed, ContentFrom, ReadyFor, SectionOk, Pow2, SlotNumber, Remaining, Pending,
        LZXDecompressor.WorkingAt,
        LZXDecompressor.ModelAt, LZXDecompressor.Separate;
      ok := true;
      var way := if absolute then target - offset else target;
      if way > 0 {
        var _, read := Read(way);
        ok := read;
      } else if way < 0 {
        Open();
        var _, read := Read(if way + offset > 0 then way + offset else 0);
        ok := read;
      }
    }

    /** Reading at most `max` of the `size` bytes that may still be delivered. */
    static lemma TakeOfTake(rest: seq<Byte>, max: nat, size: nat)
      ensures
        var n := Min(max, size);
        && Take(rest, n) == Take(Take(rest, size), max)
        && Take(Skip(rest, n), size - |Take(rest, n)|) == Skip(Take(rest, size), max)
    {
    }
  }

  lemma NothingLeft(section: SectionInfo, base: seq<Byte>)
    requires SectionOk(section)
    ensures ContentFrom(section, base, |section.resetTable|) == []
  {
  }

  lemma SlotsBounded(windowSizeIndex: nat)
    requires windowSizeIndex < 32
    ensures 8 * SlotNumber(windowSizeIndex) + LITERALS <= 0xFFFF
  {
  }
}
