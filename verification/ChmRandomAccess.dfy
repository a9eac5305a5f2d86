/** Reading a part of a section at random equals cutting it out of the whole, and what was compressed is read back. */
module ChmRandomAccess {
  import opened Bits
  import opened ChmSection
  import opened ChmInputStreams

  // ---------- resets ----------

  /** A multiple of `d` strictly between `-d` and `d` is zero. */
  lemma MulBetween(k: int, d: int)
    requires d > 0 && -d < k * d < d
    ensures k == 0
  {
  }

  lemma ModOf(x: nat, q: nat, r: nat)
    requires r > 0 && x == q * r
    ensures x % r == 0
  {
    var k, m := x / r, x % r;
    assert x == k * r + m;
    Difference(q, k, r);
    MulBetween(q - k, r);
  }

  lemma Difference(a: nat, b: nat, r: nat)
    ensures (a - b) * r == a * r - b * r
  {
  }

  lemma AtReset(i: nat, r: nat)
    requires r > 0
    ensures i % r <= i && (i - i % r) % r == 0 && (i % r == 0 ==> (i + r) % r == 0)
  {
    var q := i / r;
    assert i == q * r + i % r;
    assert q * r >= 0 by { MulMonotone(0, q, r); }
    ModOf(i - i % r, q, r);
    if i % r == 0 {
      Difference(q + 1, q, r);
      ModOf(i + r, q + 1, r);
    }
  }

  lemma BetweenResets(i: nat, r: nat, j: nat)
    requires r > 0 && i % r == 0 && i < j < i + r
    ensures j % r != 0
  {
    if j % r == 0 {
      var a, b := j / r, i / r;
      assert j == a * r && i == b * r;
      Difference(a, b, r);
      MulBetween(a - b, r);
    }
  }

  // ---------- random access ----------

  /** Where a stream for byte `offset` starts decoding. */
  function StartIndex(s: SectionInfo, offset: nat): (i: nat)
    requires s.resetInterval > 0
  {
    var index := offset / FRAME_SIZE;
    AtReset(index, s.resetInterval);
    index - index % s.resetInterval
  }

  /** What a stream opened for `size` bytes at `offset` will deliver. */
  function Delivered(s: SectionInfo, base: seq<Byte>, offset: nat, size: nat): seq<Byte>
    requires SectionOk(s) && StartIndex(s, offset) <= |s.resetTable|
  {
    var i := StartIndex(s, offset);
    CHMInputStream.Take(CHMInputStream.Skip(ContentFrom(s, base, i), offset - i * FRAME_SIZE), size)
  }

  lemma StartIndexInTable(s: SectionInfo, offset: nat)
    requires SectionOk(s) && offset < s.uncompressedSize
    ensures StartIndex(s, offset) < |s.resetTable| && StartIndex(s, offset) % s.resetInterval == 0
    ensures StartIndex(s, offset) * FRAME_SIZE <= offset
  {
    AtReset(offset / FRAME_SIZE, s.resetInterval);
  }

  lemma SkipOfDrop(c: seq<Byte>, start: nat, offset: nat)
    requires start <= offset && start <= |c|
    ensures CHMInputStream.Skip(c[start..], offset - start) == CHMInputStream.Skip(c, offset)
  {
  }

  /** Starting at a reset and skipping is the same as cutting the whole section. */
  lemma DeliveredIsCut(s: SectionInfo, base: seq<Byte>, offset: nat, size: nat)
    requires SectionOk(s) && WellFormed(s, base) && offset < s.uncompressedSize
    ensures StartIndex(s, offset) <= |s.resetTable|
    ensures Delivered(s, base, offset, size) == CHMInputStream.Take(CHMInputStream.Skip(Content(s, base), offset), size)
  {
    hide WellFormed, ContentFrom, Content, CHMInputStream.Take, CHMInputStream.Skip;
    StartIndexInTable(s, offset);
    var i := StartIndex(s, offset);
    ContentAtFrame(s, base, i);
    SkipOfDrop(Content(s, base), i * FRAME_SIZE, offset);
  }

  /** Main result: a range inside the content is delivered as it stands in the whole decompressed section. */
  lemma RandomAccess(s: SectionInfo, base: seq<Byte>, offset: nat, size: nat)
    requires SectionOk(s) && WellFormed(s, base)
    requires size > 0 && offset + size <= |Content(s, base)|
    ensures StartIndex(s, offset) <= |s.resetTable|
    ensures Delivered(s, base, offset, size) == Content(s, base)[offset..offset + size]
  {
    hide WellFormed, Content, Delivered, StartIndex;
    ContentSize(s, base);
    DeliveredIsCut(s, base, offset, size);
  }

  /** Of the ranges the directory may name, exactly those are delivered in full that do not need the last frame
      of a section whose size is a multiple of the frame size. */
  lemma DeliveredInFull(s: SectionInfo, base: seq<Byte>, offset: nat, size: nat)
    requires SectionOk(s) && WellFormed(s, base)
    requires size > 0 && offset + size <= s.uncompressedSize
    ensures StartIndex(s, offset) <= |s.resetTable|
    ensures
      |Delivered(s, base, offset, size)| == size <==>
      s.uncompressedSize % FRAME_SIZE != 0 || offset + size <= s.uncompressedSize - FRAME_SIZE
  {
    hide WellFormed, Content, Delivered, StartIndex;
    ContentSize(s, base);
    DeliveredIsCut(s, base, offset, size);
  }

  /** So nothing is delivered of a section that announces just one full frame. */
  lemma FullLastFrameIsNotDelivered(base: seq<Byte>)
    ensures SectionOk(OneFullFrame) && WellFormed(OneFullFrame, base) && StartIndex(OneFullFrame, 0) == 0
    ensures Delivered(OneFullFrame, base, 0, OneFullFrame.uncompressedSize) == []
  {
    hide WellFormed, Content, Delivered;
    FullLastFrameIsLost(base);
    DeliveredIsCut(OneFullFrame, base, 0, OneFullFrame.uncompressedSize);
  }

  // ---------- any partition of the reads ----------

  function Sum(sizes: seq<nat>): nat
  {
    if sizes == [] then 0 else sizes[0] + Sum(sizes[1..])
  }

  /** Open a part of the section and read it in pieces of any sizes: joined, they are its first bytes. */
  method ReadEntry(base: seq<Byte>, section: SectionInfo, offset: nat, size: nat, sizes: seq<nat>)
    returns (data: seq<Byte>)
    requires SectionOk(section) && size > 0 && offset + size <= section.uncompressedSize
    ensures WellFormed(section, base) && offset + size <= |Content(section, base)| ==>
      data == CHMInputStream.Take(Content(section, base)[offset..offset + size], Sum(sizes))
  {
    hide SectionOk, WellFormed, ContentFrom, CHMInputStream.Valid, CHMInputStream.Sound, CHMInputStream.Pending;
    StartIndexInTable(section, offset);
    var stream := new CHMInputStream(base, section, offset, size);
    stream.Open();
    data := ReadParts(stream, sizes);
    if WellFormed(section, base) && offset + size <= |Content(section, base)| {
      RandomAccess(section, base, offset, size);
    }
  }

  method ReadParts(stream: CHMInputStream, sizes: seq<nat>) returns (data: seq<Byte>)
    requires stream.Valid() && stream.offset <= stream.size
    modifies stream, stream.Parts()
    ensures WellFormed(stream.section, stream.base) ==>
      data == CHMInputStream.Take(old(stream.Pending()), Sum(sizes))
    decreases sizes
  {
    hide WellFormed, CHMInputStream.Valid, CHMInputStream.Pending;
    if sizes == [] {
      return [];
    }
    ghost var pending := stream.Pending();
    var ok;
    data, ok := stream.Read(sizes[0]);
    if ok {
      var more := ReadParts(stream, sizes[1..]);
      data := data + more;
      if WellFormed(stream.section, stream.base) {
        TakeInParts(pending, sizes[0], Sum(sizes[1..]));
      }
    }
  }

  lemma TakeInParts(s: seq<Byte>, a: nat, b: nat)
    ensures
      CHMInputStream.Take(s, a) + CHMInputStream.Take(CHMInputStream.Skip(s, a), b) == CHMInputStream.Take(s, a + b)
  {
  }

  // ---------- seeking ----------

  /** What is left to deliver after a seek to `target` from place `offset` of an entry. */
  function AfterSeek(entry: seq<Byte>, offset: nat, target: nat): seq<Byte>
  {
    if target >= offset then CHMInputStream.Skip(CHMInputStream.Skip(entry, offset), target - offset) else entry
  }

  /** A seek inside an entry arrives at its target exactly when it goes forward or to the start. */
  lemma SeekArrivesExactly(entry: seq<Byte>, offset: nat, target: nat)
    requires offset <= |entry| && target <= |entry|
    ensures AfterSeek(entry, offset, target) == CHMInputStream.Skip(entry, target) <==> target >= offset || target == 0
  {
    if target < offset && target > 0 {
      assert |CHMInputStream.Skip(entry, target)| < |entry|;
    }
  }

  /** So a seek back to the second byte of three ends at the first. */
  lemma BackwardSeekMisses()
    ensures AfterSeek([1, 2, 3], 2, 1) == [1, 2, 3] && CHMInputStream.Skip([1, 2, 3], 1) == [2, 3]
  {
    assert [1, 2, 3][1..] == [2, 3];
  }

  /** Read some bytes of an entry, then seek: what is left is given by the two places alone, and it is what stands
      behind the target exactly when the seek goes forward or to the start. */
  method ReadThenSeek(base: seq<Byte>, section: SectionInfo, offset: nat, size: nat, first: nat, target: nat)
    returns (ok: bool, stream: CHMInputStream)
    requires SectionOk(section) && size > 0 && offset + size <= section.uncompressedSize && first <= size
    ensures ok ==> stream.Valid() && stream.section == section && stream.base == base
    ensures WellFormed(section, base) && offset + size <= |Content(section, base)| ==>
      var entry := Content(section, base)[offset..offset + size];
      && ok && stream.Pending() == AfterSeek(entry, first, target)
      && (target <= size ==>
            (stream.Pending() == CHMInputStream.Skip(entry, target) <==> target >= first || target == 0))
  {
    hide SectionOk, WellFormed, ContentFrom, Content, CHMInputStream.Sound, CHMInputStream.Pending,
      CHMInputStream.Primed;
    StartIndexInTable(section, offset);
    stream := new CHMInputStream(base, section, offset, size);
    stream.Open();
    var data;
    data, ok := stream.Read(first);
    if ok {
      ok := stream.Seek(target, true);
    }
    if WellFormed(section, base) && offset + size <= |Content(section, base)| {
      RandomAccess(section, base, offset, size);
      if target <= size {
        SeekArrivesExactly(Content(section, base)[offset..offset + size], first, target);
      }
    }
  }
}
