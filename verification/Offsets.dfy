/** Position slots: how match offsets are split into a slot number and footer bits. */
module Offsets {
  import opened Bits

  const LAST_SLOT: nat := 50

  function SlotNumber(windowSizeIndex: nat): nat
  {
    if windowSizeIndex == 20 then 42 else if windowSizeIndex == 21 then 50 else 2 * windowSizeIndex
  }

  function FooterBits(slot: nat): nat
  {
    var half: int := slot / 2 - 1;
    if half < 0 then 0 else if half > 17 then 17 else half
  }

  /** Where each slot begins. */
  function Base(slot: nat): nat
    requires slot <= LAST_SLOT
  {
    match slot
    case 0 => 0 case 1 => 1 case 2 => 2 case 3 => 3
    case 4 => 4 case 5 => 6 case 6 => 8 case 7 => 12
    case 8 => 16 case 9 => 24 case 10 => 32 case 11 => 48
    case 12 => 64 case 13 => 96 case 14 => 128 case 15 => 192
    case 16 => 256 case 17 => 384 case 18 => 512 case 19 => 768
    case 20 => 1024 case 21 => 1536 case 22 => 2048 case 23 => 3072
    case 24 => 4096 case 25 => 6144 case 26 => 8192 case 27 => 12288
    case 28 => 16384 case 29 => 24576 case 30 => 32768 case 31 => 49152
    case 32 => 65536 case 33 => 98304 case 34 => 131072 case 35 => 196608
    case 36 => 262144 case 37 => 393216 case 38 => 524288 case 39 => 655360
    case 40 => 786432 case 41 => 917504 case 42 => 1048576 case 43 => 1179648
    case 44 => 1310720 case 45 => 1441792 case 46 => 1572864 case 47 => 1703936
    case 48 => 1835008 case 49 => 1966080 case _ => 2097152
  }

  /** The range of a slot ends where the next slot's begins. */
  lemma SlotRange(s: nat)
    requires s < LAST_SLOT
    ensures Base(s + 1) == Base(s) + Pow2(FooterBits(s))
  {
    SmallPowers();
    hide Pow2;
    if s < 25 {
    } else {
    }
  }

  lemma BaseEnds()
    ensures Base(0) == 0 && Base(FIRST_SLOT) == 3 && Base(LAST_SLOT) == 2097152
  {
  }

  lemma SmallPowers()
    ensures Pow2(0) == 1 && Pow2(1) == 2 && Pow2(2) == 4 && Pow2(3) == 8 && Pow2(4) == 16 && Pow2(5) == 32
    ensures Pow2(6) == 64 && Pow2(7) == 128 && Pow2(8) == 256 && Pow2(9) == 512 && Pow2(10) == 1024
    ensures Pow2(11) == 2048 && Pow2(12) == 4096 && Pow2(13) == 8192 && Pow2(14) == 16384
    ensures Pow2(15) == 32768 && Pow2(16) == 65536 && Pow2(17) == 131072
  {
  }

  /** The slots of a window end exactly at the window size. */
  lemma SlotsCoverWindow(windowSizeIndex: nat)
    requires 15 <= windowSizeIndex <= 21
    ensures SlotNumber(windowSizeIndex) <= LAST_SLOT
    ensures Base(SlotNumber(windowSizeIndex)) == Pow2(windowSizeIndex)
  {
    SmallPowers();
    assert Pow2(18) == 262144 && Pow2(19) == 524288 && Pow2(20) == 1048576 && Pow2(21) == 2097152;
  }

  // ---------- splitting and joining ----------

  /** Offsets are sent increased by two, so the smallest explicit one falls into slot 3. */
  const FIRST_SLOT: nat := 3

  /** The offset that slot `s` and footer `extra` stand for. */
  function JoinOffset(s: nat, extra: nat): (offset: nat)
    requires FIRST_SLOT <= s <= LAST_SLOT
    ensures offset == Base(s) - 2 + extra >= 1 + extra
  {
    BaseEnds();
    BaseIncreasing(FIRST_SLOT, s);
    Base(s) - 2 + extra
  }

  lemma {:induction false} BaseIncreasing(s: nat, t: nat)
    requires s <= t <= LAST_SLOT
    ensures Base(s) + (t - s) <= Base(t)
    decreases t
  {
    hide Base, FooterBits;
    if s < t {
      BaseIncreasing(s, t - 1);
      SlotRange(t - 1);
    }
  }

  /** The slot an increased offset falls into, searched upwards from `s`. */
  function SlotFrom(v: nat, s: nat): (t: nat)
    requires s < LAST_SLOT
    ensures s <= t < LAST_SLOT
    decreases LAST_SLOT - s
  {
    if s + 1 == LAST_SLOT || v < Base(s + 1) then s else SlotFrom(v, s + 1)
  }

  lemma {:induction false} SlotFromRange(v: nat, s: nat)
    requires s < LAST_SLOT && Base(s) <= v < Base(LAST_SLOT)
    ensures Base(SlotFrom(v, s)) <= v < Base(SlotFrom(v, s) + 1)
    decreases LAST_SLOT - s
  {
    hide Base;
    if s + 1 != LAST_SLOT && v >= Base(s + 1) {
      SlotFromRange(v, s + 1);
    }
  }

  predicate Explicit(offset: nat)
  {
    1 <= offset && offset + 2 < Base(LAST_SLOT)
  }

  function SlotOf(offset: nat): (s: nat)
    ensures FIRST_SLOT <= s < LAST_SLOT
  {
    SlotFrom(offset + 2, FIRST_SLOT)
  }

  lemma SlotOfRange(offset: nat)
    requires Explicit(offset)
    ensures Base(SlotOf(offset)) <= offset + 2 < Base(SlotOf(offset) + 1)
  {
    BaseEnds();
    hide Base;
    SlotFromRange(offset + 2, FIRST_SLOT);
  }

  function FooterOf(offset: nat): (extra: nat)
    requires Explicit(offset)
  {
    SlotOfRange(offset);
    offset + 2 - Base(SlotOf(offset))
  }

  lemma FooterFits(offset: nat)
    requires Explicit(offset)
    ensures FooterOf(offset) < Pow2(FooterBits(SlotOf(offset)))
  {
    hide Base, SlotOf, FooterBits, Pow2;
    SlotOfRange(offset);
    SlotRange(SlotOf(offset));
  }

  /** Slot and footer determine the offset, and every slot and footer are those of one offset. */
  lemma SplitIsBijective(offset: nat, s: nat, extra: nat)
    requires FIRST_SLOT <= s < LAST_SLOT && extra < Pow2(FooterBits(s))
    ensures Explicit(offset) && SlotOf(offset) == s && FooterOf(offset) == extra <==> offset == JoinOffset(s, extra)
  {
    hide Base, FooterBits, SlotOf, Pow2;
    SlotRange(s);
    BaseIncreasing(s + 1, LAST_SLOT);
    if offset == JoinOffset(s, extra) {
      SlotOfRange(offset);
      var t := SlotOf(offset);
      if t < s {
        BaseIncreasing(t + 1, s);
      } else if s < t {
        BaseIncreasing(s + 1, t);
      }
    }
  }

  /** An explicit offset has a slot of the window exactly when it is at most the window size less three. */
  lemma WindowSlots(windowSizeIndex: nat, offset: nat)
    requires 15 <= windowSizeIndex <= 21 && offset >= 1
    ensures Explicit(offset) && SlotOf(offset) < SlotNumber(windowSizeIndex) <==> offset <= Pow2(windowSizeIndex) - 3
  {
    hide Base, SlotOf, SlotNumber, Pow2;
    SlotsCoverWindow(windowSizeIndex);
    var slots := SlotNumber(windowSizeIndex);
    BaseIncreasing(slots, LAST_SLOT);
    if Explicit(offset) {
      SlotOfRange(offset);
      var s := SlotOf(offset);
      if s < slots {
        BaseIncreasing(s + 1, slots);
      } else {
        BaseIncreasing(slots, s);
      }
    }
  }
}
