/** Code lengths sent as differences to the previous block's lengths, under a small prefix code of their own. */
module CodeLengths {
  import opened Bits
  import opened BitReading
  import opened HuffmanCodes

  const PRE_TREE_SIZE: nat := 20
  const PRE_LENGTH_BITS: nat := 4
  const SHORT_ZEROS: nat := 17
  const LONG_ZEROS: nat := 18
  const SAME_RUN: nat := 19

  /** `Overrun`: a run has gone past the wanted range and the reader stands at the end of the vector,
      where the program's iterator may not be dereferenced. */
  datatype Lengths = Read(lengths: seq<Byte>, rest: seq<bool>) | Rejected | Overrun

  // ---------- reading ----------

  /** An old length minus a symbol, wrapped around 17 and stored in an unsigned byte. */
  function Difference(old_: Byte, symbol: nat): Byte
  {
    var z: int := old_ - symbol;
    (if z < 0 then z + 17 else z) % 256
  }

  function Splice(lengths: seq<Byte>, it: nat, values: seq<Byte>): (r: seq<Byte>)
    requires it + |values| <= |lengths|
    ensures |r| == |lengths|
  {
    lengths[..it] + values + lengths[it + |values|..]
  }

  function Same(value: Byte, n: nat): (r: seq<Byte>)
    ensures |r| == n
  {
    seq(n, _ => value)
  }

  function Extend(lengths: seq<Byte>, size: nat): (r: seq<Byte>)
    ensures |r| >= size
  {
    if |lengths| < size then lengths + Same(0, size - |lengths|) else lengths
  }

  /** `n` numbers of `width` bits each. */
  function ReadFixed(b: seq<bool>, width: nat, n: nat): (r: (seq<Byte>, seq<bool>))
    requires width <= 8
    ensures |r.0| == n && |r.1| <= |b|
  {
    if n == 0 then ([], b)
    else
      var (numbers, b1) := ReadFixed(b, width, n - 1);
      (numbers + [ReadSmall(b1, width)], GetRest(b1, width))
  }

  function ReadSmall(b: seq<bool>, width: nat): (v: Byte)
    requires width <= 8
    ensures v == GetVal(b, width) < Pow2(width)
  {
    GetBound(b, width);
    Pow2Monotone(width, 8);
    assert Pow2(8) == 256;
    GetVal(b, width)
  }

  /** One round of the reading loop. */
  datatype Step = Next(lengths: seq<Byte>, it: nat, rest: seq<bool>) | StepRejected | StepOverrun

  function ItemStep(pre: seq<Byte>, lengths: seq<Byte>, it: nat, b: seq<bool>): (r: Step)
    requires Usable(pre) && pre != [] && it <= |lengths|
    ensures r.Next? ==> it < r.it <= |lengths| == |r.lengths| && |r.rest| <= |b|
  {
    var (z, b1) := DecodeSymbol(pre, b);
    if z == SHORT_ZEROS then RunStep(lengths, it, GetVal(b1, 4) + 4, 0, GetRest(b1, 4))
    else if z == LONG_ZEROS then RunStep(lengths, it, GetVal(b1, 5) + 20, 0, GetRest(b1, 5))
    else if it == |lengths| then StepOverrun
    else if z == SAME_RUN then
      var (d, b2) := DecodeSymbol(pre, GetRest(b1, 1));
      RunStep(lengths, it, GetVal(b1, 1) + 4, Difference(lengths[it], d), b2)
    else
      Next(Splice(lengths, it, [Difference(lengths[it], z)]), it + 1, b1)
  }

  /** A run is rejected only when it does not fit into the vector; the wanted range is not checked. */
  function RunStep(lengths: seq<Byte>, it: nat, num: nat, value: Byte, b: seq<bool>): (r: Step)
    requires it <= |lengths| && num > 0
    ensures r.Next? ==> it < r.it <= |lengths| == |r.lengths| && r.rest == b
  {
    if |lengths| - it < num then StepRejected else Next(Splice(lengths, it, Same(value, num)), it + num, b)
  }

  function ReadItems(pre: seq<Byte>, lengths: seq<Byte>, it: nat, end: nat, b: seq<bool>): (r: Lengths)
    requires Usable(pre) && pre != [] && it <= |lengths|
    ensures r.Read? ==> |r.lengths| == |lengths| && |r.rest| <= |b|
    decreases |lengths| - it
  {
    if it == end then Read(lengths, b)
    else
      match ItemStep(pre, lengths, it, b)
      case Next(lengths', it', rest) => ReadItems(pre, lengths', it', end, rest)
      case StepRejected => Rejected
      case StepOverrun => Overrun
  }

  function ReadLengths(lengths: seq<Byte>, from: nat, size: nat, b: seq<bool>): (r: Lengths)
    ensures r.Read? ==> |r.lengths| == |Extend(lengths, from + size)| && |r.rest| <= |b|
  {
    var (pre, b1) := ReadFixed(b, PRE_LENGTH_BITS, PRE_TREE_SIZE);
    if !Usable(pre) then Rejected
    else ReadItems(pre, Extend(lengths, from + size), from, from + size, b1)
  }

  // ---------- writing ----------

  /** What an encoder may send for the next lengths: one of them, a run of zeros, or a run of one value. */
  datatype Item =
    | One(value: Byte)
    | ShortZeros(n: nat)
    | LongZeros(n: nat)
    | Run(n: nat, value: Byte)

  function ItemValues(item: Item): seq<Byte>
  {
    match item
    case One(v) => [v]
    case ShortZeros(n) => Same(0, n)
    case LongZeros(n) => Same(0, n)
    case Run(n, v) => Same(v, n)
  }

  function Values(items: seq<Item>): seq<Byte>
  {
    if items == [] then [] else ItemValues(items[0]) + Values(items[1..])
  }

  /** The symbol that turns an old length into a new one. */
  function DifferenceSymbol(old_: Byte, new_: Byte): (z: nat)
    requires old_ <= 16 && new_ <= 16
    ensures z <= 16 && Difference(old_, z) == new_
  {
    if old_ >= new_ then old_ - new_ else old_ - new_ + 17
  }

  /** An item fits its counters, and the symbols it needs have codes. */
  predicate ItemOk(pre: seq<Byte>, old_: Byte, item: Item)
  {
    match item
    case One(v) => old_ <= 16 && v <= 16 && HasCode(pre, DifferenceSymbol(old_, v))
    case ShortZeros(n) => 4 <= n < 20 && HasCode(pre, SHORT_ZEROS)
    case LongZeros(n) => 20 <= n < 52 && HasCode(pre, LONG_ZEROS)
    case Run(n, v) =>
      4 <= n < 6 && HasCode(pre, SAME_RUN) && old_ <= 16 && v <= 16 && HasCode(pre, DifferenceSymbol(old_, v))
  }

  function ItemBits(pre: seq<Byte>, old_: Byte, item: Item): seq<bool>
    requires ItemOk(pre, old_, item)
  {
    match item
    case One(v) => Code(pre, DifferenceSymbol(old_, v))
    case ShortZeros(n) => Code(pre, SHORT_ZEROS) + BitsOf(n - 4, 4)
    case LongZeros(n) => Code(pre, LONG_ZEROS) + BitsOf(n - 20, 5)
    case Run(n, v) => Code(pre, SAME_RUN) + (BitsOf(n - 4, 1) + Code(pre, DifferenceSymbol(old_, v)))
  }

  /** The items describe exactly the lengths from `it` up to `end`. */
  predicate ItemsOk(pre: seq<Byte>, lengths: seq<Byte>, it: nat, end: nat, items: seq<Item>)
    requires end <= |lengths|
    decreases items
  {
    if items == [] then it == end
    else
      && it < end
      && ItemOk(pre, lengths[it], items[0])
      && ItemsOk(pre, lengths, it + |ItemValues(items[0])|, end, items[1..])
  }

  function ItemsBits(pre: seq<Byte>, lengths: seq<Byte>, it: nat, end: nat, items: seq<Item>): seq<bool>
    requires end <= |lengths| && ItemsOk(pre, lengths, it, end, items)
    decreases items
  {
    if items == [] then []
    else
      ItemBits(pre, lengths[it], items[0]) +
      ItemsBits(pre, lengths, it + |ItemValues(items[0])|, end, items[1..])
  }

  function FixedBits(numbers: seq<Byte>, width: nat): seq<bool>
  {
    if numbers == [] then []
    else FixedBits(numbers[..|numbers| - 1], width) + BitsOf(numbers[|numbers| - 1], width)
  }

  predicate PreOk(pre: seq<Byte>)
  {
    |pre| == PRE_TREE_SIZE && Usable(pre) && forall i :: 0 <= i < |pre| ==> pre[i] < 16
  }

  /** A choice of pre-tree and items for sending `size` lengths. */
  datatype Plan = Plan(pre: seq<Byte>, items: seq<Item>)

  predicate PlanOk(plan: Plan, lengths: seq<Byte>, from: nat, size: nat)
  {
    PreOk(plan.pre) && ItemsOk(plan.pre, Extend(lengths, from + size), from, from + size, plan.items)
  }

  function PlanBits(plan: Plan, lengths: seq<Byte>, from: nat, size: nat): seq<bool>
    requires PlanOk(plan, lengths, from, size)
  {
    FixedBits(plan.pre, PRE_LENGTH_BITS) +
    ItemsBits(plan.pre, Extend(lengths, from + size), from, from + size, plan.items)
  }

  // ---------- reading inverts writing ----------

  lemma {:induction false} ReadFixedBits(numbers: seq<Byte>, width: nat, rest: seq<bool>)
    requires width <= 8
    requires forall i :: 0 <= i < |numbers| ==> numbers[i] < Pow2(width)
    ensures ReadFixed(FixedBits(numbers, width) + rest, width, |numbers|) == (numbers, rest)
  {
    hide BitsOf, GetVal, GetRest, Pow2;
    if numbers == [] {
      assert FixedBits(numbers, width) + rest == rest;
    } else {
      var n := |numbers| - 1;
      var last := BitsOf(numbers[n], width);
      assert FixedBits(numbers, width) + rest == FixedBits(numbers[..n], width) + (last + rest);
      ReadFixedBits(numbers[..n], width, last + rest);
      GetPrinted(numbers[n], width, rest);
      assert numbers == numbers[..n] + [numbers[n]];
    }
  }

  /** One item: the reader ends up behind its bits, having written its values. */
  lemma ReadItemBits(pre: seq<Byte>, lengths: seq<Byte>, it: nat, item: Item, rest: seq<bool>)
    requires Usable(pre) && it < |lengths|
    requires ItemOk(pre, lengths[it], item) && it + |ItemValues(item)| <= |lengths|
    ensures
      ItemStep(pre, lengths, it, ItemBits(pre, lengths[it], item) + rest) ==
      Next(Splice(lengths, it, ItemValues(item)), it + |ItemValues(item)|, rest)
  {
    hide Usable, DecodeSymbol, Code, ItemStep, Splice, Difference, BitsOf, DifferenceSymbol;
    var b := ItemBits(pre, lengths[it], item) + rest;
    match item
    case One(v) =>
      ReadOne(pre, lengths, it, DifferenceSymbol(lengths[it], v), rest);
    case ShortZeros(n) =>
      ReadShortZeros(pre, lengths, it, n, rest);
      assert b == Code(pre, SHORT_ZEROS) + (BitsOf(n - 4, 4) + rest);
    case LongZeros(n) =>
      ReadLongZeros(pre, lengths, it, n, rest);
      assert b == Code(pre, LONG_ZEROS) + (BitsOf(n - 20, 5) + rest);
    case Run(n, v) =>
      ReadSameRun(pre, lengths, it, n, DifferenceSymbol(lengths[it], v), rest);
      assert b == Code(pre, SAME_RUN) + (BitsOf(n - 4, 1) + (Code(pre, DifferenceSymbol(lengths[it], v)) + rest));
  }

  lemma ReadOne(pre: seq<Byte>, lengths: seq<Byte>, it: nat, z: nat, rest: seq<bool>)
    requires Usable(pre) && HasCode(pre, z) && z <= 16 && it < |lengths|
    ensures
      ItemStep(pre, lengths, it, Code(pre, z) + rest) ==
      Next(Splice(lengths, it, [Difference(lengths[it], z)]), it + 1, rest)
  {
    hide Usable, DecodeSymbol, Code, RunStep;
    DecodeCode(pre, z, rest);
  }

  lemma ReadShortZeros(pre: seq<Byte>, lengths: seq<Byte>, it: nat, n: nat, rest: seq<bool>)
    requires Usable(pre) && HasCode(pre, SHORT_ZEROS) && it < |lengths| && 4 <= n < 20
    ensures
      ItemStep(pre, lengths, it, Code(pre, SHORT_ZEROS) + (BitsOf(n - 4, 4) + rest)) ==
      RunStep(lengths, it, n, 0, rest)
  {
    hide Usable, DecodeSymbol, Code, RunStep;
    DecodeCode(pre, SHORT_ZEROS, BitsOf(n - 4, 4) + rest);
    assert Pow2(4) == 16;
    GetPrinted(n - 4, 4, rest);
  }

  lemma ReadLongZeros(pre: seq<Byte>, lengths: seq<Byte>, it: nat, n: nat, rest: seq<bool>)
    requires Usable(pre) && HasCode(pre, LONG_ZEROS) && it < |lengths| && 20 <= n < 52
    ensures
      ItemStep(pre, lengths, it, Code(pre, LONG_ZEROS) + (BitsOf(n - 20, 5) + rest)) ==
      RunStep(lengths, it, n, 0, rest)
  {
    hide Usable, DecodeSymbol, Code, RunStep;
    DecodeCode(pre, LONG_ZEROS, BitsOf(n - 20, 5) + rest);
    assert Pow2(5) == 32;
    GetPrinted(n - 20, 5, rest);
  }

  lemma ReadSameRun(pre: seq<Byte>, lengths: seq<Byte>, it: nat, n: nat, z: nat, rest: seq<bool>)
    requires Usable(pre) && HasCode(pre, SAME_RUN) && HasCode(pre, z)
    requires it < |lengths| && 4 <= n < 6
    ensures
      ItemStep(pre, lengths, it, Code(pre, SAME_RUN) + (BitsOf(n - 4, 1) + (Code(pre, z) + rest))) ==
      RunStep(lengths, it, n, Difference(lengths[it], z), rest)
  {
    hide Usable, DecodeSymbol, Code, RunStep;
    DecodeCode(pre, SAME_RUN, BitsOf(n - 4, 1) + (Code(pre, z) + rest));
    assert Pow2(1) == 2;
    GetPrinted(n - 4, 1, Code(pre, z) + rest);
    DecodeCode(pre, z, rest);
  }

  lemma {:induction false} ItemsSize(pre: seq<Byte>, lengths: seq<Byte>, it: nat, end: nat, items: seq<Item>)
    requires end <= |lengths| && ItemsOk(pre, lengths, it, end, items)
    ensures it + |Values(items)| == end
    decreases items
  {
    if items != [] {
      ItemsSize(pre, lengths, it + |ItemValues(items[0])|, end, items[1..]);
    }
  }

  /** What an item says does not depend on lengths before it. */
  lemma {:induction false} ItemsIgnorePrefix(
    pre: seq<Byte>, lengths: seq<Byte>, other: seq<Byte>, it: nat, end: nat, items: seq<Item>)
    requires end <= |lengths| == |other| && it <= end && lengths[it..] == other[it..]
    requires ItemsOk(pre, lengths, it, end, items)
    ensures ItemsOk(pre, other, it, end, items)
    ensures ItemsBits(pre, other, it, end, items) == ItemsBits(pre, lengths, it, end, items)
    decreases items
  {
    if items != [] {
      var it' := it + |ItemValues(items[0])|;
      ItemsSize(pre, lengths, it', end, items[1..]);
      assert lengths[it] == lengths[it..][0] == other[it..][0] == other[it];
      assert lengths[it'..] == lengths[it..][it' - it..];
      assert other[it'..] == other[it..][it' - it..];
      ItemsIgnorePrefix(pre, lengths, other, it', end, items[1..]);
    }
  }

  /** All items: the wanted range becomes what they describe, nothing else changes, nothing is left over. */
  lemma {:induction false} ReadItemsBits(
    pre: seq<Byte>, lengths: seq<Byte>, it: nat, end: nat, items: seq<Item>, rest: seq<bool>)
    requires Usable(pre) && pre != []
    requires it <= end <= |lengths| && ItemsOk(pre, lengths, it, end, items)
    ensures it + |Values(items)| == end
    ensures
      ReadItems(pre, lengths, it, end, ItemsBits(pre, lengths, it, end, items) + rest) ==
      Read(Splice(lengths, it, Values(items)), rest)
    decreases items
  {
    hide Usable, ItemBits, ItemOk, ItemStep, ItemValues, Splice;
    ItemsSize(pre, lengths, it, end, items);
    if items == [] {
      SpliceNothing(lengths, it);
      assert [] + rest == rest;
    } else {
      var values := ItemValues(items[0]);
      AfterItem(pre, lengths, it, end, items);
      ReadFirstItem(pre, lengths, it, end, items, rest);
      ReadItemsBits(pre, Splice(lengths, it, values), it + |values|, end, items[1..], rest);
      SpliceTwice(lengths, it, values, Values(items[1..]));
    }
  }

  /** The first item is read, and reading goes on with the others. */
  lemma ReadFirstItem(
    pre: seq<Byte>, lengths: seq<Byte>, it: nat, end: nat, items: seq<Item>, rest: seq<bool>)
    requires Usable(pre) && pre != [] && items != []
    requires it <= end <= |lengths| && ItemsOk(pre, lengths, it, end, items)
    ensures it + |ItemValues(items[0])| <= end
    ensures
      var values := ItemValues(items[0]);
      var after := Splice(lengths, it, values);
      && ItemsOk(pre, after, it + |values|, end, items[1..])
      && ReadItems(pre, lengths, it, end, ItemsBits(pre, lengths, it, end, items) + rest) ==
         ReadItems(pre, after, it + |values|, end, ItemsBits(pre, after, it + |values|, end, items[1..]) + rest)
  {
    hide Usable, ItemBits, ItemOk, ItemStep, ItemValues, Splice, Values;
    AfterItem(pre, lengths, it, end, items);
    var tail := ItemsBits(pre, lengths, it + |ItemValues(items[0])|, end, items[1..]) + rest;
    assert ItemsBits(pre, lengths, it, end, items) + rest == ItemBits(pre, lengths[it], items[0]) + tail;
    ReadItemBits(pre, lengths, it, items[0], tail);
  }

  lemma AfterItem(pre: seq<Byte>, lengths: seq<Byte>, it: nat, end: nat, items: seq<Item>)
    requires items != [] && end <= |lengths| && ItemsOk(pre, lengths, it, end, items)
    ensures it + |ItemValues(items[0])| + |Values(items[1..])| == end
    ensures
      var values := ItemValues(items[0]);
      var after := Splice(lengths, it, values);
      && ItemsOk(pre, after, it + |values|, end, items[1..])
      && ItemsBits(pre, after, it + |values|, end, items[1..]) ==
         ItemsBits(pre, lengths, it + |values|, end, items[1..])
  {
    var it' := it + |ItemValues(items[0])|;
    ItemsSize(pre, lengths, it', end, items[1..]);
    var after := Splice(lengths, it, ItemValues(items[0]));
    assert after[it'..] == lengths[it'..];
    ItemsIgnorePrefix(pre, lengths, after, it', end, items[1..]);
  }

  lemma SpliceNothing(lengths: seq<Byte>, it: nat)
    requires it <= |lengths|
    ensures Splice(lengths, it, []) == lengths
  {
  }

  lemma SpliceTwice(lengths: seq<Byte>, it: nat, a: seq<Byte>, b: seq<Byte>)
    requires it + |a| + |b| <= |lengths|
    ensures Splice(Splice(lengths, it, a), it + |a|, b) == Splice(lengths, it, a + b)
  {
  }

  /** Main result: whatever the encoder chose, the reader reproduces the new lengths. */
  lemma ReadPlanBits(plan: Plan, lengths: seq<Byte>, from: nat, size: nat, rest: seq<bool>)
    requires PlanOk(plan, lengths, from, size)
    ensures |Values(plan.items)| == size
    ensures
      ReadLengths(lengths, from, size, PlanBits(plan, lengths, from, size) + rest) ==
      Read(Splice(Extend(lengths, from + size), from, Values(plan.items)), rest)
  {
    hide ReadItems, ReadFixed, ItemsBits, ItemsOk, FixedBits, Usable, Splice, Extend;
    var all := Extend(lengths, from + size);
    var tail := ItemsBits(plan.pre, all, from, from + size, plan.items) + rest;
    assert PlanBits(plan, lengths, from, size) + rest == FixedBits(plan.pre, PRE_LENGTH_BITS) + tail;
    assert Pow2(PRE_LENGTH_BITS) == 16;
    ReadFixedBits(plan.pre, PRE_LENGTH_BITS, tail);
    ReadItemsBits(plan.pre, all, from, from + size, plan.items, rest);
  }

  // ---------- every vector of lengths can be sent ----------

  function Ones(values: seq<Byte>): seq<Item>
  {
    if values == [] then [] else [One(values[0])] + Ones(values[1..])
  }

  lemma {:induction false} OnesOk(pre: seq<Byte>, lengths: seq<Byte>, it: nat, values: seq<Byte>)
    requires forall z: nat :: z <= 16 ==> HasCode(pre, z)
    requires it + |values| <= |lengths|
    requires forall i :: it <= i < |lengths| ==> lengths[i] <= 16
    requires forall i :: 0 <= i < |values| ==> values[i] <= 16
    ensures ItemsOk(pre, lengths, it, it + |values|, Ones(values)) && Values(Ones(values)) == values
    decreases values
  {
    if values != [] {
      var items := Ones(values);
      OnesOk(pre, lengths, it + 1, values[1..]);
      assert items[0] == One(values[0]) && items[1..] == Ones(values[1..]);
      assert ItemOk(pre, lengths[it], items[0]) by {
        var z := DifferenceSymbol(lengths[it], values[0]);
        assert HasCode(pre, z);
      }
    }
  }

  // ---------- the first lengths of a tree ----------

  predicate AllUpTo16(values: seq<Byte>) { forall i :: 0 <= i < |values| ==> values[i] <= 16 }

  /** A pre-tree of twenty lengths in which every single length can be sent. */
  predicate FirstPreOk(pre: seq<Byte>)
  {
    && |pre| == 20 && Usable(pre) && (forall i :: 0 <= i < 20 ==> pre[i] < 16)
    && forall z: nat :: z <= 16 ==> HasCode(pre, z)
  }

  /** Lengths sent one by one for symbols that had none: zero as it is, others as what is missing to 17. */
  function FirstBits(pre: seq<Byte>, values: seq<Byte>): seq<bool>
    requires FirstPreOk(pre) && AllUpTo16(values)
  {
    if values == [] then []
    else Code(pre, if values[0] == 0 then 0 else 17 - values[0]) + FirstBits(pre, values[1..])
  }

  lemma {:induction false} OnesBits(pre: seq<Byte>, lengths: seq<Byte>, it: nat, values: seq<Byte>)
    requires FirstPreOk(pre) && AllUpTo16(values) && it + |values| <= |lengths|
    requires forall i :: it <= i < |lengths| ==> lengths[i] == 0
    requires ItemsOk(pre, lengths, it, it + |values|, Ones(values))
    ensures ItemsBits(pre, lengths, it, it + |values|, Ones(values)) == FirstBits(pre, values)
    decreases values
  {
    hide Usable, Code;
    if values != [] {
      var items := Ones(values);
      assert items[0] == One(values[0]) && items[1..] == Ones(values[1..]);
      OnesBits(pre, lengths, it + 1, values[1..]);
    }
  }

  /** New entries of a vector start from 0, so lengths sent behind those that are there come out as they are. */
  lemma ReadFirstLengths(pre: seq<Byte>, lengths: seq<Byte>, values: seq<Byte>, rest: seq<bool>)
    requires FirstPreOk(pre) && AllUpTo16(values)
    ensures
      ReadLengths(lengths, |lengths|, |values|, FixedBits(pre, 4) + FirstBits(pre, values) + rest) ==
      Read(lengths + values, rest)
  {
    hide Usable, ReadLengths, FixedBits, ItemsBits, FirstBits;
    var plan := FirstPlan(pre, lengths, values);
    ReadPlanBits(plan, lengths, |lengths|, |values|, rest);
  }

  lemma FirstPlan(pre: seq<Byte>, lengths: seq<Byte>, values: seq<Byte>) returns (plan: Plan)
    requires FirstPreOk(pre) && AllUpTo16(values)
    ensures plan == Plan(pre, Ones(values)) && PlanOk(plan, lengths, |lengths|, |values|)
    ensures Values(plan.items) == values
    ensures PlanBits(plan, lengths, |lengths|, |values|) == FixedBits(pre, 4) + FirstBits(pre, values)
    ensures Splice(Extend(lengths, |lengths| + |values|), |lengths|, values) == lengths + values
  {
    hide Usable, FixedBits, ItemsBits, FirstBits;
    plan := Plan(pre, Ones(values));
    var all := Extend(lengths, |lengths| + |values|);
    FreshOnesOk(pre, all, |lengths|, values);
    OnesBits(pre, all, |lengths|, values);
  }

  lemma FreshOnesOk(pre: seq<Byte>, all: seq<Byte>, it: nat, values: seq<Byte>)
    requires FirstPreOk(pre) && AllUpTo16(values) && it + |values| == |all|
    requires forall i :: it <= i < |all| ==> all[i] == 0
    ensures ItemsOk(pre, all, it, it + |values|, Ones(values)) && Values(Ones(values)) == values
  {
    hide Usable;
    OnesOk(pre, all, it, values);
  }

  /** Every symbol a length can be sent with keeps it up to 16; in a run of one length a symbol may be too large. */
  lemma DifferenceStaysSmall(old_: Byte, symbol: nat)
    requires old_ <= 16 && symbol < 20
    ensures Difference(old_, symbol) <= 16 <==> symbol <= old_ + 17
  {
  }

  /** A run that does not fit into the vector is refused. */
  lemma LongRunRefused(pre: seq<Byte>, lengths: seq<Byte>, it: nat, n: nat, rest: seq<bool>)
    requires Usable(pre) && it <= |lengths| && n > |lengths| - it
    ensures 4 <= n < 20 && HasCode(pre, 17) ==>
      ItemStep(pre, lengths, it, Code(pre, 17) + (BitsOf(n - 4, 4) + rest)) == StepRejected
    ensures 20 <= n < 52 && HasCode(pre, 18) ==>
      ItemStep(pre, lengths, it, Code(pre, 18) + (BitsOf(n - 20, 5) + rest)) == StepRejected
  {
    hide Usable, DecodeSymbol, Code, BitsOf, GetVal, GetRest;
    assert Pow2(4) == 16 && Pow2(5) == 32;
    if 4 <= n < 20 && HasCode(pre, 17) {
      DecodeCode(pre, 17, BitsOf(n - 4, 4) + rest);
      GetPrinted(n - 4, 4, rest);
    }
    if 20 <= n < 52 && HasCode(pre, 18) {
      DecodeCode(pre, 18, BitsOf(n - 20, 5) + rest);
      GetPrinted(n - 20, 5, rest);
    }
  }

  /** A vector of equal lengths is usable when there are not more symbols than codes of that length. */
  lemma FlatUsable(lengths: seq<Byte>, length: Byte)
    requires 0 < length <= 16 && 0 < |lengths| <= Pow2(length)
    requires forall i :: 0 <= i < |lengths| ==> lengths[i] == length
    ensures Usable(lengths) && forall z: nat :: z < |lengths| ==> HasCode(lengths, z)
  {
    FlatTree(lengths, length, |lengths|);
    assert lengths[..|lengths|] == lengths;
  }

  lemma {:induction false} FlatTree(lengths: seq<Byte>, length: Byte, n: nat)
    requires 0 < length && 0 < n <= |lengths| && forall i :: 0 <= i < |lengths| ==> lengths[i] == length
    ensures MaxLength(lengths[..n]) == length && KraftSum(lengths[..n], length) == n
  {
    assert lengths[..n][..n - 1] == lengths[..n - 1];
    if n > 1 {
      FlatTree(lengths, length, n - 1);
    } else {
      assert lengths[..0] == [];
    }
  }

  /** For any old and new lengths up to 16 there is a plan that turns the old ones into the new ones. */
  lemma EveryVectorHasAPlan(lengths: seq<Byte>, from: nat, values: seq<Byte>) returns (plan: Plan)
    requires forall i :: 0 <= i < |lengths| ==> lengths[i] <= 16
    requires forall i :: 0 <= i < |values| ==> values[i] <= 16
    ensures PlanOk(plan, lengths, from, |values|) && Values(plan.items) == values
  {
    var pre := Same(5, PRE_TREE_SIZE);
    assert Pow2(5) == 32;
    FlatUsable(pre, 5);
    plan := Plan(pre, Ones(values));
    OnesOk(pre, Extend(lengths, from + |values|), from, values);
  }
}

/** Reading code lengths into a decoder object (LZXDecompressor.cpp, fill and readLengths). */
module CodeLengthReader {
  import opened Bits
  import opened BitReading
  import opened HuffmanCodes
  import opened CodeLengths
  import opened BitStreams
  import opened HuffmanDecoders

  datatype Status = Accepted | Refused | Overran

  /** Write `num` copies of `value`, unless they do not fit into the vector. */
  method Fill(decoder: HuffmanDecoder, it: nat, num: nat, value: Byte) returns (ok: bool)
    requires it <= |decoder.codeLengths|
    modifies decoder`codeLengths
    ensures ok == (it + num <= |decoder.codeLengths|)
    ensures |decoder.codeLengths| == |old(decoder.codeLengths)|
    ensures ok ==> decoder.codeLengths == Splice(old(decoder.codeLengths), it, Same(value, num))
    ensures !ok ==> decoder.codeLengths == old(decoder.codeLengths)
  {
    if |decoder.codeLengths| - it < num {
      return false;
    }
    var k := 0;
    while k < num
      invariant k <= num && |decoder.codeLengths| == |old(decoder.codeLengths)|
      invariant decoder.codeLengths == Splice(old(decoder.codeLengths), it, Same(value, k))
    {
      decoder.codeLengths := decoder.codeLengths[it + k := value];
      k := k + 1;
    }
    ok := true;
  }

  /** One round of the loop over the lengths. */
  method ReadItem(stream: BitStream, preTree: HuffmanDecoder, decoder: HuffmanDecoder, it: nat)
    returns (status: Status, it': nat)
    requires stream.Valid() && preTree.Built() && preTree != decoder && it <= |decoder.codeLengths|
    modifies stream, decoder`codeLengths
    ensures stream.Valid()
    ensures match ItemStep(preTree.codeLengths, old(decoder.codeLengths), it, old(stream.Unread()))
            case Next(lengths, next, rest) =>
              status == Accepted && decoder.codeLengths == lengths && it' == next && stream.Unread() == rest
            case StepRejected => status == Refused
            case StepOverrun => status == Overran
  {
    hide Usable, DecodeSymbol, BitStream.Unread;
    it' := it;
    var z := preTree.GetSymbol(stream);
    if z == SHORT_ZEROS {
      var num := stream.Get(4);
      status, it' := FillRun(decoder, it, num + 4, 0);
    } else if z == LONG_ZEROS {
      var num := stream.Get(5);
      status, it' := FillRun(decoder, it, num + 20, 0);
    } else if it == |decoder.codeLengths| {
      status := Overran;
    } else if z == SAME_RUN {
      var num := stream.Get(1);
      var d := preTree.GetSymbol(stream);
      status, it' := FillRun(decoder, it, num + 4, Difference(decoder.codeLengths[it], d));
    } else {
      decoder.codeLengths := Splice(decoder.codeLengths, it, [Difference(decoder.codeLengths[it], z)]);
      status, it' := Accepted, it + 1;
    }
  }

  method FillRun(decoder: HuffmanDecoder, it: nat, num: nat, value: Byte) returns (status: Status, it': nat)
    requires it <= |decoder.codeLengths| && num > 0
    modifies decoder`codeLengths
    ensures forall b ::
      match RunStep(old(decoder.codeLengths), it, num, value, b)
      case Next(lengths, next, _) => status == Accepted && decoder.codeLengths == lengths && it' == next
      case StepRejected => status == Refused
      case StepOverrun => false
  {
    var ok := Fill(decoder, it, num, value);
    status, it' := if ok then Accepted else Refused, if ok then it + num else it;
  }

  /** The decoder's lengths become `n` numbers of `width` bits. */
  method ReadFixedLengths(stream: BitStream, decoder: HuffmanDecoder, width: nat, n: nat)
    requires stream.Valid() && width <= 8
    modifies stream, decoder`codeLengths
    ensures stream.Valid()
    ensures (decoder.codeLengths, stream.Unread()) == ReadFixed(old(stream.Unread()), width, n)
  {
    hide GetVal, GetRest, BitStream.Unread;
    decoder.codeLengths := [];
    ghost var b := stream.Unread();
    for i := 0 to n
      invariant stream.Valid()
      invariant (decoder.codeLengths, stream.Unread()) == ReadFixed(b, width, i)
    {
      var length := stream.Get(width);
      assert length == ReadSmall(ReadFixed(b, width, i).1, width);
      decoder.codeLengths := decoder.codeLengths + [length];
    }
  }

  method ReadPreTree(stream: BitStream) returns (ok: bool, preTree: HuffmanDecoder)
    requires stream.Valid()
    modifies stream
    ensures stream.Valid() && fresh(preTree)
    ensures (preTree.codeLengths, stream.Unread()) == ReadFixed(old(stream.Unread()), PRE_LENGTH_BITS, PRE_TREE_SIZE)
    ensures ok == Usable(preTree.codeLengths) && (ok ==> preTree.Built())
  {
    preTree := new HuffmanDecoder();
    ReadFixedLengths(stream, preTree, PRE_LENGTH_BITS, PRE_TREE_SIZE);
    ok := preTree.BuildTable();
  }

  method ReadLengthsInto(stream: BitStream, decoder: HuffmanDecoder, from: nat, size: nat) returns (status: Status)
    requires stream.Valid()
    modifies stream, decoder`codeLengths
    ensures stream.Valid()
    ensures match ReadLengths(old(decoder.codeLengths), from, size, old(stream.Unread()))
            case Read(lengths, rest) =>
              status == Accepted && decoder.codeLengths == lengths && stream.Unread() == rest
            case Rejected => status == Refused
            case Overrun => status == Overran
  {
    hide Usable, ReadItems, ReadFixed, BitStream.Unread;
    var ok, preTree := ReadPreTree(stream);
    if !ok {
      return Refused;
    }
    decoder.codeLengths := Extend(decoder.codeLengths, from + size);
    status := ReadAll(stream, preTree, decoder, from, from + size);
  }

  method ReadAll(stream: BitStream, preTree: HuffmanDecoder, decoder: HuffmanDecoder, from: nat, end: nat)
    returns (status: Status)
    requires stream.Valid() && preTree.Built() && preTree != decoder
    requires from <= |decoder.codeLengths|
    modifies stream, decoder`codeLengths
    ensures stream.Valid()
    ensures match ReadItems(preTree.codeLengths, old(decoder.codeLengths), from, end, old(stream.Unread()))
            case Read(lengths, rest) =>
              status == Accepted && decoder.codeLengths == lengths && stream.Unread() == rest
            case Rejected => status == Refused
            case Overrun => status == Overran
  {
    hide DecodeSymbol, BitStream.Unread;
    var it: nat := from;
    while it != end
      invariant stream.Valid() && preTree.Built() && it <= |decoder.codeLengths|
      invariant
        ReadItems(preTree.codeLengths, decoder.codeLengths, it, end, stream.Unread()) ==
        ReadItems(preTree.codeLengths, old(decoder.codeLengths), from, end, old(stream.Unread()))
      decreases |decoder.codeLengths| - it
    {
      var step, next := ReadItem(stream, preTree, decoder, it);
      if step != Accepted {
        return step;
      }
      it := next;
    }
    status := Accepted;
  }
}
