/** Powers of two and big-endian bit sequences: the arithmetic every layer of the CHM decoder rests on. */
module Bits {

  type Byte = x: int | 0 <= x < 256

  // ---------- powers of two ----------

  function Pow2(n: nat): (p: nat)
    ensures p > 0
  {
    if n == 0 then 1 else 2 * Pow2(n - 1)
  }

  lemma {:induction false} Pow2Add(a: nat, b: nat)
    ensures Pow2(a + b) == Pow2(a) * Pow2(b)
  {
    if a == 0 {
    } else {
      Pow2Add(a - 1, b);
      calc {
        Pow2(a + b);
        2 * Pow2(a + b - 1);
        2 * (Pow2(a - 1) * Pow2(b));
        (2 * Pow2(a - 1)) * Pow2(b);
      }
    }
  }

  lemma {:induction false} Pow2Monotone(a: nat, b: nat)
    requires a <= b
    ensures Pow2(a) <= Pow2(b)
  {
    if a < b {
      Pow2Monotone(a, b - 1);
    }
  }

  lemma Pow2At16And32()
    ensures Pow2(8) == 256 && Pow2(16) == 65536 && Pow2(32) == 0x1_0000_0000
  {
    assert Pow2(4) == 16;
    Pow2Add(4, 4);
    Pow2Add(8, 8);
    Pow2Add(16, 16);
  }

  // ---------- products ----------

  lemma MulMonotone(a: nat, b: nat, c: nat)
    requires a <= b
    ensures a * c <= b * c
  {
  }

  lemma MulDouble(a: nat, b: nat)
    ensures 2 * (a * b) == a * (2 * b)
  {
  }

  // ---------- bit sequences, most significant bit first ----------

  function Bit(b: bool): nat { if b then 1 else 0 }

  /** The number a bit sequence denotes. */
  function Val(b: seq<bool>): nat
  {
    if b == [] then 0 else 2 * Val(b[..|b| - 1]) + Bit(b[|b| - 1])
  }

  /** The low `n` bits of `v`. */
  function BitsOf(v: nat, n: nat): (b: seq<bool>)
    ensures |b| == n
    decreases v, n
  {
    if n == 0 then [] else BitsOf(v / 2, n - 1) + [v % 2 == 1]
  }

  function Zeros(n: nat): (b: seq<bool>)
    ensures |b| == n
  {
    seq(n, _ => false)
  }

  lemma {:induction false} ValBound(b: seq<bool>)
    ensures Val(b) < Pow2(|b|)
  {
    if b != [] {
      ValBound(b[..|b| - 1]);
    }
  }

  lemma {:induction false} ValConcat(a: seq<bool>, b: seq<bool>)
    ensures Val(a + b) == Val(a) * Pow2(|b|) + Val(b)
  {
    if b == [] {
      assert a + b == a;
    } else {
      var n := |b| - 1;
      var b' := b[..n];
      assert (a + b)[..|a + b| - 1] == a + b';
      assert Val(a + b) == 2 * Val(a + b') + Bit(b[n]);
      ValConcat(a, b');
      assert Val(b) == 2 * Val(b') + Bit(b[n]);
      MulDouble(Val(a), Pow2(n));
      assert Pow2(|b|) == 2 * Pow2(n);
    }
  }

  lemma {:induction false} ValZeros(n: nat)
    ensures Val(Zeros(n)) == 0
  {
    if n > 0 {
      assert Zeros(n)[..n - 1] == Zeros(n - 1);
      ValZeros(n - 1);
    }
  }

  /** Printing a number that fits and reading it back gives the number. */
  lemma {:induction false} ValBitsOf(v: nat, n: nat)
    requires v < Pow2(n)
    ensures Val(BitsOf(v, n)) == v
  {
    if n > 0 {
      ValBitsOf(v / 2, n - 1);
      assert BitsOf(v, n)[..n - 1] == BitsOf(v / 2, n - 1);
    }
  }

  /** Reading a bit sequence and printing it back gives the sequence. */
  lemma {:induction false} BitsOfVal(b: seq<bool>)
    ensures BitsOf(Val(b), |b|) == b
  {
    if b != [] {
      var n := |b| - 1;
      assert Val(b) / 2 == Val(b[..n]) && Val(b) % 2 == Bit(b[n]);
      BitsOfVal(b[..n]);
      assert BitsOf(Val(b), |b|) == BitsOf(Val(b) / 2, n) + [Val(b) % 2 == 1];
      assert b == b[..n] + [b[n]];
    }
  }

  /** A zero-padded number is the number. */
  lemma {:induction false} ValLeadingZeros(n: nat, b: seq<bool>)
    ensures Val(Zeros(n) + b) == Val(b)
  {
    if b == [] {
      assert Zeros(n) + b == Zeros(n);
      ValZeros(n);
    } else {
      assert (Zeros(n) + b)[..n + |b| - 1] == Zeros(n) + b[..|b| - 1];
      ValLeadingZeros(n, b[..|b| - 1]);
    }
  }

  lemma {:induction false} ValCons(c: bool, b: seq<bool>)
    ensures Val([c] + b) == (if c then Pow2(|b|) else 0) + Val(b)
  {
    if b == [] {
      assert [c] + b == [c];
      assert Val([c]) == 2 * Val([]) + Bit(c);
    } else {
      assert ([c] + b)[..|b|] == [c] + b[..|b| - 1];
      ValCons(c, b[..|b| - 1]);
    }
  }
}
