/** What reading means on a plain bit sequence; `BitStream` below refines it. */
module BitReading {
  import opened Bits

  /** The next `n` bits, zero-padded when fewer are left. */
  function Padded(b: seq<bool>, n: nat): (p: seq<bool>)
    ensures |p| == n
  {
    if |b| >= n then b[..n] else b + Zeros(n - |b|)
  }

  function PeekVal(b: seq<bool>, n: nat): nat { Val(Padded(b, n)) }

  /** Bits are removed only when enough of them are left. */
  function Drop(b: seq<bool>, n: nat): (r: seq<bool>)
    ensures |r| <= |b|
  {
    if |b| >= n then b[n..] else b
  }

  /** A request of more than 16 bits is served as two requests. */
  function GetVal(b: seq<bool>, n: nat): nat
  {
    if n > 16 then PeekVal(b, n - 16) * 65536 + PeekVal(Drop(b, n - 16), 16) else PeekVal(b, n)
  }

  function GetRest(b: seq<bool>, n: nat): (r: seq<bool>)
    ensures |r| <= |b|
  {
    if n > 16 then Drop(Drop(b, n - 16), 16) else Drop(b, n)
  }

  /** When the bits are there, `get` returns the number they denote and drops exactly them. */
  lemma GetAvailable(b: seq<bool>, n: nat)
    requires |b| >= n
    ensures GetVal(b, n) == Val(b[..n]) && GetRest(b, n) == b[n..]
  {
    if n > 16 {
      var m := n - 16;
      Pow2At16And32();
      assert b[m..][..16] == b[m..n] && b[..n] == b[..m] + b[m..n];
      ValConcat(b[..m], b[m..n]);
    }
  }

  /** A printed number is read back, whatever follows it. */
  lemma GetPrinted(v: nat, n: nat, rest: seq<bool>)
    requires v < Pow2(n)
    ensures GetVal(BitsOf(v, n) + rest, n) == v && GetRest(BitsOf(v, n) + rest, n) == rest
  {
    var b := BitsOf(v, n) + rest;
    assert b[..n] == BitsOf(v, n) && b[n..] == rest;
    GetAvailable(b, n);
    ValBitsOf(v, n);
  }

  /** The value read always fits, also when the input runs out. */
  lemma GetBound(b: seq<bool>, n: nat)
    ensures GetVal(b, n) < Pow2(n)
  {
    if n > 16 {
      ValBound(Padded(b, n - 16));
      ValBound(Padded(Drop(b, n - 16), 16));
      assert Pow2(16) == 65536 by { Pow2At16And32(); }
      assert Pow2(n) == Pow2(n - 16) * 65536 by { Pow2Add(n - 16, 16); }
    } else {
      ValBound(Padded(b, n));
    }
  }

  /** The bits of a byte string: 16-bit words, low byte first in the string, high byte first in the bits.
      A trailing odd byte is never read. */
  function WordBits(bytes: seq<Byte>): seq<bool>
  {
    if |bytes| < 2 then [] else BitsOf(bytes[1], 8) + BitsOf(bytes[0], 8) + WordBits(bytes[2..])
  }

  // ---------- writing: the inverse of WordBits ----------

  function ByteOf(b: seq<bool>): (v: Byte)
    requires |b| == 8
  {
    ValBound(b);
    assert Pow2(8) == 256 by { Pow2At16And32(); }
    Val(b)
  }

  /** Pack bits into 16-bit words, padding the last one with zeros. */
  function ToBytes(b: seq<bool>): seq<Byte>
    decreases |b|
  {
    if b == [] then []
    else
      var word := Padded(b, 16);
      [ByteOf(word[8..]), ByteOf(word[..8])] + ToBytes(if |b| >= 16 then b[16..] else [])
  }

  /** Packing loses nothing: the reader sees the bits again, followed by fewer than 16 zeros. */
  lemma {:induction false} PackedBits(b: seq<bool>) returns (pad: nat)
    ensures pad < 16
    ensures WordBits(ToBytes(b)) == b + Zeros(pad)
    decreases |b|
  {
    if b == [] {
      pad := 0;
    } else {
      var rest := if |b| >= 16 then b[16..] else [];
      PackedWord(b);
      var pad' := PackedBits(rest);
      if |b| >= 16 {
        pad := pad';
        assert b[..16] + (rest + Zeros(pad)) == b + Zeros(pad);
      } else {
        pad := 16 - |b|;
      }
    }
  }

  lemma PackedWord(b: seq<bool>)
    requires b != []
    ensures WordBits(ToBytes(b)) == Padded(b, 16) + WordBits(ToBytes(if |b| >= 16 then b[16..] else []))
  {
    var word := Padded(b, 16);
    var rest := ToBytes(if |b| >= 16 then b[16..] else []);
    BitsOfVal(word[..8]);
    BitsOfVal(word[8..]);
    assert word == word[..8] + word[8..];
    assert ToBytes(b)[2..] == rest;
  }
}

/** The shift operators of a 32-bit unsigned integer, one position at a time, and bitwise or. */
module Word32 {
  import opened Bits

  const SIZE: nat := 32
  const LIMIT: nat := 0x1_0000_0000

  function ShiftLeft(x: nat, k: nat): nat
    decreases k
  {
    if k == 0 then x else ShiftLeft(2 * x % LIMIT, k - 1)
  }

  function ShiftRight(x: nat, k: nat): nat
    decreases k
  {
    if k == 0 then x else ShiftRight(x / 2, k - 1)
  }

  function Or(x: nat, y: nat): nat
  {
    if x == 0 then y else if y == 0 then x
    else 2 * Or(x / 2, y / 2) + (if x % 2 == 1 || y % 2 == 1 then 1 else 0)
  }

  lemma {:induction false} ShiftLeftBits(b: seq<bool>, k: nat)
    requires |b| == SIZE && k <= SIZE
    ensures ShiftLeft(Val(b), k) == Val(b[k..] + Zeros(k))
    decreases k
  {
    if k == 0 {
      assert b[0..] + Zeros(0) == b;
    } else {
      var t := b[1..] + [false];
      ShiftOut(b);
      ShiftLeftBits(t, k - 1);
      assert t[k - 1..] + Zeros(k - 1) == b[k..] + Zeros(k);
    }
  }

  lemma ShiftOut(b: seq<bool>)
    requires |b| == SIZE
    ensures 2 * Val(b) % LIMIT == Val(b[1..] + [false])
  {
    var t := b[1..] + [false];
    assert b + [false] == [b[0]] + t;
    assert (b + [false])[..SIZE] == b;
    ValCons(b[0], t);
    ValBound(t);
    Pow2At16And32();
  }

  lemma {:induction false} ShiftRightBits(b: seq<bool>, k: nat)
    requires k <= |b|
    ensures ShiftRight(Val(b), k) == Val(b[..|b| - k])
    decreases k
  {
    if k == 0 {
      assert b[..|b|] == b;
    } else {
      assert Val(b) / 2 == Val(b[..|b| - 1]);
      ShiftRightBits(b[..|b| - 1], k - 1);
      assert b[..|b| - 1][..|b| - k] == b[..|b| - k];
    }
  }

  /** When every position is zero on one side, `a | b` picks the other side's bits. */
  lemma {:induction false} OrBits(a: seq<bool>, b: seq<bool>, c: seq<bool>)
    requires |a| == |b| == |c|
    requires forall i :: 0 <= i < |a| ==> c[i] == (a[i] || b[i])
    ensures Or(Val(a), Val(b)) == Val(c)
  {
    if a != [] {
      var n := |a| - 1;
      OrBits(a[..n], b[..n], c[..n]);
      OrUnfold(Val(a), Val(b));
    }
  }

  lemma OrUnfold(x: nat, y: nat)
    ensures Or(x, y) == 2 * Or(x / 2, y / 2) + (if x % 2 == 1 || y % 2 == 1 then 1 else 0)
  {
  }
}

/** The shift buffer over a byte string (BitStream.h). */
module BitStreams {
  import opened Bits
  import opened BitReading
  import opened Word32

  /** `counter` bits at the top of the buffer are in use; the bits below them are zero. */
  ghost predicate BufferOk(buffer: nat, counter: nat)
  {
    counter < SIZE && buffer < LIMIT && BitsOf(buffer, SIZE)[counter..] == Zeros(SIZE - counter)
  }

  ghost function Held(buffer: nat, counter: nat): (b: seq<bool>)
    requires counter <= SIZE
    ensures |b| == counter
  {
    BitsOf(buffer, SIZE)[..counter]
  }

  class BitStream {
    var buffer: nat
    var bitCounter: nat
    var byteStream: seq<Byte>  // the bytes between the read pointer and the end pointer

    ghost predicate Valid()
      reads this
    {
      BufferOk(buffer, bitCounter)
    }

    /** What is left to read. */
    ghost function Unread(): seq<bool>
      requires Valid()
      reads this
    {
      Held(buffer, bitCounter) + WordBits(byteStream)
    }

    constructor ()
      ensures Valid() && Unread() == []
    {
      buffer, bitCounter, byteStream := 0, 0, [];
      EmptyBuffer();
    }

    method SetData(data: seq<Byte>)
      modifies this
      ensures Valid() && Unread() == WordBits(data)
    {
      buffer, bitCounter, byteStream := 0, 0, data;
      EmptyBuffer();
    }

    function BytesLeft(): nat
      reads this
    {
      |byteStream|
    }

    /** Loading words does not change what is left to read. */
    method Ensure(length: nat) returns (ok: bool)
      requires Valid() && length <= 16
      modifies this
      ensures Valid() && Unread() == old(Unread())
      ensures ok == (bitCounter >= length)
      ensures ok == (|Unread()| >= length)
      ensures !ok ==> |byteStream| < 2
    {
      while bitCounter < length && BytesLeft() >= 2
        invariant Valid() && Unread() == old(Unread())
        decreases |byteStream|
      {
        var low, high := byteStream[0], byteStream[1];
        LoadWord(buffer, bitCounter, low, high, byteStream[2..]);
        assert byteStream == [low, high] + byteStream[2..];
        buffer := Or(buffer, ShiftLeft(Or(ShiftLeft(high, 8), low), SIZE - 16 - bitCounter));
        bitCounter := bitCounter + 16;
        byteStream := byteStream[2..];
      }
      ok := bitCounter >= length;
    }

    method Peek(length: nat) returns (bits: nat)
      requires Valid() && length <= 16
      modifies this
      ensures Valid() && Unread() == old(Unread())
      ensures bits == PeekVal(Unread(), length)
    {
      var ok := Ensure(length);
      bits := if length > 0 then ShiftRight(buffer, SIZE - length) else 0;
      if length > 0 {
        PeekHeld(buffer, bitCounter, length, WordBits(byteStream));
      }
    }

    method Remove(length: nat)
      requires Valid() && length <= 16
      modifies this
      ensures Valid() && Unread() == Drop(old(Unread()), length)
    {
      var ok := Ensure(length);
      if ok {
        DropHeld(buffer, bitCounter, length, WordBits(byteStream));
        buffer := ShiftLeft(buffer, length);
        bitCounter := bitCounter - length;
      }
    }

    method Get(length: nat) returns (bits: nat)
      requires Valid() && length <= 32
      modifies this
      ensures Valid()
      ensures bits == GetVal(old(Unread()), length) && Unread() == GetRest(old(Unread()), length)
    {
      if length > 16 {
        bits := Peek(length - 16);
        ShiftPeeked(Unread(), length - 16);
        bits := ShiftLeft(bits, 16);
        Remove(length - 16);
        var low := Peek(16);
        bits := bits + low;
        Remove(16);
      } else {
        bits := Peek(length);
        Remove(length);
      }
    }
  }

  /** The buffer is the held bits followed by zeros. */
  lemma BufferValue(buffer: nat, counter: nat)
    requires BufferOk(buffer, counter)
    ensures buffer == Val(Held(buffer, counter) + Zeros(SIZE - counter))
  {
    assert BitsOf(buffer, SIZE) == Held(buffer, counter) + Zeros(SIZE - counter);
    Pow2At16And32();
    ValBitsOf(buffer, SIZE);
  }

  /** Conversely, bits followed by zeros make a well-formed buffer that holds them. */
  lemma BufferOfBits(h: seq<bool>)
    requires |h| < SIZE
    ensures BufferOk(Val(h + Zeros(SIZE - |h|)), |h|)
    ensures Held(Val(h + Zeros(SIZE - |h|)), |h|) == h
  {
    var b := h + Zeros(SIZE - |h|);
    BitsOfVal(b);
    ValBound(b);
    Pow2At16And32();
  }

  lemma EmptyBuffer()
    ensures BufferOk(0, 0) && Held(0, 0) == []
  {
    ValZeros(SIZE);
    assert [] + Zeros(SIZE) == Zeros(SIZE);
    BufferOfBits([]);
  }

  /** A number below 2^n as a 32-bit sequence. */
  lemma WideBits(v: nat, n: nat)
    requires n <= SIZE && v < Pow2(n)
    ensures v == Val(Zeros(SIZE - n) + BitsOf(v, n))
  {
    ValBitsOf(v, n);
    ValLeadingZeros(SIZE - n, BitsOf(v, n));
  }

  lemma ShiftPeeked(b: seq<bool>, n: nat)
    requires n <= 16
    ensures ShiftLeft(PeekVal(b, n), 16) == PeekVal(b, n) * 65536
  {
    var p := Padded(b, n);
    var z := Zeros(SIZE - n);
    ValLeadingZeros(SIZE - n, p);
    ShiftLeftBits(z + p, 16);
    assert (z + p)[16..] + Zeros(16) == Zeros(16 - n) + (p + Zeros(16));
    ValLeadingZeros(16 - n, p + Zeros(16));
    ValConcat(p, Zeros(16));
    ValZeros(16);
    Pow2At16And32();
  }

  /** The two bytes at the read pointer as one number. */
  lemma WordValue(low: Byte, high: Byte)
    ensures Or(ShiftLeft(high, 8), low) == Val(Zeros(16) + (BitsOf(high, 8) + BitsOf(low, 8)))
  {
    var h, l := BitsOf(high, 8), BitsOf(low, 8);
    assert Pow2(8) == 256 by { Pow2At16And32(); }
    WideBits(high, 8);
    WideBits(low, 8);
    ShiftLeftBits(Zeros(24) + h, 8);
    ShiftedIn(16, h, 8);
    OrBits(Zeros(16) + (h + Zeros(8)), Zeros(24) + l, Zeros(16) + (h + l));
  }

  lemma ShiftedIn(n: nat, b: seq<bool>, k: nat)
    ensures (Zeros(n + k) + b)[k..] + Zeros(k) == Zeros(n) + (b + Zeros(k))
  {
    assert (Zeros(n + k) + b)[k..] == Zeros(n) + b;
  }

  lemma ShiftedOut(h: seq<bool>, k: nat)
    requires k <= |h| <= SIZE
    ensures (h + Zeros(SIZE - |h|))[k..] + Zeros(k) == h[k..] + Zeros(SIZE - (|h| - k))
  {
    assert (h + Zeros(SIZE - |h|))[k..] == h[k..] + Zeros(SIZE - |h|);
    assert Zeros(SIZE - |h|) + Zeros(k) == Zeros(SIZE - (|h| - k));
  }

  lemma WordBitsCons(low: Byte, high: Byte, rest: seq<Byte>)
    ensures WordBits([low, high] + rest) == BitsOf(high, 8) + BitsOf(low, 8) + WordBits(rest)
  {
    assert ([low, high] + rest)[2..] == rest;
  }

  lemma LoadWord(buffer: nat, counter: nat, low: Byte, high: Byte, rest: seq<Byte>)
    requires BufferOk(buffer, counter) && counter < 16
    ensures
      var word := Or(ShiftLeft(high, 8), low);
      var buffer' := Or(buffer, ShiftLeft(word, SIZE - 16 - counter));
      && BufferOk(buffer', counter + 16)
      && Held(buffer', counter + 16) + WordBits(rest) == Held(buffer, counter) + WordBits([low, high] + rest)
  {
    hide BitsOf, Val, WordBits, Held, BufferOk, Zeros;
    var w := BitsOf(high, 8) + BitsOf(low, 8);
    var h := Held(buffer, counter);
    var k := SIZE - 16 - counter;
    WordValue(low, high);
    BufferValue(buffer, counter);
    ShiftLeftBits(Zeros(16) + w, k);
    ShiftedIn(counter, w, k);
    MergeWord(h, w, k);
    BufferOfBits(h + w);
    WordBitsCons(low, high, rest);
    assert h + w + WordBits(rest) == h + (w + WordBits(rest));
  }

  lemma MergeWord(h: seq<bool>, w: seq<bool>, k: nat)
    requires |h| + |w| + k == SIZE
    ensures Or(Val(h + Zeros(|w| + k)), Val(Zeros(|h|) + (w + Zeros(k)))) == Val(h + w + Zeros(k))
  {
    hide Or, Val;
    var a, b, c := h + Zeros(|w| + k), Zeros(|h|) + (w + Zeros(k)), h + w + Zeros(k);
    forall i | 0 <= i < |c|
      ensures c[i] == (a[i] || b[i])
    {
      MergedAt(h, w, k, i);
    }
    OrBits(a, b, c);
  }

  lemma MergedAt(h: seq<bool>, w: seq<bool>, k: nat, i: nat)
    requires i < |h| + |w| + k
    ensures (h + w + Zeros(k))[i] == ((h + Zeros(|w| + k))[i] || (Zeros(|h|) + (w + Zeros(k)))[i])
  {
    if i < |h| {
    } else if i < |h| + |w| {
    } else {
    }
  }

  lemma TopBits(h: seq<bool>, rest: seq<bool>, length: nat)
    requires |h| <= SIZE && length <= SIZE && (|h| >= length || rest == [])
    ensures (h + Zeros(SIZE - |h|))[..length] == Padded(h + rest, length)
  {
    if |h| < length {
      assert h + rest == h;
    }
  }

  lemma DropFromHead(h: seq<bool>, rest: seq<bool>, length: nat)
    requires length <= |h|
    ensures Drop(h + rest, length) == h[length..] + rest
  {
  }

  lemma PeekHeld(buffer: nat, counter: nat, length: nat, rest: seq<bool>)
    requires BufferOk(buffer, counter) && 0 < length <= 16
    requires counter >= length || rest == []
    ensures ShiftRight(buffer, SIZE - length) == PeekVal(Held(buffer, counter) + rest, length)
  {
    var h := Held(buffer, counter);
    assert ShiftRight(buffer, SIZE - length) == Val((h + Zeros(SIZE - counter))[..length]) by {
      BufferValue(buffer, counter);
      ShiftRightBits(h + Zeros(SIZE - counter), SIZE - length);
    }
    TopBits(h, rest, length);
  }

  lemma DropHeld(buffer: nat, counter: nat, length: nat, rest: seq<bool>)
    requires BufferOk(buffer, counter) && length <= counter
    ensures BufferOk(ShiftLeft(buffer, length), counter - length)
    ensures Held(ShiftLeft(buffer, length), counter - length) + rest == Drop(Held(buffer, counter) + rest, length)
  {
    var h := Held(buffer, counter);
    assert ShiftLeft(buffer, length) == Val(h[length..] + Zeros(SIZE - (counter - length))) by {
      BufferValue(buffer, counter);
      ShiftLeftBits(h + Zeros(SIZE - counter), length);
      ShiftedOut(h, length);
    }
    BufferOfBits(h[length..]);
    DropFromHead(h, rest, length);
  }
}
