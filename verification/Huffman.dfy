/** Canonical prefix codes given by code lengths, and the direct lookup table for them. */
module HuffmanCodes {
  import opened Bits
  import opened BitReading

  const MAX_CODE_LENGTH: nat := 16

  function MaxLength(lengths: seq<Byte>): (m: nat)
  {
    if lengths == [] then 0
    else
      var m, last := MaxLength(lengths[..|lengths| - 1]), lengths[|lengths| - 1];
      if last > m then last else m
  }

  /** How many table entries a symbol of the given length takes when the longest length is `max`. */
  function Weight(length: nat, max: nat): nat
  {
    if 0 < length <= max then Pow2(max - length) else 0
  }

  function KraftSum(lengths: seq<Byte>, max: nat): nat
  {
    if lengths == [] then 0
    else KraftSum(lengths[..|lengths| - 1], max) + Weight(lengths[|lengths| - 1], max)
  }

  /** Lengths for which a table can be built: none above 16, and the Kraft inequality holds. */
  predicate Usable(lengths: seq<Byte>)
  {
    var max := MaxLength(lengths);
    max <= MAX_CODE_LENGTH && KraftSum(lengths, max) <= Pow2(max)
  }

  // ---------- the canonical code, as section 3.2.2 of RFC 1951 assigns it ----------

  /** How many of the first `n` symbols have code length `i`. */
  function Count(lengths: seq<Byte>, i: nat, n: nat): nat
    requires n <= |lengths|
  {
    if n == 0 then 0 else Count(lengths, i, n - 1) + (if lengths[n - 1] == i then 1 else 0)
  }

  /** The smallest code of length `i`. */
  function NextCode(lengths: seq<Byte>, i: nat): nat
  {
    if i <= 1 then 0 else 2 * (NextCode(lengths, i - 1) + Count(lengths, i - 1, |lengths|))
  }

  function CodeValue(lengths: seq<Byte>, symbol: nat): nat
    requires symbol < |lengths|
  {
    NextCode(lengths, lengths[symbol]) + Count(lengths, lengths[symbol], symbol)
  }

  function Code(lengths: seq<Byte>, symbol: nat): (b: seq<bool>)
    requires symbol < |lengths|
    ensures |b| == lengths[symbol]
  {
    BitsOf(CodeValue(lengths, symbol), lengths[symbol])
  }

  predicate HasCode(lengths: seq<Byte>, symbol: nat)
  {
    symbol < |lengths| && lengths[symbol] > 0
  }

  // ---------- the lookup table ----------

  function Repeat(symbol: nat, n: nat): (r: seq<nat>)
    ensures |r| == n
  {
    seq(n, _ => symbol)
  }

  /** Entries of the symbols below `n` whose length is `i`. */
  function Row(lengths: seq<Byte>, max: nat, i: nat, n: nat): seq<nat>
    requires n <= |lengths| && i <= max
  {
    if n == 0 then []
    else Row(lengths, max, i, n - 1) + (if lengths[n - 1] == i then Repeat(n - 1, Pow2(max - i)) else [])
  }

  /** Entries of all symbols whose length is between 1 and `i`. */
  function Rows(lengths: seq<Byte>, max: nat, i: nat): seq<nat>
    requires i <= max
  {
    if i == 0 then [] else Rows(lengths, max, i - 1) + Row(lengths, max, i, |lengths|)
  }

  /** The finished table: the rows, and symbol 0 in the entries no code reaches. */
  function Table(lengths: seq<Byte>): seq<nat>
  {
    var max := MaxLength(lengths);
    var rows := Rows(lengths, max, max);
    if |rows| <= Pow2(max) then rows + Repeat(0, Pow2(max) - |rows|) else rows
  }

  // ---------- sizes ----------

  lemma {:induction false} MaxLengthIsMax(lengths: seq<Byte>, k: nat)
    requires k < |lengths|
    ensures lengths[k] <= MaxLength(lengths)
  {
    var n := |lengths| - 1;
    if k < n {
      MaxLengthIsMax(lengths[..n], k);
    }
  }

  /** The longest length is the length of some symbol, and no other is longer. */
  lemma {:induction false} MaxLengthExactly(lengths: seq<Byte>)
    ensures lengths != [] ==> exists k :: 0 <= k < |lengths| && lengths[k] == MaxLength(lengths)
    ensures forall k :: 0 <= k < |lengths| ==> lengths[k] <= MaxLength(lengths)
  {
    if lengths != [] {
      var n := |lengths| - 1;
      MaxLengthExactly(lengths[..n]);
      if lengths[n] <= MaxLength(lengths[..n]) && n > 0 {
        var k :| 0 <= k < n && lengths[..n][k] == MaxLength(lengths[..n]);
        assert lengths[k] == MaxLength(lengths);
      } else {
        assert lengths[n] == MaxLength(lengths);
      }
    }
  }

  /** Codes have at most 16 bits. */
  lemma UsableIsShort(lengths: seq<Byte>, k: nat)
    requires k < |lengths|
    ensures Usable(lengths) ==> lengths[k] <= 16
    ensures lengths[k] > 16 ==> !Usable(lengths)
  {
    hide KraftSum;
    MaxLengthIsMax(lengths, k);
  }

  lemma Successor(c: nat, p: nat)
    ensures (c + 1) * p == c * p + p
  {
  }

  lemma {:induction false} RowSize(lengths: seq<Byte>, max: nat, i: nat, n: nat)
    requires n <= |lengths| && i <= max
    ensures |Row(lengths, max, i, n)| == Count(lengths, i, n) * Pow2(max - i)
  {
    if n > 0 {
      RowSize(lengths, max, i, n - 1);
      Successor(Count(lengths, i, n - 1), Pow2(max - i));
    }
  }

  /** The rows of shorter codes fill the table exactly up to the first code of length `i`. */
  lemma {:induction false} RowsSize(lengths: seq<Byte>, max: nat, i: nat)
    requires 1 <= i <= max
    ensures |Rows(lengths, max, i - 1)| == NextCode(lengths, i) * Pow2(max - i)
  {
    if i > 1 {
      RowsSize(lengths, max, i - 1);
      RowSize(lengths, max, i - 1, |lengths|);
      var a, c, p := NextCode(lengths, i - 1), Count(lengths, i - 1, |lengths|), Pow2(max - i);
      assert Pow2(max - (i - 1)) == 2 * p;
      SumOfDoubles(a, c, p);
    }
  }

  lemma SumOfDoubles(a: nat, c: nat, p: nat)
    ensures a * (2 * p) + c * (2 * p) == (2 * (a + c)) * p
  {
  }

  /** The Kraft sum restricted to lengths up to `i` and to the first `n` symbols. */
  function PartialSum(lengths: seq<Byte>, max: nat, i: nat, n: nat): nat
    requires n <= |lengths| && i <= max
  {
    if n == 0 then 0
    else PartialSum(lengths, max, i, n - 1) + (if lengths[n - 1] <= i then Weight(lengths[n - 1], max) else 0)
  }

  lemma {:induction false} PartialSumStep(lengths: seq<Byte>, max: nat, i: nat, n: nat)
    requires n <= |lengths| && 1 <= i <= max
    ensures PartialSum(lengths, max, i, n) == PartialSum(lengths, max, i - 1, n) + |Row(lengths, max, i, n)|
  {
    if n > 0 {
      PartialSumStep(lengths, max, i, n - 1);
    }
  }

  lemma {:induction false} PartialSumZero(lengths: seq<Byte>, max: nat, n: nat)
    requires n <= |lengths|
    ensures PartialSum(lengths, max, 0, n) == 0
  {
    if n > 0 {
      PartialSumZero(lengths, max, n - 1);
    }
  }

  lemma {:induction false} RowsAreSum(lengths: seq<Byte>, max: nat, i: nat)
    requires i <= max
    ensures |Rows(lengths, max, i)| == PartialSum(lengths, max, i, |lengths|)
  {
    if i == 0 {
      PartialSumZero(lengths, max, |lengths|);
    } else {
      RowsAreSum(lengths, max, i - 1);
      PartialSumStep(lengths, max, i, |lengths|);
    }
  }

  lemma {:induction false} PartialSumIsKraft(lengths: seq<Byte>, max: nat, n: nat)
    requires n <= |lengths|
    ensures PartialSum(lengths, max, max, n) == KraftSum(lengths[..n], max)
  {
    if n > 0 {
      PartialSumIsKraft(lengths, max, n - 1);
      assert lengths[..n][..n - 1] == lengths[..n - 1];
    }
  }

  /** Filling by length or summing by symbol: the table needs exactly the Kraft sum. */
  lemma RowsAreKraft(lengths: seq<Byte>, max: nat)
    ensures |Rows(lengths, max, max)| == KraftSum(lengths, max)
  {
    RowsAreSum(lengths, max, max);
    PartialSumIsKraft(lengths, max, |lengths|);
    assert lengths[..|lengths|] == lengths;
  }

  // ---------- contents ----------

  lemma {:induction false} RowPrefix(lengths: seq<Byte>, max: nat, i: nat, n: nat, m: nat)
    requires n <= m <= |lengths| && i <= max
    ensures Row(lengths, max, i, n) <= Row(lengths, max, i, m)
    decreases m
  {
    if n < m {
      RowPrefix(lengths, max, i, n, m - 1);
    }
  }

  lemma {:induction false} RowsPrefix(lengths: seq<Byte>, max: nat, i: nat, j: nat)
    requires i <= j <= max
    ensures Rows(lengths, max, i) <= Rows(lengths, max, j)
    decreases j
  {
    if i < j {
      RowsPrefix(lengths, max, i, j - 1);
    }
  }

  /** Everything written before symbol `n` of length `i` is a prefix of the finished rows. */
  lemma WrittenPrefix(lengths: seq<Byte>, max: nat, i: nat, n: nat)
    requires 1 <= i <= max && n <= |lengths|
    ensures Rows(lengths, max, i - 1) + Row(lengths, max, i, n) <= Rows(lengths, max, max)
  {
    RowPrefix(lengths, max, i, n, |lengths|);
    RowsPrefix(lengths, max, i, max);
  }

  lemma {:induction false} RowEntries(lengths: seq<Byte>, max: nat, i: nat, n: nat, k: nat)
    requires n <= |lengths| && i <= max && k < |Row(lengths, max, i, n)|
    ensures Row(lengths, max, i, n)[k] < |lengths|
  {
    if k < |Row(lengths, max, i, n - 1)| {
      RowEntries(lengths, max, i, n - 1, k);
    }
  }

  lemma {:induction false} RowsEntries(lengths: seq<Byte>, max: nat, i: nat, k: nat)
    requires i <= max && k < |Rows(lengths, max, i)|
    ensures Rows(lengths, max, i)[k] < |lengths|
  {
    if k < |Rows(lengths, max, i - 1)| {
      RowsEntries(lengths, max, i - 1, k);
    } else {
      RowEntries(lengths, max, i, |lengths|, k - |Rows(lengths, max, i - 1)|);
    }
  }

  /** The table has 2^max entries, each naming a symbol. */
  lemma TableShape(lengths: seq<Byte>, k: nat)
    requires Usable(lengths) && lengths != []
    ensures |Table(lengths)| == Pow2(MaxLength(lengths))
    ensures k < |Table(lengths)| ==> Table(lengths)[k] < |lengths|
  {
    var max := MaxLength(lengths);
    RowsAreKraft(lengths, max);
    if k < |Rows(lengths, max, max)| {
      RowsEntries(lengths, max, max, k);
    }
  }

  /** How many bits of a table index are left over behind the symbol's code. */
  function Spare(lengths: seq<Byte>, symbol: nat): (n: nat)
    requires symbol < |lengths|
    ensures lengths[symbol] + n == MaxLength(lengths)
  {
    MaxLengthIsMax(lengths, symbol);
    MaxLength(lengths) - lengths[symbol]
  }

  /** The code value, scaled to a table index, is where the symbol's entries start. */
  lemma CodeStart(lengths: seq<Byte>, max: nat, symbol: nat)
    requires HasCode(lengths, symbol) && lengths[symbol] <= max
    ensures
      |Rows(lengths, max, lengths[symbol] - 1) + Row(lengths, max, lengths[symbol], symbol)| ==
      CodeValue(lengths, symbol) * Pow2(max - lengths[symbol])
  {
    var i: nat := lengths[symbol];
    RowsSize(lengths, max, i);
    RowSize(lengths, max, i, symbol);
    Distributed(NextCode(lengths, i), Count(lengths, i, symbol), Pow2(max - i));
  }

  /** A symbol's entries follow what was written before it. */
  lemma EntriesAfter(lengths: seq<Byte>, max: nat, symbol: nat, j: nat)
    requires HasCode(lengths, symbol) && lengths[symbol] <= max && j < Pow2(max - lengths[symbol])
    ensures
      var k := |Rows(lengths, max, lengths[symbol] - 1) + Row(lengths, max, lengths[symbol], symbol)| + j;
      k < |Rows(lengths, max, max)| && Rows(lengths, max, max)[k] == symbol
  {
    var i: nat := lengths[symbol];
    var row := Row(lengths, max, i, symbol);
    assert Row(lengths, max, i, symbol + 1) == row + Repeat(symbol, Pow2(max - i));
    assert (row + Repeat(symbol, Pow2(max - i)))[|row| + j] == symbol;
    WrittenPrefix(lengths, max, i, symbol + 1);
  }

  /** Each symbol with a code owns the aligned interval of all completions of its code. */
  lemma SymbolInterval(lengths: seq<Byte>, symbol: nat, j: nat)
    requires Usable(lengths) && HasCode(lengths, symbol) && j < Pow2(Spare(lengths, symbol))
    ensures
      var k := CodeValue(lengths, symbol) * Pow2(Spare(lengths, symbol)) + j;
      0 <= k < |Table(lengths)| && Table(lengths)[k] == symbol
  {
    hide Rows, Row, Table, CodeValue, Usable, MaxLength, Pow2;
    var max := MaxLength(lengths);
    var before := |Rows(lengths, max, lengths[symbol] - 1) + Row(lengths, max, lengths[symbol], symbol)|;
    CodeStart(lengths, max, symbol);
    EntriesAfter(lengths, max, symbol, j);
    TableStart(lengths, before + j);
  }

  lemma {:induction false} RowOwner(lengths: seq<Byte>, max: nat, i: nat, n: nat, k: nat)
    requires n <= |lengths| && i <= max && k < |Row(lengths, max, i, n)|
    ensures
      var s := Row(lengths, max, i, n)[k];
      s < n && lengths[s] == i && |Row(lengths, max, i, s)| <= k < |Row(lengths, max, i, s)| + Pow2(max - i)
  {
    if k < |Row(lengths, max, i, n - 1)| {
      RowOwner(lengths, max, i, n - 1, k);
    }
  }

  /** An entry stands where its symbol's entries were written. */
  lemma {:induction false} RowsOwner(lengths: seq<Byte>, max: nat, i: nat, k: nat)
    requires i <= max && k < |Rows(lengths, max, i)|
    ensures
      var s := Rows(lengths, max, i)[k];
      && s < |lengths| && 1 <= lengths[s] <= i
      && var start := |Rows(lengths, max, lengths[s] - 1) + Row(lengths, max, lengths[s], s)|;
         start <= k < start + Pow2(max - lengths[s])
  {
    hide Row, Pow2;
    if k < |Rows(lengths, max, i - 1)| {
      RowsOwner(lengths, max, i - 1, k);
    } else {
      RowOwner(lengths, max, i, |lengths|, k - |Rows(lengths, max, i - 1)|);
    }
  }

  /** Every entry up to the Kraft sum lies in the interval of the symbol it names; the others name symbol 0. */
  lemma EntryLiesInInterval(lengths: seq<Byte>, k: nat)
    requires Usable(lengths) && k < |Table(lengths)|
    ensures
      var s := Table(lengths)[k];
      if k < KraftSum(lengths, MaxLength(lengths)) then
        && HasCode(lengths, s)
        && CodeValue(lengths, s) * Pow2(Spare(lengths, s)) <= k < (CodeValue(lengths, s) + 1) * Pow2(Spare(lengths, s))
      else s == 0
  {
    hide Rows, Row, CodeValue, Usable, MaxLength, Pow2, KraftSum;
    var max := MaxLength(lengths);
    RowsAreKraft(lengths, max);
    if k < |Rows(lengths, max, max)| {
      RowsOwner(lengths, max, max, k);
      var s := Table(lengths)[k];
      CodeStart(lengths, max, s);
      Successor(CodeValue(lengths, s), Pow2(Spare(lengths, s)));
    }
  }

  lemma TableStart(lengths: seq<Byte>, k: nat)
    requires Usable(lengths) && k < |Rows(lengths, MaxLength(lengths), MaxLength(lengths))|
    ensures k < |Table(lengths)|
    ensures Table(lengths)[k] == Rows(lengths, MaxLength(lengths), MaxLength(lengths))[k]
  {
    RowsAreKraft(lengths, MaxLength(lengths));
  }

  lemma Distributed(a: nat, c: nat, p: nat)
    ensures a * p + c * p == (a + c) * p
  {
  }

  lemma CodeValueFits(lengths: seq<Byte>, symbol: nat)
    requires Usable(lengths) && HasCode(lengths, symbol)
    ensures CodeValue(lengths, symbol) < Pow2(lengths[symbol])
  {
    var i, spare := lengths[symbol], Spare(lengths, symbol);
    SymbolInterval(lengths, symbol, 0);
    TableShape(lengths, 0);
    if CodeValue(lengths, symbol) >= Pow2(i) {
      MulMonotone(Pow2(i), CodeValue(lengths, symbol), Pow2(spare));
      Pow2Add(i, spare);
    }
  }

  // ---------- decoding one symbol ----------

  /** The symbol at the front of the bits, and the bits behind its code. */
  function DecodeSymbol(lengths: seq<Byte>, b: seq<bool>): (r: (nat, seq<bool>))
    requires Usable(lengths) && lengths != []
    ensures r.0 < |lengths| && |r.1| <= |b|
  {
    var max := MaxLength(lengths);
    ValBound(Padded(b, max));
    TableShape(lengths, PeekVal(b, max));
    var symbol := Table(lengths)[PeekVal(b, max)];
    (symbol, Drop(b, lengths[symbol]))
  }

  /** Bits that start with a symbol's code index into that symbol's interval. */
  lemma CodeIndex(lengths: seq<Byte>, symbol: nat, tail: seq<bool>)
    requires Usable(lengths) && HasCode(lengths, symbol) && |tail| == Spare(lengths, symbol)
    ensures Val(Code(lengths, symbol) + tail) < |Table(lengths)|
    ensures Table(lengths)[Val(Code(lengths, symbol) + tail)] == symbol
  {
    CodeValueFits(lengths, symbol);
    ValBitsOf(CodeValue(lengths, symbol), lengths[symbol]);
    ValConcat(Code(lengths, symbol), tail);
    ValBound(tail);
    SymbolInterval(lengths, symbol, Val(tail));
  }

  /** Decoding inverts encoding, whatever follows the code, also at the very end of the input. */
  lemma DecodeCode(lengths: seq<Byte>, symbol: nat, rest: seq<bool>)
    requires Usable(lengths) && HasCode(lengths, symbol)
    ensures DecodeSymbol(lengths, Code(lengths, symbol) + rest) == (symbol, rest)
  {
    var max, i := MaxLength(lengths), lengths[symbol];
    var code := Code(lengths, symbol);
    assert i + Spare(lengths, symbol) == max;
    var tail := Padded(code + rest, max)[i..];
    assert Padded(code + rest, max) == code + tail;
    CodeIndex(lengths, symbol, tail);
    assert Drop(code + rest, i) == rest;
  }

  /** No code is a prefix of another symbol's code. */
  lemma PrefixFree(lengths: seq<Byte>, s: nat, t: nat)
    requires Usable(lengths) && HasCode(lengths, s) && HasCode(lengths, t)
    requires Code(lengths, s) <= Code(lengths, t)
    ensures s == t
  {
    var tail := Code(lengths, t)[|Code(lengths, s)|..];
    assert Code(lengths, s) + tail == Code(lengths, t) + [];
    DecodeCode(lengths, s, tail);
    DecodeCode(lengths, t, []);
  }
}

/** The decoder object (HuffmanDecoder.h, HuffmanDecoder.cpp). */
module HuffmanDecoders {
  import opened Bits
  import opened BitReading
  import opened HuffmanCodes
  import opened BitStreams

  class HuffmanDecoder {
    var codeLengths: seq<Byte>
    var maxBitsNumber: nat
    var symbols: seq<nat>

    /** The table belongs to the current code lengths. */
    ghost predicate Built()
      reads this
    {
      && Usable(codeLengths) && codeLengths != []
      && maxBitsNumber == MaxLength(codeLengths) && symbols == Table(codeLengths)
    }

    constructor ()
      ensures codeLengths == []
    {
      codeLengths, maxBitsNumber, symbols := [], 0, [];
    }

    method Reset()
      modifies this`codeLengths
      ensures codeLengths == []
    {
      codeLengths := [];
    }

    /** Symbols are counted in 16 bits, so no caller may have more than 65535 of them. */
    method BuildTable() returns (ok: bool)
      requires |codeLengths| <= 0xFFFF
      modifies this`maxBitsNumber, this`symbols
      ensures ok == Usable(codeLengths)
      ensures ok ==> maxBitsNumber == MaxLength(codeLengths) && symbols == Table(codeLengths)
    {
      ComputeMax();
      if maxBitsNumber > MAX_CODE_LENGTH {
        return false;
      }
      var tableSize := Pow2(maxBitsNumber);
      symbols := [];
      RowsAreKraft(codeLengths, maxBitsNumber);
      var i := 1;
      while i <= maxBitsNumber
        invariant 1 <= i <= maxBitsNumber + 1 && |symbols| <= tableSize
        invariant maxBitsNumber == MaxLength(codeLengths)
        invariant symbols == Rows(codeLengths, maxBitsNumber, i - 1)
      {
        var fits := AppendRow(i, tableSize);
        if !fits {
          return false;
        }
        i := i + 1;
      }
      if |symbols| < tableSize {
        symbols := symbols + Repeat(0, tableSize - |symbols|);
      }
      ok := true;
    }

    method ComputeMax()
      modifies this`maxBitsNumber
      ensures maxBitsNumber == MaxLength(codeLengths)
    {
      maxBitsNumber := 0;
      for symbol := 0 to |codeLengths|
        invariant maxBitsNumber == MaxLength(codeLengths[..symbol])
      {
        assert codeLengths[..symbol + 1][..symbol] == codeLengths[..symbol];
        maxBitsNumber := if codeLengths[symbol] > maxBitsNumber then codeLengths[symbol] else maxBitsNumber;
      }
      assert codeLengths[..|codeLengths|] == codeLengths;
    }

    /** The inner loop: the entries of one code length, until the table overflows. */
    method AppendRow(i: nat, tableSize: nat) returns (fits: bool)
      requires 1 <= i <= maxBitsNumber
      requires symbols == Rows(codeLengths, maxBitsNumber, i - 1)
      requires |symbols| <= tableSize
      modifies this`symbols
      ensures fits ==> symbols == Rows(codeLengths, maxBitsNumber, i) && |symbols| <= tableSize
      ensures !fits ==> |Rows(codeLengths, maxBitsNumber, maxBitsNumber)| > tableSize
    {
      for symbol := 0 to |codeLengths|
        invariant symbols == Rows(codeLengths, maxBitsNumber, i - 1) + Row(codeLengths, maxBitsNumber, i, symbol)
        invariant |symbols| <= tableSize
      {
        if codeLengths[symbol] == i {
          symbols := symbols + Repeat(symbol, Pow2(maxBitsNumber - i));
          if |symbols| > tableSize {
            WrittenPrefix(codeLengths, maxBitsNumber, i, symbol + 1);
            return false;
          }
        }
      }
      fits := true;
    }

    method GetSymbol(stream: BitStream) returns (symbol: nat)
      requires Built() && stream.Valid()
      modifies stream
      ensures stream.Valid()
      ensures symbol == DecodeSymbol(codeLengths, old(stream.Unread())).0
      ensures stream.Unread() == DecodeSymbol(codeLengths, old(stream.Unread())).1
    {
      var index := stream.Peek(maxBitsNumber);
      ValBound(Padded(stream.Unread(), maxBitsNumber));
      TableShape(codeLengths, index);
      symbol := symbols[index];
      MaxLengthIsMax(codeLengths, symbol);
      stream.Remove(codeLengths[symbol]);
    }
  }
}
