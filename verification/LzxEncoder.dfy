/** LZ77 tokens, what they expand to, and every way of encoding them that the decompressor accepts. */
module LzxEncoder {
  import opened Basics
  import opened Bits
  import opened BitReading
  import opened HuffmanCodes
  import opened Offsets
  import opened Lzx
  import opened LzxReach

  // ---------- tokens and their expansion ----------

  /** How a match names its offset: in full, or as one of the three remembered offsets. */
  datatype Form = InFull | Remembered(k: nat)

  datatype Token =
    | Byte(value: Byte)
    | Copy(length: nat, offset: nat, form: Form)

  function TokenSize(token: Token): nat { if token.Byte? then 1 else token.length }

  function Size(tokens: seq<Token>): nat
  {
    if tokens == [] then 0 else TokenSize(tokens[0]) + Size(tokens[1..])
  }

  /** Append `n` bytes, each the one `offset` places back; source and target may overlap. */
  function Copied(out: seq<Byte>, offset: nat, n: nat): (r: seq<Byte>)
    requires 1 <= offset <= |out|
    ensures |r| == |out| + n
    decreases n
  {
    if n == 0 then out else Copied(out + [out[|out| - offset]], offset, n - 1)
  }

  /** A match may reach back only to bytes that are there. */
  predicate InReach(available: nat, token: Token)
  {
    token.Copy? ==> 2 <= token.length <= 257 && 1 <= token.offset <= available
  }

  function ExpandToken(out: seq<Byte>, token: Token): (r: seq<Byte>)
    requires InReach(|out|, token)
    ensures |r| == |out| + TokenSize(token)
  {
    match token
    case Byte(value) => out + [value]
    case Copy(length, offset, _) => Copied(out, offset, length)
  }

  predicate AllInReach(available: nat, tokens: seq<Token>)
    decreases tokens
  {
    tokens != [] ==> InReach(available, tokens[0]) && AllInReach(available + TokenSize(tokens[0]), tokens[1..])
  }

  /** What the tokens mean: the LZ77 expansion. */
  function Expand(out: seq<Byte>, tokens: seq<Token>): (r: seq<Byte>)
    requires AllInReach(|out|, tokens)
    ensures |r| == |out| + Size(tokens)
    decreases tokens
  {
    if tokens == [] then out else Expand(ExpandToken(out, tokens[0]), tokens[1..])
  }

  // ---------- the window holds the expansion ----------

  lemma {:induction false} CopyBytesExpands(bytes: seq<Byte>, pos: nat, src: nat, offset: nat, n: nat)
    requires pos + n <= |bytes| && 1 <= offset <= pos
    requires src == pos - offset || src == pos + |bytes| - offset
    ensures CopyBytes(bytes, pos, src, n).Some?
    ensures CopyBytes(bytes, pos, src, n).value[..pos + n] == Copied(bytes[..pos], offset, n)
    decreases n
  {
    if n > 0 {
      var s := pos - offset;
      var bytes' := bytes[pos := bytes[s]];
      assert bytes'[..pos + 1] == bytes[..pos] + [bytes[..pos][pos - offset]];
      CopyBytesExpands(bytes', pos + 1, s + 1, offset, n - 1);
    }
  }

  /** The symbol a token is sent as: its remembered offsets are those after it. */
  function Shift(recent: Recent, token: Token): Recent
  {
    match token
    case Byte(_) => recent
    case Copy(_, offset, InFull) => Recent(offset, recent.r0, recent.r1)
    case Copy(_, _, Remembered(k)) =>
      if k == 0 then recent
      else if k == 1 then Recent(recent.r1, recent.r0, recent.r2)
      else Recent(recent.r2, recent.r1, recent.r0)
  }

  function SymbolOf(recent: Recent, token: Token): Symbol
  {
    match token
    case Byte(value) => Literal(value)
    case Copy(length, offset, _) => Match(length, offset, Shift(recent, token))
  }

  lemma ApplyExpands(c: Cursor, token: Token)
    requires InReach(c.pos, token) && c.pos + TokenSize(token) <= |c.bytes|
    ensures
      var r := Apply(c, SymbolOf(c.recent, token));
      && r.Some?
      && r.value.bytes[..r.value.pos] == ExpandToken(c.bytes[..c.pos], token)
      && r.value.recent == Shift(c.recent, token)
  {
    match token
    case Byte(value) =>
      assert c.bytes[c.pos := value][..c.pos + 1] == c.bytes[..c.pos] + [value];
    case Copy(length, offset, _) =>
      CopyBytesExpands(c.bytes, c.pos, c.pos + |c.bytes| - offset, offset, length);
  }

  // ---------- encoding a token ----------

  function SlotField(recent: Recent, token: Token): nat
    requires token.Copy?
  {
    match token.form
    case InFull => SlotOf(token.offset)
    case Remembered(k) => k
  }

  function LengthField(length: nat): nat
    requires length >= 2
  {
    if length - 2 < 7 then length - 2 else 7
  }

  function MainSymbol(recent: Recent, token: Token): nat
    requires token.Copy? && token.length >= 2
  {
    LITERALS + 8 * SlotField(recent, token) + LengthField(token.length)
  }

  function RecentAt(recent: Recent, k: nat): nat
  {
    if k == 0 then recent.r0 else if k == 1 then recent.r1 else recent.r2
  }

  /** The footer of an explicit offset can be sent: an aligned block needs a code for its low three bits. */
  predicate FooterOk(kind: nat, t: Trees, footer: nat, extra: nat)
  {
    kind == ALIGNED && footer >= 3 ==> HasCode(t.aligned, extra % 8)
  }

  predicate FormOk(kind: nat, t: Trees, recent: Recent, token: Token)
    requires token.Copy?
  {
    match token.form
    case InFull => Explicit(token.offset) && FooterOk(kind, t, FooterBits(SlotOf(token.offset)), FooterOf(token.offset))
    case Remembered(k) => k <= 2 && token.offset == RecentAt(recent, k)
  }

  /** The token may be sent in this block: every symbol it needs has a code. */
  predicate TokenOk(kind: nat, t: Trees, recent: Recent, available: nat, token: Token)
  {
    && InReach(available, token)
    && match token
       case Byte(value) => HasCode(t.main, value)
       case Copy(length, offset, _) =>
         && FormOk(kind, t, recent, token)
         && HasCode(t.main, MainSymbol(recent, token))
         && (length >= 9 ==> HasCode(t.length, length - 9))
  }

  function FooterCode(kind: nat, t: Trees, footer: nat, extra: nat): seq<bool>
    requires FooterOk(kind, t, footer, extra)
  {
    if kind != ALIGNED || footer < 3 then BitsOf(extra, footer)
    else BitsOf(extra / 8, footer - 3) + Code(t.aligned, extra % 8)
  }

  function LengthCode(t: Trees, length: nat): seq<bool>
    requires length >= 9 ==> HasCode(t.length, length - 9)
  {
    if length >= 9 then Code(t.length, length - 9) else []
  }

  function OffsetCode(kind: nat, t: Trees, recent: Recent, token: Token): seq<bool>
    requires token.Copy? && FormOk(kind, t, recent, token)
  {
    match token.form
    case InFull => FooterCode(kind, t, FooterBits(SlotOf(token.offset)), FooterOf(token.offset))
    case Remembered(_) => []
  }

  function TokenBits(kind: nat, t: Trees, recent: Recent, available: nat, token: Token): seq<bool>
    requires TokenOk(kind, t, recent, available, token)
  {
    match token
    case Byte(value) => Code(t.main, value)
    case Copy(length, _, _) =>
      Code(t.main, MainSymbol(recent, token)) + (LengthCode(t, length) + OffsetCode(kind, t, recent, token))
  }

  // ---------- decoding an encoded token ----------

  /** The decoder's trees agree with the encoder's as far as a block of this kind looks at them. */
  predicate SameTrees(kind: nat, t: Trees, u: Trees)
  {
    t.main == u.main && t.length == u.length && (kind == ALIGNED ==> t.aligned == u.aligned)
  }

  lemma ReadFooterCode(kind: nat, t: Trees, u: Trees, footer: nat, extra: nat, rest: seq<bool>)
    requires TreesReady(kind, u) && SameTrees(kind, t, u)
    requires FooterOk(kind, t, footer, extra) && extra < Pow2(footer)
    ensures ReadFooter(kind, u, footer, FooterCode(kind, t, footer, extra) + rest) == (extra, rest)
  {
    hide DecodeSymbol, Code, Usable, GetVal, GetRest;
    if kind != ALIGNED || footer < 3 {
      GetPrinted(extra, footer, rest);
      if footer == 0 {
        assert [] + rest == rest;
      }
    } else {
      var low := Code(t.aligned, extra % 8) + rest;
      EighthFits(extra, footer);
      assert FooterCode(kind, t, footer, extra) + rest == BitsOf(extra / 8, footer - 3) + low;
      GetPrinted(extra / 8, footer - 3, low);
      DecodeCode(t.aligned, extra % 8, rest);
      if footer == 3 {
        assert BitsOf(extra / 8, footer - 3) + low == low;
      }
    }
  }

  lemma EighthFits(extra: nat, footer: nat)
    requires footer >= 3 && extra < Pow2(footer)
    ensures extra / 8 < Pow2(footer - 3) && (footer == 3 ==> extra < 8)
  {
    assert Pow2(3) == 8;
    Pow2Add(3, footer - 3);
  }

  lemma ReadOffsetCode(kind: nat, t: Trees, u: Trees, recent: Recent, token: Token, rest: seq<bool>)
    requires TreesReady(kind, u) && SameTrees(kind, t, u)
    requires token.Copy? && FormOk(kind, t, recent, token)
    ensures
      ReadOffset(kind, u, recent, SlotField(recent, token), OffsetCode(kind, t, recent, token) + rest) ==
      Some(OffsetRead(token.offset, Shift(recent, token), rest))
  {
    hide DecodeSymbol, Code, Usable, ReadFooter, FooterCode, Base, SlotOf, FooterBits, FooterOf;
    match token.form
    case InFull =>
      var slot, extra := SlotOf(token.offset), FooterOf(token.offset);
      FooterFits(token.offset);
      SplitIsBijective(token.offset, slot, extra);
      ReadFooterCode(kind, t, u, FooterBits(slot), extra, rest);
      if kind == VERBATIM && slot == 3 {
        SlotThree(extra, rest, kind, t);
      }
    case Remembered(k) =>
      assert [] + rest == rest;
  }

  /** Slot 3 holds the single offset 1 and has no footer. */
  lemma SlotThree(extra: nat, rest: seq<bool>, kind: nat, t: Trees)
    requires extra < Pow2(FooterBits(3)) && kind == VERBATIM
    ensures extra == 0 && JoinOffset(3, extra) == 1
    ensures FooterCode(kind, t, FooterBits(3), extra) + rest == rest
  {
    assert FooterBits(3) == 0;
    assert BitsOf(0, 0) + rest == rest;
  }

  lemma ReadLengthCode(t: Trees, main: nat, length: nat, rest: seq<bool>)
    requires TreeReady(t.length) && length >= 2 && main % 8 == LengthField(length)
    requires length >= 9 ==> HasCode(t.length, length - 9)
    ensures ReadMatchLength(t, main, LengthCode(t, length) + rest) == (length, rest)
  {
    hide DecodeSymbol, Code, Usable;
    if length >= 9 {
      DecodeCode(t.length, length - 9, rest);
    } else {
      assert [] + rest == rest;
    }
  }

  /** Whatever follows, the reader gets the token's symbol and stands behind its bits. */
  lemma ReadTokenBits(
    kind: nat, t: Trees, u: Trees, recent: Recent, available: nat, token: Token, rest: seq<bool>, left: nat)
    requires TreesReady(kind, u) && SameTrees(kind, t, u)
    requires TokenOk(kind, t, recent, available, token) && TokenSize(token) <= left
    ensures
      ReadSymbol(kind, u, recent, TokenBits(kind, t, recent, available, token) + rest, left) ==
      Some(SymbolRead(SymbolOf(recent, token), rest))
  {
    hide DecodeSymbol, Code, Usable, ReadOffset, ReadMatchLength, LengthCode, OffsetCode, SlotOf, FormOk, Shift;
    match token
    case Byte(value) =>
      DecodeCode(t.main, value, rest);
    case Copy(length, offset, _) =>
      var main := MainSymbol(recent, token);
      var b3 := OffsetCode(kind, t, recent, token) + rest;
      var b2 := LengthCode(t, length) + b3;
      assert TokenBits(kind, t, recent, available, token) + rest == Code(t.main, main) + b2;
      DecodeCode(t.main, main, b2);
      assert main % 8 == LengthField(length) && (main - LITERALS) / 8 == SlotField(recent, token);
      ReadLengthCode(u, main, length, b3);
      assert LengthCode(t, length) == LengthCode(u, length) by { LengthCodeSame(t, u, length); }
      ReadOffsetCode(kind, t, u, recent, token, rest);
  }

  lemma LengthCodeSame(t: Trees, u: Trees, length: nat)
    requires t.length == u.length && (length >= 9 ==> HasCode(t.length, length - 9))
    ensures LengthCode(t, length) == LengthCode(u, length)
  {
  }

  // ---------- runs of tokens ----------

  predicate TokensOk(kind: nat, t: Trees, recent: Recent, available: nat, tokens: seq<Token>)
    decreases tokens
  {
    tokens != [] ==>
      && TokenOk(kind, t, recent, available, tokens[0])
      && TokensOk(kind, t, Shift(recent, tokens[0]), available + TokenSize(tokens[0]), tokens[1..])
  }

  function TokensBits(kind: nat, t: Trees, recent: Recent, available: nat, tokens: seq<Token>): seq<bool>
    requires TokensOk(kind, t, recent, available, tokens)
    decreases tokens
  {
    if tokens == [] then []
    else
      TokenBits(kind, t, recent, available, tokens[0]) +
      TokensBits(kind, t, Shift(recent, tokens[0]), available + TokenSize(tokens[0]), tokens[1..])
  }

  function ShiftAll(recent: Recent, tokens: seq<Token>): Recent
    decreases tokens
  {
    if tokens == [] then recent else ShiftAll(Shift(recent, tokens[0]), tokens[1..])
  }

  lemma {:induction false} TokensInReach(kind: nat, t: Trees, recent: Recent, available: nat, tokens: seq<Token>)
    requires TokensOk(kind, t, recent, available, tokens)
    ensures AllInReach(available, tokens)
    decreases tokens
  {
    if tokens != [] {
      TokensInReach(kind, t, Shift(recent, tokens[0]), available + TokenSize(tokens[0]), tokens[1..]);
    }
  }

  /** The window's prefix becomes the expansion, and the bits behind the tokens are left. */
  lemma {:induction false} DecodeTokensBits(
    kind: nat, t: Trees, u: Trees, c: Cursor, tokens: seq<Token>, rest: seq<bool>, n: nat)
    requires TreesReady(kind, u) && SameTrees(kind, t, u) && c.pos + n <= |c.bytes|
    requires TokensOk(kind, t, c.recent, c.pos, tokens) && Size(tokens) == n
    ensures AllInReach(c.pos, tokens)
    ensures
      var r := DecodeBytes(kind, u, c, TokensBits(kind, t, c.recent, c.pos, tokens) + rest, n);
      && r.Some? && r.value.rest == rest
      && r.value.cursor.bytes[..r.value.cursor.pos] == Expand(c.bytes[..c.pos], tokens)
      && r.value.cursor.recent == ShiftAll(c.recent, tokens)
    ensures BytesInReach(kind, u, c, TokensBits(kind, t, c.recent, c.pos, tokens) + rest, n)
    decreases tokens
  {
    hide TreesReady, SameTrees, ReadSymbol, Apply, TokenBits, TokenOk, ExpandToken, Shift, InReach, SymbolInReach;
    TokensInReach(kind, t, c.recent, c.pos, tokens);
    if tokens == [] {
      assert [] + rest == rest;
    } else {
      var token := tokens[0];
      var available' := c.pos + TokenSize(token);
      var tail := TokensBits(kind, t, Shift(c.recent, token), available', tokens[1..]) + rest;
      assert TokensBits(kind, t, c.recent, c.pos, tokens) + rest ==
             TokenBits(kind, t, c.recent, c.pos, token) + tail;
      TokenNotEmpty(kind, t, c.recent, c.pos, token);
      ReadTokenBits(kind, t, u, c.recent, c.pos, token, tail, n);
      ApplyExpands(c, token);
      var c' := Apply(c, SymbolOf(c.recent, token)).value;
      DecodeTokensBits(kind, t, u, c', tokens[1..], rest, n - TokenSize(token));
    }
  }

  lemma TokenNotEmpty(kind: nat, t: Trees, recent: Recent, available: nat, token: Token)
    requires TokenOk(kind, t, recent, available, token)
    ensures InReach(available, token) && TokenSize(token) > 0 && SymbolSize(SymbolOf(recent, token)) == TokenSize(token)
    ensures SymbolInReach(available, SymbolOf(recent, token))
  {
  }
}
