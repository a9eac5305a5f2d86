/** Everything the window can reach can be sent: the round trip is not about an empty set of encodings. */
module LzxEncodable {
  import opened Basics
  import opened Bits
  import opened HuffmanCodes
  import opened CodeLengths
  import opened Offsets
  import opened Lzx
  import opened LzxEncoder
  import opened LzxRoundTrip
  import opened LzxIntervals

  const MAIN_CODE_LENGTH: Byte := 10
  const LENGTH_CODE_LENGTH: Byte := 8

  /** The same tokens with every offset written out. */
  function WrittenOut(tokens: seq<Token>): (r: seq<Token>)
    ensures |r| == |tokens|
  {
    if tokens == [] then []
    else
      var first := if tokens[0].Copy? then tokens[0].(form := InFull) else tokens[0];
      [first] + WrittenOut(tokens[1..])
  }

  lemma {:induction false} WrittenOutMeansTheSame(out: seq<Byte>, tokens: seq<Token>)
    requires AllInReach(|out|, tokens)
    ensures AllInReach(|out|, WrittenOut(tokens)) && Expand(out, WrittenOut(tokens)) == Expand(out, tokens)
    ensures Size(WrittenOut(tokens)) == Size(tokens)
    decreases tokens
  {
    if tokens != [] {
      var written := WrittenOut(tokens);
      assert written[1..] == WrittenOut(tokens[1..]);
      hide WrittenOut, Copied;
      assert ExpandToken(out, written[0]) == ExpandToken(out, tokens[0]);
      WrittenOutMeansTheSame(ExpandToken(out, tokens[0]), tokens[1..]);
    }
  }

  predicate OffsetsUpTo(limit: int, tokens: seq<Token>)
  {
    forall i :: 0 <= i < |tokens| && tokens[i].Copy? ==> tokens[i].offset <= limit
  }

  /** Trees in which every symbol of the two big alphabets has a code. */
  predicate AllCodes(slots: nat, t: Trees)
  {
    && (forall z: nat :: z < LITERALS + 8 * slots ==> HasCode(t.main, z))
    && (forall z: nat :: z < LENGTH_TREE_SIZE ==> HasCode(t.length, z))
  }

  lemma SendFlat(lengths: seq<Byte>, from: nat, value: Byte, n: nat) returns (plan: Plan)
    requires value <= 16 && lengths == Same(value, from)
    ensures PlanOk(plan, lengths, from, n) && Planned(plan, lengths, from, n) == Same(value, from + n)
  {
    hide ItemsOk, PreOk;
    plan := EveryVectorHasAPlan(lengths, from, Same(value, n));
    assert Splice(Extend(lengths, from + n), from, Same(value, n)) == Same(value, from + n);
  }

  lemma FlatHeader(slots: nat, size: nat) returns (h: Header)
    requires slots <= LAST_SLOT && size < Pow2(24)
    ensures HeaderOk(slots, Trees([], [], []), h) && h.kind == VERBATIM && h.size == size
    ensures AllCodes(slots, TreesAfter(slots, Trees([], [], []), h))
  {
    hide PlanOk, Planned, Usable;
    assert Same(MAIN_CODE_LENGTH, 0) == [] == Same(LENGTH_CODE_LENGTH, 0);
    var low := SendFlat([], 0, MAIN_CODE_LENGTH, LITERALS);
    var high := SendFlat(Same(MAIN_CODE_LENGTH, LITERALS), LITERALS, MAIN_CODE_LENGTH, 8 * slots);
    var length := SendFlat([], 0, LENGTH_CODE_LENGTH, LENGTH_TREE_SIZE);
    assert Pow2(10) == 1024 && Pow2(8) == 256;
    FlatUsable(Same(MAIN_CODE_LENGTH, LITERALS + 8 * slots), MAIN_CODE_LENGTH);
    FlatUsable(Same(LENGTH_CODE_LENGTH, LENGTH_TREE_SIZE), LENGTH_CODE_LENGTH);
    h := Header(VERBATIM, size, [], low, high, length);
  }

  lemma {:induction false} WrittenOutOk(w: nat, t: Trees, recent: Recent, available: nat, tokens: seq<Token>)
    requires 15 <= w <= 21 && AllCodes(SlotNumber(w), t)
    requires AllInReach(available, tokens) && OffsetsUpTo(Pow2(w) - 3, tokens)
    ensures TokensOk(VERBATIM, t, recent, available, WrittenOut(tokens))
    decreases tokens
  {
    hide Pow2, SlotNumber, SlotOf, Base, HasCode;
    if tokens != [] {
      var written := WrittenOut(tokens);
      assert written[1..] == WrittenOut(tokens[1..]);
      var token := written[0];
      if token.Copy? {
        WindowSlots(w, token.offset);
        assert HasCode(t.main, MainSymbol(recent, token));
        if token.length >= 9 {
          assert HasCode(t.length, token.length - 9);
        }
      } else {
        assert HasCode(t.main, token.value);
      }
      WrittenOutOk(w, t, Shift(recent, token), available + TokenSize(token), tokens[1..]);
    }
  }

  /** Any tokens that stay inside a window of size 2^w and reach back at most 2^w - 3 can be sent as one frame. */
  lemma EveryTokenListIsEncodable(w: nat, tokens: seq<Token>) returns (frame: Frame)
    requires 15 <= w <= 21
    requires AllInReach(0, tokens) && 0 < Size(tokens) <= Pow2(w) && OffsetsUpTo(Pow2(w) - 3, tokens)
    ensures IntervalOk(FreshEnc(SlotNumber(w)), [frame], Pow2(w)) && frame.size == Size(tokens)
    ensures FramesTokens([frame]) == WrittenOut(tokens) && AllInReach(0, WrittenOut(tokens))
    ensures Expand([], WrittenOut(tokens)) == Expand([], tokens)
  {
    hide PlanOk, Planned, Usable, TreesAfter, OffsetsUpTo, AllCodes, SlotNumber, TokensOk, Expand, AllInReach, Size,
      IntervalOk, FramesTokens, FrameOk;
    var slots, n := SlotNumber(w), Size(tokens);
    SlotsCoverWindow(w);
    Pow2Monotone(w, 21);
    Pow2Monotone(21, 23);
    assert Pow2(24) == 2 * Pow2(23);
    var h := FlatHeader(slots, n);
    var e := FreshEnc(slots);
    WrittenOutOk(w, TreesAfter(slots, e.trees, h), e.recent, 0, tokens);
    WrittenOutMeansTheSame([], tokens);
    var piece := Opened(h, WrittenOut(tokens));
    frame := Frame(None, [piece], n);
    OneFrame(e, frame, piece, Pow2(w));
  }

  lemma OneFrame(e: Enc, frame: Frame, piece: Piece, capacity: nat)
    requires frame == Frame(None, [piece], Size(piece.tokens)) && frame.size > 0
    requires PieceOk(e, piece, frame.size) && |e.out| + frame.size <= capacity
    ensures IntervalOk(e, [frame], capacity) && FramesTokens([frame]) == piece.tokens
  {
    hide PieceStarts, TokensFit, Started;
    assert [piece][1..] == [] && [frame][1..] == [];
    assert PiecesTokens([piece]) == piece.tokens + PiecesTokens([]) == piece.tokens;
    assert PiecesOk(e, [piece], frame.size);
  }

  /** Conversely, an offset written out in full has a code only if it is at most the window size less three. */
  lemma LongerOffsetsHaveNoSymbol(w: nat, t: Trees, kind: nat, recent: Recent, available: nat, token: Token)
    requires 15 <= w <= 21 && |t.main| == LITERALS + 8 * SlotNumber(w)
    requires token.Copy? && token.form.InFull? && TokenOk(kind, t, recent, available, token)
    ensures token.offset <= Pow2(w) - 3
  {
    hide SlotNumber, SlotOf, Base, Pow2;
    WindowSlots(w, token.offset);
  }
}
