/** The frames between two resets, and the two halves of the main result: what was sent comes back, and
    everything within reach of the window can be sent. */
module LzxIntervals {
  import opened Bits
  import opened BitReading
  import opened Lzx
  import opened LzxReach
  import opened LzxEncoder
  import opened LzxRoundTrip

  predicate IntervalOk(e: Enc, frames: seq<Frame>, capacity: nat)
    decreases frames
  {
    frames != [] ==>
      && FrameOk(e, frames[0]) && |e.out| + frames[0].size <= capacity
      && IntervalOk(AfterFrame(e, frames[0]), frames[1..], capacity)
  }

  /** Only the first frame after a reset carries the flag. */
  function Packed(first: bool, e: Enc, frames: seq<Frame>, capacity: nat): seq<FrameData>
    requires IntervalOk(e, frames, capacity)
    decreases frames
  {
    if frames == [] then []
    else
      [FrameData(ToBytes(FrameBits(first, e, frames[0])), frames[0].size)] +
      Packed(false, AfterFrame(e, frames[0]), frames[1..], capacity)
  }

  function AfterFrames(e: Enc, frames: seq<Frame>, capacity: nat): Enc
    requires IntervalOk(e, frames, capacity)
    decreases frames
  {
    if frames == [] then e else AfterFrames(AfterFrame(e, frames[0]), frames[1..], capacity)
  }

  // ---------- all tokens of an interval ----------

  function PiecesTokens(pieces: seq<Piece>): seq<Token>
  {
    if pieces == [] then [] else pieces[0].tokens + PiecesTokens(pieces[1..])
  }

  function FramesTokens(frames: seq<Frame>): seq<Token>
  {
    if frames == [] then [] else PiecesTokens(frames[0].pieces) + FramesTokens(frames[1..])
  }

  lemma {:induction false} ExpandConcat(out: seq<Byte>, a: seq<Token>, b: seq<Token>)
    requires AllInReach(|out|, a) && AllInReach(|out| + Size(a), b)
    ensures AllInReach(|out|, a + b)
    ensures Expand(out, a + b) == Expand(Expand(out, a), b)
    decreases a
  {
    hide ExpandToken, InReach;
    if a == [] {
      assert a + b == b;
    } else {
      assert (a + b)[0] == a[0] && (a + b)[1..] == a[1..] + b;
      ExpandConcat(ExpandToken(out, a[0]), a[1..], b);
    }
  }

  lemma {:induction false} PiecesExpand(e: Enc, pieces: seq<Piece>, n: nat)
    requires PiecesOk(e, pieces, n)
    ensures AllInReach(|e.out|, PiecesTokens(pieces))
    ensures AfterPieces(e, pieces, n).out == Expand(e.out, PiecesTokens(pieces))
    decreases pieces
  {
    hide TokensFit, PieceStarts, Started, Expand, AllInReach;
    if pieces == [] {
      NoExpansion(e.out);
    } else {
      var piece := pieces[0];
      var e' := AfterPiece(e, piece);
      PieceExpands(e, piece);
      PiecesExpand(e', pieces[1..], n - Size(piece.tokens));
      ExpandConcat(e.out, piece.tokens, PiecesTokens(pieces[1..]));
    }
  }

  lemma NoExpansion(out: seq<Byte>)
    ensures AllInReach(|out|, []) && Expand(out, []) == out
  {
  }

  lemma PieceExpands(e: Enc, piece: Piece)
    requires PieceStarts(e, piece) && TokensFit(Started(e, piece), piece.tokens)
    ensures AllInReach(|e.out|, piece.tokens) && AfterPiece(e, piece).out == Expand(e.out, piece.tokens)
  {
    hide HeaderOk, TreesAfter;
    var s := Started(e, piece);
    TokensInReach(s.kind, s.trees, s.recent, |s.out|, piece.tokens);
  }

  lemma {:induction false} FramesExpand(e: Enc, frames: seq<Frame>, capacity: nat)
    requires IntervalOk(e, frames, capacity)
    ensures AllInReach(|e.out|, FramesTokens(frames))
    ensures AfterFrames(e, frames, capacity).out == Expand(e.out, FramesTokens(frames))
    decreases frames
  {
    hide PiecesOk, AfterPieces, Expand, AllInReach, PiecesTokens;
    if frames == [] {
      NoExpansion(e.out);
    } else {
      var f := frames[0];
      var e' := AfterFrame(e, f);
      PiecesExpand(e, f.pieces, f.size);
      FramesExpand(e', frames[1..], capacity);
      ExpandConcat(e.out, PiecesTokens(f.pieces), FramesTokens(frames[1..]));
    }
  }

  // ---------- what was sent comes back ----------

  lemma {:induction false} IntervalDecodes(e: Enc, d: Decoder, frames: seq<Frame>, capacity: nat)
    requires Matches(e, d) && DecoderOk(d) && IntervalOk(e, frames, capacity) && |d.cursor.bytes| == capacity
    ensures
      var r := DecompressAll(d, Packed(d.header, e, frames, capacity));
      r.Success? && e.out + r.value.out == AfterFrames(e, frames, capacity).out
    ensures AllFramesInReach(d, Packed(d.header, e, frames, capacity))
    decreases frames
  {
    hide Matches, FrameOk, FrameBits, AfterFrame, Decompress, ToBytes, DecoderOk, FrameInReach;
    if frames != [] {
      var f := frames[0];
      var e' := AfterFrame(e, f);
      FrameDecodes(e, d, f);
      var r := Decompress(d, ToBytes(FrameBits(d.header, e, f)), f.size).value;
      IntervalDecodes(e', r.decoder, frames[1..], capacity);
      assert Packed(d.header, e, frames, capacity)[1..] == Packed(false, e', frames[1..], capacity);
      FrameExtends(e, f);
    }
  }

  lemma FrameExtends(e: Enc, f: Frame)
    requires FrameOk(e, f)
    ensures AfterFrame(e, f).out == e.out + AfterFrame(e, f).out[|e.out|..]
  {
    hide PiecesOk, AfterPieces, Expand, AllInReach, PiecesTokens;
    PiecesExpand(e, f.pieces, f.size);
    ExpandKeeps(e.out, PiecesTokens(f.pieces));
  }

  lemma {:induction false} CopiedKeeps(out: seq<Byte>, offset: nat, n: nat)
    requires 1 <= offset <= |out|
    ensures Copied(out, offset, n)[..|out|] == out
    decreases n
  {
    if n > 0 {
      CopiedKeeps(out + [out[|out| - offset]], offset, n - 1);
    }
  }

  lemma {:induction false} ExpandKeeps(out: seq<Byte>, tokens: seq<Token>)
    requires AllInReach(|out|, tokens)
    ensures Expand(out, tokens)[..|out|] == out
    decreases tokens
  {
    if tokens != [] {
      var next := ExpandToken(out, tokens[0]);
      if tokens[0].Copy? {
        CopiedKeeps(out, tokens[0].offset, tokens[0].length);
      }
      ExpandKeeps(next, tokens[1..]);
      assert next[..|out|] == Expand(next, tokens[1..])[..|next|][..|out|];
    }
  }

  /** Main result: after a reset, whatever the decompressor was used for before, decompressing an encoded
      interval gives the LZ77 expansion of all its tokens. */
  lemma RoundTrip(d: Decoder, frames: seq<Frame>)
    requires IntervalOk(FreshEnc(d.slots), frames, |d.cursor.bytes|)
    ensures AllInReach(0, FramesTokens(frames)) && DecoderOk(ResetDecoder(d))
    ensures
      var r := DecompressAll(ResetDecoder(d), Packed(true, FreshEnc(d.slots), frames, |d.cursor.bytes|));
      r.Success? && r.value.out == Expand([], FramesTokens(frames))
    ensures AllFramesInReach(ResetDecoder(d), Packed(true, FreshEnc(d.slots), frames, |d.cursor.bytes|))
  {
    hide Packed, IntervalOk, Expand, AllInReach, DecompressAll, AllFramesInReach;
    var e := FreshEnc(d.slots);
    ResetMatches(d);
    IntervalDecodes(e, ResetDecoder(d), frames, |d.cursor.bytes|);
    FramesExpand(e, frames, |d.cursor.bytes|);
    var out := DecompressAll(ResetDecoder(d), Packed(true, e, frames, |d.cursor.bytes|)).value.out;
    assert [] + out == out;
  }
}
