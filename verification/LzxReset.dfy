/** After a reset the output does not depend on what came before, as long as matches reach back only to
    bytes written since; and exactly then. */
module LzxReset {
  import opened Basics
  import opened Bits
  import opened BitReading
  import opened HuffmanCodes
  import opened CodeLengths
  import opened Lzx
  import opened LzxEncoder
  import opened LzxReach

  /** Two decompressors that differ at most in bytes not yet written and in an aligned tree not in use. */
  ghost predicate Agree(d: Decoder, e: Decoder)
  {
    && d.slots == e.slots && d.header == e.header && d.left == e.left
    && CursorsAgree(d.cursor, e.cursor)
    && d.trees.main == e.trees.main && d.trees.length == e.trees.length
    && (d.left > 0 ==> d.kind == e.kind && SameTrees(d.kind, d.trees, e.trees))
  }

  ghost predicate CursorsAgree(c: Cursor, d: Cursor)
  {
    && c.pos == d.pos <= |c.bytes| == |d.bytes| && c.bytes[..c.pos] == d.bytes[..d.pos] && c.recent == d.recent
  }

  // ---------- independence, layer by layer ----------

  lemma SameSymbol(kind: nat, t: Trees, u: Trees, recent: Recent, b: seq<bool>, left: nat)
    requires TreesReady(kind, t) && TreesReady(kind, u) && SameTrees(kind, t, u)
    ensures ReadSymbol(kind, t, recent, b, left) == ReadSymbol(kind, u, recent, b, left)
  {
    hide DecodeSymbol, Usable, GetVal, GetRest;
  }

  lemma SameApplication(c: Cursor, d: Cursor, s: Symbol)
    requires CursorsAgree(c, d) && c.pos + SymbolSize(s) <= |c.bytes| && SymbolInReach(c.pos, s)
    ensures Apply(c, s).Some? && Apply(d, s).Some? && CursorsAgree(Apply(c, s).value, Apply(d, s).value)
  {
    match s
    case Literal(value) =>
      assert c.bytes[c.pos := value][..c.pos + 1] == c.bytes[..c.pos] + [value];
      assert d.bytes[d.pos := value][..d.pos + 1] == d.bytes[..d.pos] + [value];
    case Match(length, offset, _) =>
      CopyBytesExpands(c.bytes, c.pos, c.pos + |c.bytes| - offset, offset, length);
      CopyBytesExpands(d.bytes, d.pos, d.pos + |d.bytes| - offset, offset, length);
  }

  lemma {:induction false} SameBytes(kind: nat, t: Trees, u: Trees, c: Cursor, d: Cursor, b: seq<bool>, n: nat)
    requires TreesReady(kind, t) && TreesReady(kind, u) && SameTrees(kind, t, u)
    requires CursorsAgree(c, d) && c.pos + n <= |c.bytes| && BytesInReach(kind, t, c, b, n)
    ensures
      match DecodeBytes(kind, t, c, b, n)
      case None => DecodeBytes(kind, u, d, b, n) == None
      case Some(r) =>
        var r' := DecodeBytes(kind, u, d, b, n);
        r'.Some? && r'.value.rest == r.rest && CursorsAgree(r.cursor, r'.value.cursor)
    decreases n
  {
    hide TreesReady, SameTrees, ReadSymbol, Apply, SymbolInReach;
    if n > 0 {
      SameSymbol(kind, t, u, c.recent, b, n);
      var s := ReadSymbol(kind, t, c.recent, b, n);
      if s.Some? {
        SameApplication(c, d, s.value.symbol);
        var c', d' := Apply(c, s.value.symbol).value, Apply(d, s.value.symbol).value;
        SameBytes(kind, t, u, c', d', s.value.rest, n - SymbolSize(s.value.symbol));
      }
    }
  }

  lemma SameStart(d: Decoder, e: Decoder, b: seq<bool>)
    requires Agree(d, e) && d.left == 0
    ensures
      match StartBlock(d, b)
      case Failure(p) => StartBlock(e, b) == Failure(p)
      case Success(s) =>
        var s' := StartBlock(e, b);
        s'.Success? && s'.value.rest == s.rest && Agree(s.decoder, s'.value.decoder)
  {
    hide TreesReady, CursorsAgree, Usable, ReadLengths, ReadFixed, GetVal, GetRest;
  }

  lemma SamePart(d: Decoder, e: Decoder, b: seq<bool>, n: nat)
    requires Agree(d, e) && DecoderOk(d) && DecoderOk(e) && 0 < n <= d.left && PartInReach(d, b, n)
    ensures
      match DecodePart(d, b, n)
      case Failure(p) => DecodePart(e, b, n) == Failure(p)
      case Success(s) =>
        var s' := DecodePart(e, b, n);
        s'.Success? && s'.value.rest == s.rest && Agree(s.decoder, s'.value.decoder)
  {
    hide TreesReady, DecodeBytes, BytesInReach;
    if d.cursor.pos + n <= |d.cursor.bytes| {
      SameBytes(d.kind, d.trees, e.trees, d.cursor, e.cursor, b, n);
    }
  }

  lemma {:induction false} SameBlocks(d: Decoder, e: Decoder, b: seq<bool>, n: nat)
    requires Agree(d, e) && DecoderOk(d) && DecoderOk(e) && BlocksInReach(d, b, n)
    ensures
      match DecodeBlocks(d, b, n)
      case Failure(p) => DecodeBlocks(e, b, n) == Failure(p)
      case Success(s) =>
        var s' := DecodeBlocks(e, b, n);
        s'.Success? && s'.value.rest == s.rest && Agree(s.decoder, s'.value.decoder)
    decreases n, |b|, if d.left == 0 then 1 else 0
  {
    hide StartBlock, DecodePart, PartInReach, CursorsAgree, SameTrees, TreesReady;
    if n > 0 && d.left == 0 {
      SameStart(d, e, b);
      if StartBlock(d, b).Success? {
        var s, s' := StartBlock(d, b).value, StartBlock(e, b).value;
        if s.decoder.left == 0 {
          EmptyBlockConsumes(d, b);
        }
        SameBlocks(s.decoder, s'.decoder, s.rest, n);
      }
    } else if n > 0 {
      var m := Min(d.left, n);
      SamePart(d, e, b, m);
      if DecodePart(d, b, m).Success? {
        var p, p' := DecodePart(d, b, m).value, DecodePart(e, b, m).value;
        SameBlocks(p.decoder, p'.decoder, p.rest, n - m);
      }
    }
  }

  lemma SameFrame(d: Decoder, e: Decoder, f: FrameData)
    requires Agree(d, e) && DecoderOk(d) && DecoderOk(e) && FrameInReach(d, f)
    ensures
      match Decompress(d, f.data, f.size)
      case Failure(p) => Decompress(e, f.data, f.size) == Failure(p)
      case Success(r) =>
        var r' := Decompress(e, f.data, f.size);
        r'.Success? && r'.value.out == r.out && Agree(r.decoder, r'.value.decoder)
  {
    hide DecodeBlocks, BlocksInReach, SkipHeader, WordBits, TreesReady, SameTrees;
    var b := if d.header then SkipHeader(WordBits(f.data)) else WordBits(f.data);
    SameBlocks(d.(header := false), e.(header := false), b, f.size);
    var r := DecodeBlocks(d.(header := false), b, f.size);
    if r.Success? {
      var c, c' := r.value.decoder.cursor, DecodeBlocks(e.(header := false), b, f.size).value.decoder.cursor;
      SameSlice(c.bytes, c'.bytes, c.pos, f.size);
    }
  }

  lemma SameSlice(a: seq<Byte>, b: seq<Byte>, end: nat, n: nat)
    requires n <= end <= |a| == |b| && a[..end] == b[..end]
    ensures a[end - n..end] == b[end - n..end]
  {
    assert a[end - n..end] == a[..end][end - n..];
    assert b[end - n..end] == b[..end][end - n..];
  }

  lemma {:induction false} SameOutputs(d: Decoder, e: Decoder, frames: seq<FrameData>)
    requires Agree(d, e) && DecoderOk(d) && DecoderOk(e) && AllFramesInReach(d, frames)
    ensures
      match DecompressAll(d, frames)
      case Failure(p) => DecompressAll(e, frames) == Failure(p)
      case Success(r) =>
        var r' := DecompressAll(e, frames);
        r'.Success? && r'.value.out == r.out && Agree(r.decoder, r'.value.decoder)
    decreases frames
  {
    hide Agree, Decompress, FrameInReach, DecoderOk;
    if frames != [] {
      SameFrame(d, e, frames[0]);
      var r := Decompress(d, frames[0].data, frames[0].size);
      if r.Success? {
        SameOutputs(r.value.decoder, Decompress(e, frames[0].data, frames[0].size).value.decoder, frames[1..]);
      }
    }
  }

  /** Main result: whatever two decompressors of the same shape were used for, after a reset they produce the
      same bytes, or fail alike, on every sequence of frames that stays in reach. */
  lemma ResetForgets(d: Decoder, e: Decoder, frames: seq<FrameData>)
    requires d.slots == e.slots && |d.cursor.bytes| == |e.cursor.bytes|
    requires DecoderOk(ResetDecoder(d)) && DecoderOk(ResetDecoder(e)) && AllFramesInReach(ResetDecoder(d), frames)
    ensures
      match DecompressAll(ResetDecoder(d), frames)
      case Failure(p) => DecompressAll(ResetDecoder(e), frames) == Failure(p)
      case Success(r) =>
        var r' := DecompressAll(ResetDecoder(e), frames);
        r'.Success? && r'.value.out == r.out
  {
    assert Agree(ResetDecoder(d), ResetDecoder(e));
    SameOutputs(ResetDecoder(d), ResetDecoder(e), frames);
  }

  // ---------- the condition is needed ----------

  /** A match that reaches back beyond the written bytes copies old window contents: changing the one byte it
      starts from changes the output. */
  lemma StaleByteShows(bytes: seq<Byte>, pos: nat, length: nat, offset: nat, recent: Recent, value: Byte)
    requires pos + length <= |bytes| && length >= 1 && pos < offset <= |bytes|
    requires value != bytes[pos + |bytes| - offset]
    ensures
      var stale := pos + |bytes| - offset;
      var r := Apply(Cursor(bytes, pos, recent), Match(length, offset, recent));
      var r' := Apply(Cursor(bytes[stale := value], pos, recent), Match(length, offset, recent));
      && bytes[stale := value][..pos] == bytes[..pos]
      && r.Some? && r'.Some? && r.value.bytes[pos] != r'.value.bytes[pos]
  {
    var stale := pos + |bytes| - offset;
    CopiesFirst(bytes, pos, stale, length);
    CopiesFirst(bytes[stale := value], pos, stale, length);
  }

  lemma CopiesFirst(bytes: seq<Byte>, pos: nat, src: nat, n: nat)
    requires pos + n <= |bytes| && n >= 1 && src < |bytes|
    ensures CopyBytes(bytes, pos, src, n).Some? && CopyBytes(bytes, pos, src, n).value[pos] == bytes[src]
  {
    KeepsBelow(bytes[pos := bytes[src]], pos + 1, src + 1, n - 1);
    var r := CopyBytes(bytes, pos, src, n).value;
    assert r[pos] == r[..pos + 1][pos];
  }

  lemma {:induction false} KeepsBelow(bytes: seq<Byte>, pos: nat, src: nat, n: nat)
    requires pos + n <= |bytes| && src <= |bytes|
    ensures CopyBytes(bytes, pos, src, n).Some? && CopyBytes(bytes, pos, src, n).value[..pos] == bytes[..pos]
    decreases n
  {
    if n > 0 {
      var s := if src >= |bytes| then src - |bytes| else src;
      var bytes' := bytes[pos := bytes[s]];
      KeepsBelow(bytes', pos + 1, s + 1, n - 1);
      var r := CopyBytes(bytes', pos + 1, s + 1, n - 1).value;
      assert r[..pos] == r[..pos + 1][..pos] == bytes'[..pos + 1][..pos];
    }
  }

  /** A match writes the same bytes whatever the window held before exactly when it reaches only written bytes. */
  lemma OldContentsMatterExactlyBeyondReach(written: seq<Byte>, size: nat, length: nat, offset: nat, recent: Recent)
    requires length >= 1 && |written| + length <= size && 1 <= offset <= size
    ensures
      (forall a: seq<Byte>, b: seq<Byte> ::
        |a| == |b| == size && a[..|written|] == written == b[..|written|] ==>
          SameMatch(a, b, |written|, length, offset, recent))
      <==> offset <= |written|
  {
    var pos := |written|;
    if offset <= pos {
      forall a: seq<Byte>, b: seq<Byte> | |a| == |b| == size && a[..pos] == written == b[..pos]
        ensures SameMatch(a, b, pos, length, offset, recent)
      {
        SameApplication(Cursor(a, pos, recent), Cursor(b, pos, recent), Match(length, offset, recent));
      }
    } else {
      var a: seq<Byte> := written + seq(size - pos, _ => 0);
      var b: seq<Byte> := a[pos + size - offset := 1];
      StaleByteShows(a, pos, length, offset, recent, 1);
      assert a[..pos] == written == b[..pos];
      assert !SameMatch(a, b, pos, length, offset, recent);
    }
  }

  /** Both windows accept the match and end up with the same written bytes. */
  predicate SameMatch(a: seq<Byte>, b: seq<Byte>, pos: nat, length: nat, offset: nat, recent: Recent)
    requires pos + length <= |a| == |b|
  {
    var r := Apply(Cursor(a, pos, recent), Match(length, offset, recent));
    var r' := Apply(Cursor(b, pos, recent), Match(length, offset, recent));
    r.Some? && r'.Some? && r.value.bytes[..pos + length] == r'.value.bytes[..pos + length]
  }
}
