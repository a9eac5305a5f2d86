/** Data whose matches reach back only to bytes written since the reset. */
module LzxReach {
  import opened BitReading
  import opened Lzx

  predicate SymbolInReach(pos: nat, s: Symbol)
  {
    s.Match? ==> 1 <= s.offset <= pos
  }

  predicate BytesInReach(kind: nat, t: Trees, c: Cursor, b: seq<bool>, n: nat)
    requires TreesReady(kind, t) && c.pos + n <= |c.bytes|
    decreases n
  {
    if n == 0 then true
    else
      match ReadSymbol(kind, t, c.recent, b, n)
      case None => true
      case Some(s) =>
        SymbolInReach(c.pos, s.symbol) &&
        match Apply(c, s.symbol)
        case None => true
        case Some(c') => BytesInReach(kind, t, c', s.rest, n - SymbolSize(s.symbol))
  }

  predicate PartInReach(d: Decoder, b: seq<bool>, n: nat)
    requires d.left > 0 ==> TreesReady(d.kind, d.trees)
    requires 0 < n <= d.left
  {
    d.cursor.pos + n > |d.cursor.bytes| || BytesInReach(d.kind, d.trees, d.cursor, b, n)
  }

  ghost predicate BlocksInReach(d: Decoder, b: seq<bool>, n: nat)
    requires DecoderOk(d)
    decreases n, |b|, if d.left == 0 then 1 else 0
  {
    if n == 0 then true
    else if d.left == 0 then
      match StartBlock(d, b)
      case Failure(_) => true
      case Success(s) =>
        if s.decoder.left == 0 then EmptyBlockConsumes(d, b); BlocksInReach(s.decoder, s.rest, n)
        else BlocksInReach(s.decoder, s.rest, n)
    else
      var m := Min(d.left, n);
      PartInReach(d, b, m) &&
      match DecodePart(d, b, m)
      case Failure(_) => true
      case Success(p) => BlocksInReach(p.decoder, p.rest, n - m)
  }

  ghost predicate FrameInReach(d: Decoder, f: FrameData)
    requires DecoderOk(d)
  {
    var b := if d.header then SkipHeader(WordBits(f.data)) else WordBits(f.data);
    BlocksInReach(d.(header := false), b, f.size)
  }

  /** No frame of the sequence ever reaches back beyond the bytes written since the start. */
  ghost predicate AllFramesInReach(d: Decoder, frames: seq<FrameData>)
    requires DecoderOk(d)
    decreases frames
  {
    frames != [] ==>
      && FrameInReach(d, frames[0])
      && match Decompress(d, frames[0].data, frames[0].size)
         case Failure(_) => true
         case Success(f) => AllFramesInReach(f.decoder, frames[1..])
  }
}
