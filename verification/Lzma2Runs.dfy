/** Runs of the LZMA2 decoder as a whole: where a promise of the source stops holding. */
module Lzma2Runs {
  import opened Memory
  import opened RangeCoder
  import opened LzmaCode
  import opened LzmaSymbols
  import opened Dictionary
  import opened LzmaDecoder
  import opened LzmaHonest
  import opened LzmaEncoder
  import opened Lzma2Format
  import opened Lzma2

  const START := Lz([], 0, 0, 0, 0, 0)

  /** A chunk that resets everything, and the control byte that resets the dictionary again. */
  function ChunkThenReset(code: byte, full: seq<byte>, size: nat): seq<byte>
    requires 1 <= |full| <= 0x1_0000 && 1 <= size <= 0x20_0000
  {
    [0xE0 + (size - 1) / 0x1_0000, (size - 1) / 0x100 % 0x100, (size - 1) % 0x100, (|full| - 1) / 0x100, (|full| - 1) % 0x100, code] + full + [1]
  }

  /** The chunk is what an encoder writes for `sent` after a reset of everything. */
  ghost predicate FirstChunk(code: byte, window: nat, full: seq<byte>, sent: seq<Symbol>, size: nat) {
    && code <= 224 && PropsValid(PropsOf(code)) && 1 <= |full| <= 0x1_0000 && 1 <= size <= 0x20_0000
    && Genuine(PropsOf(code), window, Fresh(Unbiased(), full), START, full, sent)
    && size == |ApplyAll(START, sent, window).hist|
  }

  lemma HeaderBytes(code: byte, full: seq<byte>, size: nat)
    requires 1 <= |full| <= 0x1_0000 && 1 <= size <= 0x20_0000
    ensures var s := ChunkThenReset(code, full, size);
            && |s| == |full| + 7 && s[0] >= 0xE0 && s[5] == code && s[6..] == full + [1]
            && s[0] as int % 0x20 * 0x1_0000 + 0x100 * (s[1] as int) + s[2] as int + 1 == size
            && 0x100 * (s[3] as int) + s[4] as int + 1 == |full|
  {
    var n, k := size - 1, |full| - 1;
    assert n == 0x1_0000 * (n / 0x1_0000) + 0x100 * (n / 0x100 % 0x100) + n % 0x100;
    assert (0xE0 + n / 0x1_0000) % 0x20 == n / 0x1_0000;
  }

  /** The header up to the sizes. */
  method TakeSizes(d: Decoder, b: XzBuf)
    requires d.Valid() && d.sequence == Control && b.Valid() && b.inPos + 5 <= |b.input| && b.input[b.inPos] >= 0xE0
    modifies d`uncompressed, d`compressed, d`sequence, d`next, d`needProps, d`needDictReset, d`chunk, d.rc, d.dict, d.lzma, b`inPos
    ensures d.Valid() && d.sequence == Properties && b.Valid() && b.inPos == old(b.inPos) + 5
    ensures !d.needDictReset && !d.needProps && d.dict.hist == []
    ensures var s := b.input[old(b.inPos)..];
            && d.uncompressed == s[0] as int % 0x20 * 0x1_0000 + 0x100 * (s[1] as int) + s[2] as int + 1
            && d.compressed == 0x100 * (s[3] as int) + s[4] as int + 1
  {
    hide Decoder.Idle, Decoder.Fitting, Decoder.Starting, Decoder.Running, Decoder.Heading, NewState;
    var ret := d.ControlByte(b);
    assert d.needDictReset == d.EncNow().needReset && d.needProps == d.EncNow().needProps && d.dict.hist == d.EncNow().lz.hist;
    d.UncompressedByte(b);
    d.UncompressedByte(b);
    d.CompressedByte(b);
    d.CompressedByte(b);
  }

  /** The six bytes of the header. */
  method TakeHeader(d: Decoder, b: XzBuf, code: byte, ghost full: seq<byte>, size: nat)
    requires d.Valid() && d.sequence == Control && b.Valid() && b.inPos == 0
    requires 1 <= |full| <= 0x1_0000 && 1 <= size <= 0x20_0000 && code <= 224 && PropsValid(PropsOf(code))
    requires b.input == ChunkThenReset(code, full, size)
    modifies d`uncompressed, d`compressed, d`sequence, d`next, d`needProps, d`needDictReset, d`chunk, d.rc, d.dict, d.lzma, b`inPos
    ensures d.Valid() && d.sequence == Prepare && b.Valid() && b.inPos == 6 && d.chunk == []
    ensures d.uncompressed == size && d.compressed == |full|
    ensures d.EncNow() == Enc(START, PropsOf(code), Unbiased(), false, false)
  {
    hide Decoder.Idle, Decoder.Fitting, Decoder.Starting, Decoder.Running, ChunkThenReset, PropsOf;
    HeaderBytes(code, full, size);
    TakeSizes(d, b);
    assert b.input[0..] == b.input;
    var c := b.input[b.inPos];
    b.inPos := b.inPos + 1;
    var ok := d.PropsByte(c);
    d.Proceed();
  }

  /** In the middle of the chunk: it is the encoder's, and there is room for the rest of what it stands for. */
  ghost predicate Going(d: Decoder, b: XzBuf, full: seq<byte>, sent: seq<Symbol>, size: nat)
    requires b.Valid()
    reads d, d.dict, d.lzma, b
  {
    && d.lz0 == START && d.Due(full, sent, b, size) && size == |d.dict.hist| + d.uncompressed
    && d.chunk + b.input[b.inPos..] == full + [1] && |b.out| + d.uncompressed <= b.outSize && d.needDictReset == d.needProps == false
  }

  lemma FirstFive(full: seq<byte>, x: seq<byte>, rest: seq<byte>)
    requires 5 <= |full| && |x| == 5 && x + rest == full + [1]
    ensures x == full[..5] && Leading(x, 5) == Leading(full, 5)
  {
    assert x == (x + rest)[..5];
    LeadingStable(x, full, 5);
  }

  /** The first five bytes of the chunk, and the range decoder is ready for its symbols. */
  method TakeStart(d: Decoder, b: XzBuf, code: byte, ghost full: seq<byte>, ghost sent: seq<Symbol>, ghost size: nat)
    requires d.Valid() && d.sequence == Prepare && b.Valid() && b.input[b.inPos..] == full + [1] && d.chunk == []
    requires FirstChunk(code, d.dict.end, full, sent, size) && d.uncompressed == size <= b.outSize - |b.out| && d.compressed == |full|
    requires d.EncNow() == Enc(START, PropsOf(code), Unbiased(), false, false)
    modifies d`compressed, d`sequence, d`used, d`c0, d`at, d`syms, d`lz0, d`chunk, d.rc`code, d.rc`initLeft, b`inPos
    ensures d.Valid() && d.sequence == RunLzma && b.Valid() && Going(d, b, full, sent, size)
  {
    hide Decoder.Running, PropsOf, Unbiased, Genuine, AllFit, ApplyAll, Leading, Decoder.Base, Decoder.Fitting, Going;
    GenuineFits(PropsOf(code), d.dict.end, Fresh(Unbiased(), full), START, full, sent);
    assert d.rc.probs == d.EncNow().probs && d.lzma.props == d.EncNow().props && d.dict.hist == [] == d.EncNow().lz.hist;
    assert d.lzma.View() == START by { assert d.lzma.dict == d.dict by { BaseFacts(d); } }
    var ok := d.ReadInit(b);
    assert b.input[b.inPos..] == (full + [1])[|d.chunk|..];
    FirstFive(full, d.chunk, b.input[b.inPos..]);
    d.Begin();
    Begun(d, b, code, full, sent, size);
  }

  lemma Begun(d: Decoder, b: XzBuf, code: byte, full: seq<byte>, sent: seq<Symbol>, size: nat)
    requires b.Valid() && FirstChunk(code, d.dict.end, full, sent, size) && d.uncompressed == size <= b.outSize - |b.out|
    requires d.EncNow() == Enc(START, PropsOf(code), Unbiased(), false, false)
    requires d.syms == [] && d.lz0 == START && d.c0 == Fresh(Unbiased(), full) && |full| == d.used + d.compressed
    requires d.chunk + b.input[b.inPos..] == full + [1]
    ensures Going(d, b, full, sent, size)
  {
    hide PropsOf, Unbiased, AllFit, ApplyAll, Standing, Leading;
    AgreeWith(full, [1]);
    assert d.lzma.props == d.EncNow().props && d.dict.hist == d.EncNow().lz.hist;
  }

  lemma BaseFacts(d: Decoder)
    requires d.Base()
    ensures d.lzma.dict == d.dict && d.lzma.rc == d.rc
  {
  }

  /** Between the chunk and the byte behind it. */
  ghost predicate Over(d: Decoder, b: XzBuf, window: nat, sent: seq<Symbol>)
    requires AllFit(START, sent, window)
    reads d, d.dict, d.lzma, d.rc, b
  {
    d.sequence == Control && !d.needDictReset && !d.needProps && b.inPos < |b.input| && b.input[b.inPos] == 1
    && d.EncNow().lz == ApplyAll(START, sent, window)
  }

  lemma MoreToCome(d: Decoder, b: XzBuf, full: seq<byte>, sent: seq<Symbol>, size: nat)
    requires d.Valid() && d.sequence == RunLzma && b.Valid() && Going(d, b, full, sent, size)
    ensures b.inPos < |b.input| && |b.out| < b.outSize
  {
    hide AllFit, ApplyAll, Comes, Decoder.InChunk, Decoder.Base;
    d.HistoryInside(full, sent, b, size);
  }

  /** One piece of the chunk. */
  method TakePiece(d: Decoder, b: XzBuf, ghost full: seq<byte>, ghost sent: seq<Symbol>, ghost size: nat)
    requires d.Valid() && d.sequence == RunLzma && b.Valid() && Going(d, b, full, sent, size) && AllFit(START, sent, d.dict.end)
    modifies d, d.rc, d.dict, d.dict.buf, d.lzma, b`inPos, b`out
    ensures d.Valid() && b.Valid() && old(b.inPos) <= b.inPos
    ensures d.sequence == RunLzma ==> Going(d, b, full, sent, size)
    ensures d.sequence == RunLzma ==> old(b.inPos) < b.inPos || d.uncompressed < old(d.uncompressed)
    ensures d.sequence != RunLzma ==> Over(d, b, d.dict.end, sent)
  {
    hide Comes, Decoder.Valid, AllFit, ApplyAll, Standing;
    var ret := d.RunStep(b);
    if d.sequence == RunLzma {
      MoreToCome(d, b, full, sent, size);
    } else {
      assert b.input[b.inPos..] == (full + [1])[|full|..];
    }
  }

  /** The dictionary is reset behind a chunk: its history is gone, but not the kind of the last symbol. */
  method ResetBehindChunk(d: Decoder, code: byte, full: seq<byte>, ghost sent: seq<Symbol>, size: nat)
    requires d.Valid() && d.sequence == Control && FirstChunk(code, d.dict.end, full, sent, size)
    modifies d, d.rc, d.dict, d.dict.buf, d.lzma
    ensures d.Valid() && d.sequence == Compressed0 && d.needProps && d.dict.hist == []
    ensures d.lzma.state == ApplyAll(START, sent, d.dict.end).state
    ensures (!IsLiteralState(d.lzma.state) ==> d.lzma.rep0 < d.dict.full) <==> sent[|sent| - 1].Literal?
  {
    hide Decoder.Valid, Genuine, AllFit, ApplyAll, ChunkThenReset, PropsOf, Unbiased, Going, Comes;
    HeaderBytes(code, full, size);
    GenuineFits(PropsOf(code), d.dict.end, Fresh(Unbiased(), full), START, full, sent);
    var b := new XzBuf(ChunkThenReset(code, full, size), size);
    TakeHeader(d, b, code, full, size);
    TakeStart(d, b, code, full, sent, size);
    while d.sequence == RunLzma
      invariant d.Valid() && b.Valid() && b.input == ChunkThenReset(code, full, size)
      invariant if d.sequence == RunLzma then Going(d, b, full, sent, size) else Over(d, b, d.dict.end, sent)
      decreases |b.input| - b.inPos, if d.sequence == RunLzma then 1 + d.uncompressed else 0
    {
      TakePiece(d, b, full, sent, size);
    }
    ghost var e := d.EncNow();
    var ret := d.ControlByte(b);
    assert d.EncNow() == NewDict(e);
    LastKind(START, sent, d.dict.end);
    NothingThere(d);
  }

  /** The recent kinds are a literal's exactly behind one. */
  lemma LastKind(lz: Lz, sent: seq<Symbol>, window: nat)
    requires AllFit(lz, sent, window) && |lz.hist| < |ApplyAll(lz, sent, window).hist|
    ensures sent != [] && (IsLiteralState(ApplyAll(lz, sent, window).state) <==> sent[|sent| - 1].Literal?)
  {
  }

  lemma NothingThere(d: Decoder)
    requires d.Valid() && d.sequence == Compressed0 && d.dict.hist == []
    ensures d.dict.full == 0
  {
  }

  /** There are such chunks: a literal and its repetition, under any properties. */
  lemma RepeatedByte(code: byte, window: nat, x: byte) returns (full: seq<byte>)
    requires code <= 224 && PropsValid(PropsOf(code)) && 0 < window
    ensures FirstChunk(code, window, full, [Literal(x), ShortRep], 2)
  {
    hide SymbolOps, Genuine, PropsOf;
    var sent := [Literal(x), ShortRep];
    assert sent[..1] == [Literal(x)] && sent[..1][..0] == [];
    assert AllFit(START, [], window) && ApplyAll(START, [], window) == START;
    var lz := Apply(START, Literal(x), window);
    assert AllFit(START, sent[..1], window) && ApplyAll(START, sent[..1], window) == lz;
    assert AllFit(START, sent, window) && ApplyAll(START, sent, window) == Apply(lz, ShortRep, window);
    assert |ApplyAll(START, sent, window).hist| == 2;
    full := EncoderWrites(PropsOf(code), window, Unbiased(), START, sent);
    ShortSpelling(PropsOf(code), START, Literal(x));
    ShortSpelling(PropsOf(code), lz, ShortRep);
    var p := PropsOf(code);
    assert AllOps(p, START, [], window) == [];
    assert AllOps(p, START, sent[..1], window) == AllOps(p, START, [], window) + SymbolOps(p, START, Literal(x));
    assert AllOps(p, START, sent, window) == AllOps(p, START, sent[..1], window) + SymbolOps(p, lz, ShortRep);
  }

  lemma ShortSpelling(props: Props, lz: Lz, sym: Symbol)
    requires PropsValid(props) && lz.state < 12 && (!IsLiteralState(lz.state) ==> lz.rep0 < |lz.hist|) && Spellable(sym)
    ensures |SymbolOps(props, lz, sym)| <= 49
  {
    hide SymbolOps;
    SymbolPiece(props, lz, sym);
    MadeOf(SymbolOps(props, lz, sym));
  }

  lemma {:induction false} MadeOf(ops: seq<Choice>)
    ensures |ops| == Models(ops) + Evens(ops)
  {
    if ops != [] {
      MadeOf(ops[..|ops| - 1]);
    }
  }
}
