/** Runs of the LZMA decoder over pieces of a chunk add up to one run over the chunk. */
module LzmaStreams {
  import opened Shared
  import opened Memory
  import opened RangeCoder
  import opened LzmaCode
  import opened LzmaSymbols
  import opened LzmaDecoder

  // ---------------------------------------------------------------------------------------------
  // Only the bytes that were taken matter

  function Moved(c: Coder, delta: int): Coder
    requires c.pos + delta >= 0
  {
    c.(pos := c.pos + delta)
  }

  /** Two buffers agree on `[lo, hi)` once the first is moved by `delta`. */
  ghost predicate Agree(input: seq<byte>, input': seq<byte>, lo: nat, hi: nat, delta: int) {
    lo + delta >= 0 && forall i: nat :: lo <= i < hi ==> ByteAt(input, i) == Shifted(input', i, delta)
  }

  function Shifted(input: seq<byte>, i: nat, delta: int): byte {
    if i + delta < 0 then 0 else ByteAt(input, i + delta)
  }

  lemma NormalizeMoved(c: Coder, input: seq<byte>, input': seq<byte>, delta: int)
    requires Sound(c) && Agree(input, input', c.pos, Normalize(c, input).pos, delta)
    ensures Sound(Moved(c, delta)) && Normalize(Moved(c, delta), input') == Moved(Normalize(c, input), delta)
  {
    if c.range < TOP {
      assert ByteAt(input, c.pos) == Shifted(input', c.pos, delta);
    }
  }

  lemma TakenMoved(n: Coder, op: Choice, delta: int)
    requires Sound(n) && TOP <= n.range && Known(n, op) && n.pos + delta >= 0
    ensures Reads(Moved(n, delta), op) == Reads(n, op)
    ensures Reads(n, op) == op.bit ==> Taken(Moved(n, delta), op) == Moved(Taken(n, op), delta)
  {
  }

  lemma AgreePart(input: seq<byte>, input': seq<byte>, lo: nat, hi: nat, delta: int, lo': nat, hi': nat)
    requires Agree(input, input', lo, hi, delta) && lo <= lo' <= hi' <= hi
    ensures Agree(input, input', lo', hi', delta)
  {
  }

  lemma {:induction false} RunMoved(c: Coder, ops: seq<Choice>, input: seq<byte>, input': seq<byte>, delta: int)
    requires Takes(c, ops, input) && Agree(input, input', c.pos, After(c, ops, input).pos, delta)
    ensures c.pos <= After(c, ops, input).pos
    ensures Takes(Moved(c, delta), ops, input') && After(Moved(c, delta), ops, input') == Moved(After(c, ops, input), delta)
  {
    hide Normalize, Reads, Taken, Agree;
    assert c.pos + delta >= 0 by { AgreeStart(input, input', c.pos, After(c, ops, input).pos, delta); }
    if ops != [] {
      var front, op := ops[..|ops| - 1], ops[|ops| - 1];
      var b := After(c, front, input);
      RunBudget(c, front, input);
      var n := Normalize(b, input);
      AgreePart(input, input', c.pos, After(c, ops, input).pos, delta, c.pos, b.pos);
      RunMoved(c, front, input, input', delta);
      AgreePart(input, input', c.pos, After(c, ops, input).pos, delta, b.pos, n.pos);
      NormalizeMoved(b, input, input', delta);
      TakenMoved(n, op, delta);
    }
  }

  lemma AgreeStart(input: seq<byte>, input': seq<byte>, lo: nat, hi: nat, delta: int)
    requires Agree(input, input', lo, hi, delta)
    ensures lo + delta >= 0
  {
  }

  // ---------------------------------------------------------------------------------------------
  // Normalizing early changes nothing

  lemma {:induction false} RunNormalized(c: Coder, ops: seq<Choice>, input: seq<byte>)
    requires Sound(c) && ops != []
    ensures Takes(c, ops, input) <==> Takes(Normalize(c, input), ops, input)
    ensures Takes(c, ops, input) ==> After(c, ops, input) == After(Normalize(c, input), ops, input)
  {
    hide Reads, Taken;
    var n := Normalize(c, input);
    assert Normalize(n, input) == n;
    if AllKnown(|c.probs|, ops) {
      var front := ops[..|ops| - 1];
      if front == [] {
        assert Run(c, front, input) == Some(c) && Run(n, front, input) == Some(n);
      } else {
        RunNormalized(c, front, input);
        assert Run(c, front, input).Some? <==> Run(n, front, input).Some?;
      }
    }
  }

  // ---------------------------------------------------------------------------------------------
  // Decoded pieces

  lemma DecodedMoved(props: Props, window: nat, input: seq<byte>, input': seq<byte>, delta: int,
                     c0: Coder, lz0: Lz, syms: seq<Symbol>, c: Coder, lz: Lz)
    requires Decoded(props, window, input, c0, lz0, syms, c, lz) && Agree(input, input', c0.pos, c.pos, delta)
    ensures c0.pos <= c.pos && c0.pos + delta >= 0
    ensures Decoded(props, window, input', Moved(c0, delta), lz0, syms, Moved(c, delta), lz)
  {
    hide Takes, AllOps, Agree;
    RunMoved(c0, AllOps(props, lz0, syms, window), input, input', delta);
    AgreeStart(input, input', c0.pos, c.pos, delta);
  }

  lemma {:induction false} DecodedThen(props: Props, window: nat, input: seq<byte>, c0: Coder, lz0: Lz, a: seq<Symbol>, c1: Coder, lz1: Lz,
                                       b: seq<Symbol>, c2: Coder, lz2: Lz)
    requires Decoded(props, window, input, c0, lz0, a, c1, lz1) && Decoded(props, window, input, c1, lz1, b, c2, lz2)
    ensures Decoded(props, window, input, c0, lz0, a + b, c2, lz2)
    decreases |b|
  {
    hide Takes, SymbolOps, Apply;
    if b == [] {
      assert a + b == a;
      NothingTaken(c1, input);
    } else {
      var front, s := b[..|b| - 1], b[|b| - 1];
      var mid := ApplyAll(lz1, front, window);
      var x, y := AllOps(props, lz1, front, window), SymbolOps(props, mid, s);
      TakesSplit(c1, x, y, input);
      var c := After(c1, x, input);
      DecodedThen(props, window, input, c0, lz0, a, c1, lz1, front, c, mid);
      assert Spells(c, props, mid, s, input) by { SpellsIt(c, props, mid, s, window, input); }
      DecodedOne(props, window, input, c0, lz0, a + front, c, mid, s);
      assert a + b == a + front + [s];
    }
  }

  lemma SpellsIt(c: Coder, props: Props, lz: Lz, s: Symbol, window: nat, input: seq<byte>)
    requires PropsValid(props) && Fits(lz, s, window) && Takes(c, SymbolOps(props, lz, s), input)
    ensures Spells(c, props, lz, s, input)
  {
  }

  lemma NothingTaken(c: Coder, input: seq<byte>)
    requires Takes(c, [], input)
    ensures After(c, [], input) == c
  {
  }

  /** A piece that began behind a normalization continues the piece before it. */
  lemma DecodedOn(props: Props, window: nat, input: seq<byte>, c0: Coder, lz0: Lz, a: seq<Symbol>, c1: Coder, lz1: Lz,
                  b: seq<Symbol>, c2: Coder, lz2: Lz)
    requires Sound(c1) && Decoded(props, window, input, c0, lz0, a, c1, lz1)
    requires Decoded(props, window, input, Normalize(c1, input), lz1, b, c2, lz2) && Sound(c2)
    ensures Decoded(props, window, input, c0, lz0, a + b, if b == [] then c1 else c2, lz2)
    ensures Normalize(if b == [] then c1 else c2, input) == Normalize(c2, input)
  {
    hide Takes, SymbolOps, Fits, Apply, LzValid;
    var n := Normalize(c1, input);
    if b == [] {
      NothingTaken(n, input);
      assert a + b == a;
      NormalTwice(c1, input);
    } else {
      var ops := AllOps(props, lz1, b, window);
      OpsNonEmpty(props, lz1, b, window);
      RunNormalized(c1, ops, input);
      DecodedThen(props, window, input, c0, lz0, a, c1, lz1, b, c2, lz2);
    }
  }

  lemma NormalTwice(c: Coder, input: seq<byte>)
    requires Sound(c)
    ensures Normalize(Normalize(c, input), input) == Normalize(c, input)
  {
  }

  lemma OpsNonEmpty(props: Props, lz: Lz, syms: seq<Symbol>, window: nat)
    requires PropsValid(props) && AllFit(lz, syms, window) && syms != []
    ensures AllOps(props, lz, syms, window) != []
  {
    hide LiteralOps, CopyOps;
  }

  // ---------------------------------------------------------------------------------------------
  // Continuing a chunk from another buffer

  lemma LastIsLater(props: Props, window: nat, input: seq<byte>, c0: Coder, lz0: Lz, syms: seq<Symbol>, c: Coder, lz: Lz)
    requires Decoded(props, window, input, c0, lz0, syms, c, lz)
    ensures c0.pos <= c.pos
  {
    hide AllOps, AllFit, ApplyAll, Run, Budget;
    RunBudget(c0, AllOps(props, lz0, syms, window), input);
  }

  lemma ExtendChunk(props: Props, window: nat, chunk: seq<byte>, chunk': seq<byte>, c0: Coder, lz0: Lz, syms: seq<Symbol>, at: Coder, lz: Lz)
    requires Decoded(props, window, chunk, c0, lz0, syms, at, lz) && Sound(at)
    requires chunk <= chunk' && Normalize(at, chunk).pos <= |chunk|
    ensures Decoded(props, window, chunk', c0, lz0, syms, at, lz) && Normalize(at, chunk') == Normalize(at, chunk)
  {
    hide Decoded;
    DecodedMoved(props, window, chunk, chunk', 0, c0, lz0, syms, at, lz);
    NormalizeMoved(at, chunk, chunk', 0);
    assert Moved(c0, 0) == c0 && Moved(at, 0) == at;
  }

  /** What a run over a buffer adds to a chunk whose next bytes the buffer holds from `from` on. */
  lemma Absorb(props: Props, window: nat, chunk: seq<byte>, chunk': seq<byte>, c0: Coder, lz0: Lz, syms: seq<Symbol>, at: Coder, lz: Lz,
               buffer: seq<byte>, from: nat, more: seq<Symbol>, last: Coder, lz': Lz)
    requires Decoded(props, window, chunk, c0, lz0, syms, at, lz) && Sound(at) && Sound(last)
    requires chunk <= chunk' && Normalize(at, chunk).pos <= |chunk|
    requires Decoded(props, window, buffer, Normalize(at, chunk).(pos := from), lz, more, last, lz')
    requires from <= last.pos
    requires Agree(buffer, chunk', from, Normalize(last, buffer).pos, Normalize(at, chunk).pos - from)
    ensures var delta := Normalize(at, chunk).pos - from;
            var at' := if more == [] then at else Moved(last, delta);
            && Sound(at')
            && Decoded(props, window, chunk', c0, lz0, syms + more, at', lz')
            && Normalize(at', chunk') == Moved(Normalize(last, buffer), delta)
  {
    hide Decoded, Normalize, Agree;
    var n, m := Normalize(at, chunk), Normalize(last, buffer);
    var delta := n.pos - from;
    ExtendChunk(props, window, chunk, chunk', c0, lz0, syms, at, lz);
    AgreePart(buffer, chunk', from, m.pos, delta, from, last.pos);
    DecodedMoved(props, window, buffer, chunk', delta, n.(pos := from), lz, more, last, lz');
    assert Moved(n.(pos := from), delta) == n;
    AgreePart(buffer, chunk', from, m.pos, delta, last.pos, m.pos);
    NormalizeMoved(last, buffer, chunk', delta);
    DecodedOn(props, window, chunk', c0, lz0, syms, at, lz, more, Moved(last, delta), lz');
  }
}
