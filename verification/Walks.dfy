/**
 The three ways in which the arithmetic chains walk their lookup tables, proved once for any chain
 of the right shape and any table contents.
 */
module Walks {
  import opened Memory
  import opened DmaMachine
  import opened Chains

  /** The addresses of blocks `a` to `b - 1`, each once. */
  function Straight(p: int, a: int, b: int): multiset<int>
    decreases b - a
  {
    if b <= a then multiset{} else Straight(p, a, b - 1) + multiset{Blk(p, b - 1)}
  }

  lemma {:induction false} StraightJoin(p: int, a: int, b: int, c: int)
    requires a <= b <= c
    ensures Straight(p, a, b) + Straight(p, b, c) == Straight(p, a, c)
    decreases c - b
  {
    if b < c {
      StraightJoin(p, a, b, c - 1);
    }
  }

  lemma StraightEmpty(p: int, a: int)
    ensures Straight(p, a, a) == multiset{}
  {
  }

  lemma StraightSnoc(p: int, a: int, b: int)
    requires a < b
    ensures Straight(p, a, b) == Straight(p, a, b - 1) + multiset{Blk(p, b - 1)}
  {
  }

  lemma StraightCons(p: int, a: int, b: int)
    requires a < b
    ensures Straight(p, a, b) == multiset{Blk(p, a)} + Straight(p, a + 1, b)
  {
    hide Straight;
    StraightJoin(p, a, a + 1, b);
    StraightSnoc(p, a, a + 1);
    StraightEmpty(p, a);
  }

  lemma VisitsNone(s: State, p: int, c: int)
    ensures Visits(s, 0) == Straight(p, c, c)
  {
  }

  lemma VisitsNext(s: State, p: int, c: int, t: nat)
    requires Visits(s, t) == Straight(p, c, c + t) && Run(s, t).cb == Blk(p, c + t)
    ensures Visits(s, t + 1) == Straight(p, c, c + t + 1)
  {
    hide Run;
  }

  predicate IsCopy(b: Block, dst: int, len: int, next: int) {
    b.ti == TI_COPY && b.dst == dst && b.len == len && b.next == next
  }

  /** The SRC address of block `k` without its lowest byte: the row the block looks up in. */
  function RowOf(m: Mem, p: int, k: int): int {
    Word(m, Blk(p, k) + 4) - Get(m, SrcAt(p, k, 0))
  }

  /** One block that copies one byte. */
  lemma CopyOne(s: State, p: int, bs: seq<Block>, k: int, dst: int, next: int)
    requires Code(s.mem, p, bs) && 0 <= k < |bs| && s.cb == Blk(p, k) != 0
    requires IsCopy(bs[k], dst, 1, next)
    ensures Step(s) == State(Put(s.mem, dst, Get(s.mem, Word(s.mem, Blk(p, k) + 4))), next)
  {
    hide Step, Matches, Word, Get, Put;
    StepCopy(s, bs[k]);
    var src := Word(s.mem, Blk(p, k) + 4);
    assert Row(s.mem, dst, src, 0, true, true) == s.mem;
  }

  /** One block that copies two bytes; the source does not overlap the destination. */
  lemma CopyTwo(s: State, p: int, bs: seq<Block>, k: int, dst: int, next: int)
    requires Code(s.mem, p, bs) && 0 <= k < |bs| && s.cb == Blk(p, k) != 0
    requires IsCopy(bs[k], dst, 2, next)
    requires Word(s.mem, Blk(p, k) + 4) + 1 != dst
    ensures var src := Word(s.mem, Blk(p, k) + 4);
            Step(s) == State(Put(Put(s.mem, dst, Get(s.mem, src)), dst + 1, Get(s.mem, src + 1)), next)
  {
    hide Step, Matches, Word;
    StepCopy(s, bs[k]);
    var src := Word(s.mem, Blk(p, k) + 4);
    assert Row(s.mem, dst, src, 0, true, true) == s.mem;
    assert Row(s.mem, dst, src, 1, true, true) == Put(s.mem, dst, Get(s.mem, src));
  }

  // ---------------------------------------------------------------------------------------------
  // Independent lookups (Not, And, Or, Xor)

  function NextOf(p: int, k: int, n: int, exit: int): int {
    if k + 1 < n then Blk(p, k + 1) else exit
  }

  predicate PointwiseBlock(p: int, bs: seq<Block>, ret: int, exit: int, c: int, k: int)
    requires 0 <= c + k < |bs|
  {
    IsCopy(bs[c + k], ret + k, 1, NextOf(p, c + k, |bs|, exit))
  }

  ghost predicate PointwiseShape(p: int, bs: seq<Block>, c: nat, w: nat, ret: int, exit: int) {
    && p > 0 && w >= 1 && c + w == |bs|
    && (ret + w <= p || p + 32 * |bs| <= ret)
    && forall k :: 0 <= k < w ==> PointwiseBlock(p, bs, ret, exit, c, k)
  }

  /** Block `c + k` reads from `src[k]`, which no result byte overlaps. */
  ghost predicate Sources(m: Mem, p: int, c: int, w: int, ret: int, src: seq<int>) {
    && |src| == w
    && forall k :: 0 <= k < w ==> SourceAt(m, p, c, w, ret, src, k)
  }

  predicate SourceAt(m: Mem, p: int, c: int, w: int, ret: int, src: seq<int>, k: int)
    requires 0 <= k < |src|
  {
    Word(m, Blk(p, c + k) + 4) == src[k] && !(ret <= src[k] < ret + w)
  }

  lemma SourceIs(m: Mem, p: int, c: int, w: int, ret: int, src: seq<int>, k: int)
    requires 0 <= k < |src| && Word(m, Blk(p, c + k) + 4) == src[k] && !(ret <= src[k] < ret + w)
    ensures SourceAt(m, p, c, w, ret, src, k)
  {
  }

  lemma SourcesAre(m: Mem, p: int, c: int, w: int, ret: int, src: seq<int>)
    requires |src| == w && forall k :: 0 <= k < w ==> SourceAt(m, p, c, w, ret, src, k)
    ensures Sources(m, p, c, w, ret, src)
  {
  }

  ghost predicate PointwiseInv(m: Mem, s: State, p: int, n: int, c: int, ret: int, exit: int, src: seq<int>, i: int)
    requires 0 <= i <= |src|
  {
    && s.cb == (if c + i < n then Blk(p, c + i) else exit)
    && (forall k :: 0 <= k < i ==> Get(s.mem, ret + k) == Get(m, src[k]))
    && (forall a :: !(ret <= a < ret + i) ==> Get(s.mem, a) == Get(m, a))
  }

  lemma OutsideIsSame(m: Mem, m': Mem, p: int, bs: seq<Block>, ret: int, w: nat)
    requires ret + w <= p || p + 32 * |bs| <= ret
    requires forall a :: !(ret <= a < ret + w) ==> Get(m', a) == Get(m, a)
    ensures SameCode(m, m', p, bs)
  {
  }

  lemma OutsideWord(m: Mem, m': Mem, p: int, n: nat, k: int, ret: int, w: nat)
    requires ret + w <= p || p + 32 * n <= ret
    requires 0 <= k < n
    requires forall a :: !(ret <= a < ret + w) ==> Get(m', a) == Get(m, a)
    ensures Word(m', Blk(p, k) + 4) == Word(m, Blk(p, k) + 4)
  {
    hide Get;
  }

  lemma PointwiseStep(m: Mem, s: State, p: int, bs: seq<Block>, c: nat, w: nat, ret: int, exit: int, src: seq<int>, i: nat)
    requires PointwiseShape(p, bs, c, w, ret, exit) && Code(m, p, bs) && Sources(m, p, c, w, ret, src) && i < w
    requires PointwiseInv(m, s, p, |bs|, c, ret, exit, src, i)
    ensures s.cb == Blk(p, c + i)
    ensures PointwiseInv(m, Step(s), p, |bs|, c, ret, exit, src, i + 1)
  {
    hide Step, Code, Matches, SameCode, Word;
    assert SameCode(m, s.mem, p, bs) by {
      OutsideIsSame(m, s.mem, p, bs, ret, w);
    }
    CodeFrame(m, s.mem, p, bs);
    assert PointwiseBlock(p, bs, ret, exit, c, i);
    CopyOne(s, p, bs, c + i, ret + i, NextOf(p, c + i, |bs|, exit));
    assert Word(s.mem, Blk(p, c + i) + 4) == src[i] by {
      assert SourceAt(m, p, c, w, ret, src, i);
      OutsideWord(m, s.mem, p, |bs|, c + i, ret, w);
    }
  }

  lemma PointwiseStart(m: Mem, p: int, bs: seq<Block>, c: nat, w: nat, ret: int, exit: int, src: seq<int>)
    requires PointwiseShape(p, bs, c, w, ret, exit)
    ensures PointwiseInv(m, State(m, Blk(p, c)), p, |bs|, c, ret, exit, src, 0)
  {
  }

  /** After `i` lookups the first `i` result bytes are the looked-up ones and nothing else moved. */
  lemma {:induction false} PointwiseWalk(m: Mem, p: int, bs: seq<Block>, c: nat, w: nat, ret: int, exit: int,
                                         src: seq<int>, i: nat)
    requires PointwiseShape(p, bs, c, w, ret, exit) && Code(m, p, bs) && Sources(m, p, c, w, ret, src) && i <= w
    ensures PointwiseInv(m, Run(State(m, Blk(p, c)), i), p, |bs|, c, ret, exit, src, i)
    ensures Visits(State(m, Blk(p, c)), i) == Straight(p, c, c + i)
  {
    hide Step, Code, PointwiseInv, PointwiseShape, Word, Blk;
    if i == 0 {
      assert PointwiseInv(m, State(m, Blk(p, c)), p, |bs|, c, ret, exit, src, 0) by {
        PointwiseStart(m, p, bs, c, w, ret, exit, src);
      }
    } else {
      PointwiseWalk(m, p, bs, c, w, ret, exit, src, i - 1);
      PointwiseStep(m, Run(State(m, Blk(p, c)), i - 1), p, bs, c, w, ret, exit, src, i - 1);
    }
  }

  // ---------------------------------------------------------------------------------------------
  // Selector automata (Geu, Equ, Ges)

  predicate AutomatonBlock(p: int, bs: seq<Block>, k: int, k': int)
    requires 0 <= k < |bs|
  {
    IsCopy(bs[k], SrcAt(p, k', 0), 1, Blk(p, k'))
  }

  /**
   Block `ix[t]` looks its row up at the current selector, leaves the next selector in SRC byte 0 of
   block `ix[t + 1]` and continues there.
   */
  ghost predicate AutomatonShape(p: int, bs: seq<Block>, ix: seq<int>) {
    && p > 0 && |ix| >= 1
    && (forall t :: 0 <= t < |ix| ==> 0 <= ix[t] < |bs|)
    && (forall t :: 1 <= t < |ix| ==> bs[ix[t]].open0)
    && forall t :: 0 <= t < |ix| - 1 ==> AutomatonBlock(p, bs, ix[t], ix[t + 1])
  }

  /** The rows of the visited blocks and the selectors the table contents lead through. */
  ghost predicate Selects(m: Mem, p: int, n: int, ix: seq<int>, rows: seq<int>, sels: seq<byte>) {
    && |sels| == |ix| == |rows| + 1
    && Get(m, SrcAt(p, ix[0], 0)) == sels[0]
    && forall t :: 0 <= t < |rows| ==> SelectAt(m, p, n, ix, rows, sels, t)
  }

  predicate SelectAt(m: Mem, p: int, n: int, ix: seq<int>, rows: seq<int>, sels: seq<byte>, t: int)
    requires |sels| == |ix| == |rows| + 1 && 0 <= t < |rows|
  {
    var a := rows[t] + sels[t];
    RowOf(m, p, ix[t]) == rows[t] && Get(m, a) == sels[t + 1] && !InCode(p, n, a)
  }

  lemma SelectsAre(m: Mem, p: int, n: int, ix: seq<int>, rows: seq<int>, sels: seq<byte>)
    requires |sels| == |ix| == |rows| + 1 && Get(m, SrcAt(p, ix[0], 0)) == sels[0]
    requires forall t :: 0 <= t < |rows| ==> SelectAt(m, p, n, ix, rows, sels, t)
    ensures Selects(m, p, n, ix, rows, sels)
  {
  }

  /** Only SRC bytes 0 of the chain's own blocks differ. */
  ghost predicate OnlySelectors(m: Mem, m': Mem, p: int, n: int) {
    forall a :: !(InCode(p, n, a) && (a - p) % 32 == 4) ==> Get(m', a) == Get(m, a)
  }

  ghost predicate AutomatonInv(m: Mem, s: State, p: int, bs: seq<Block>, k: int, sel: byte) {
    && s.cb == Blk(p, k) && Get(s.mem, SrcAt(p, k, 0)) == sel
    && SameCode(m, s.mem, p, bs) && OnlySelectors(m, s.mem, p, |bs|)
  }

  lemma RowStays(m: Mem, m': Mem, p: int, n: int, k: int)
    requires OnlySelectors(m, m', p, n)
    ensures RowOf(m', p, k) == RowOf(m, p, k)
  {
    assert (32 * k + 5) % 32 == 5 && (32 * k + 6) % 32 == 6 && (32 * k + 7) % 32 == 7;
    assert Get(m', Blk(p, k) + 5) == Get(m, Blk(p, k) + 5);
    assert Get(m', Blk(p, k) + 6) == Get(m, Blk(p, k) + 6);
    assert Get(m', Blk(p, k) + 7) == Get(m, Blk(p, k) + 7);
  }

  lemma PokeSelector(m: Mem, m': Mem, p: int, bs: seq<Block>, k: int, v: byte)
    requires SameCode(m, m', p, bs) && OnlySelectors(m, m', p, |bs|)
    requires 0 <= k < |bs| && bs[k].open0
    ensures SameCode(m, Put(m', SrcAt(p, k, 0), v), p, bs)
    ensures OnlySelectors(m, Put(m', SrcAt(p, k, 0), v), p, |bs|)
  {
    var a := SrcAt(p, k, 0);
    assert (a - p) / 32 == k && (a - p) % 32 == 4;
    assert Open(p, bs, a);
  }

  lemma AutomatonStep(m: Mem, s: State, p: int, bs: seq<Block>, k: int, k': int, row: int, sel: byte, sel': byte)
    requires p > 0 && Code(m, p, bs) && 0 <= k < |bs| && 0 <= k' < |bs|
    requires AutomatonBlock(p, bs, k, k') && bs[k'].open0
    requires RowOf(m, p, k) == row && Get(m, row + sel) == sel' && !InCode(p, |bs|, row + sel)
    requires AutomatonInv(m, s, p, bs, k, sel)
    ensures AutomatonInv(m, Step(s), p, bs, k', sel')
  {
    hide Step, Code, Matches, SameCode, Word;
    CodeFrame(m, s.mem, p, bs);
    CopyOne(s, p, bs, k, SrcAt(p, k', 0), Blk(p, k'));
    RowStays(m, s.mem, p, |bs|, k);
    assert Word(s.mem, Blk(p, k) + 4) == row + sel;
    PokeSelector(m, s.mem, p, bs, k', sel');
  }

  function Touched(p: int, ix: seq<int>, i: int): multiset<int>
    requires 0 <= i <= |ix|
  {
    if i == 0 then multiset{} else Touched(p, ix, i - 1) + multiset{Blk(p, ix[i - 1])}
  }

  lemma {:induction false} AutomatonWalk(m: Mem, p: int, bs: seq<Block>, ix: seq<int>, rows: seq<int>, sels: seq<byte>, i: nat)
    requires AutomatonShape(p, bs, ix) && Code(m, p, bs) && Selects(m, p, |bs|, ix, rows, sels) && i < |ix|
    ensures AutomatonInv(m, Run(State(m, Blk(p, ix[0])), i), p, bs, ix[i], sels[i])
    ensures Visits(State(m, Blk(p, ix[0])), i) == Touched(p, ix, i)
  {
    hide Step, Code, SameCode, OnlySelectors, RowOf;
    if i == 0 {
      assert SameCode(m, m, p, bs) && OnlySelectors(m, m, p, |bs|) by {
        SameRefl(m, p, bs);
      }
    } else {
      AutomatonWalk(m, p, bs, ix, rows, sels, i - 1);
      var t := i - 1;
      assert AutomatonBlock(p, bs, ix[t], ix[t + 1]);
      assert SelectAt(m, p, |bs|, ix, rows, sels, t);
      AutomatonStep(m, Run(State(m, Blk(p, ix[0])), t), p, bs, ix[t], ix[t + 1], rows[t], sels[t], sels[t + 1]);
    }
  }

  lemma SameRefl(m: Mem, p: int, bs: seq<Block>)
    ensures SameCode(m, m, p, bs) && OnlySelectors(m, m, p, |bs|)
  {
  }

  // ---------------------------------------------------------------------------------------------
  // Carry chains (Inc, Add, Sub)

  predicate ChainLookup(p: int, bs: seq<Block>, ret: int, exit: int, c: int, w: int, k: int)
    requires 0 <= c + 2 * k < |bs|
  {
    && IsCopy(bs[c + 2 * k], ret + k, if k < w - 1 then 2 else 1, NextOf(p, c + 2 * k, |bs|, exit))
    && (k > 0 ==> bs[c + 2 * k].open0)
  }

  predicate ChainCarry(p: int, bs: seq<Block>, ret: int, c: int, k: int)
    requires 0 <= c + 2 * k - 1 < |bs|
  {
    var b := bs[c + 2 * k - 1];
    && IsCopy(b, SrcAt(p, c + 2 * k, 0), 1, Blk(p, c + 2 * k))
    && b.src == ret + k && !b.open0 && !b.open1 && !b.open2
  }

  /**
   Lookup `k` writes a result byte and, next to it, the selector for byte `k + 1`; a carry block moves
   that selector into the SRC field of the next lookup, which then overwrites it in the result.
   */
  ghost predicate ChainShape(p: int, bs: seq<Block>, c: nat, w: nat, ret: int, exit: int) {
    && p > 0 && w >= 1 && |bs| == c + 2 * w - 1
    && 0 <= ret && ret + w <= 0x1_0000_0000
    && (ret + w <= p || p + 32 * |bs| <= ret)
    && (forall k :: 0 <= k < w ==> ChainLookup(p, bs, ret, exit, c, w, k))
    && (forall k :: 1 <= k < w ==> ChainCarry(p, bs, ret, c, k))
  }

  predicate Clear(p: int, n: int, ret: int, w: int, a: int) {
    !InCode(p, n, a) && !(ret <= a < ret + w)
  }

  /** The table rows of the lookups, the selectors they lead through and the bytes they yield. */
  ghost predicate Carries(m: Mem, p: int, n: int, c: nat, w: nat, ret: int, rows: seq<int>, sels: seq<byte>, outs: seq<byte>)
    requires |rows| == |sels| == |outs| == w >= 1
  {
    && Get(m, SrcAt(p, c, 0)) == sels[0]
    && forall k :: 0 <= k < w ==> CarryAt(m, p, n, c, w, ret, rows, sels, outs, k)
  }

  predicate CarryAt(m: Mem, p: int, n: int, c: nat, w: nat, ret: int, rows: seq<int>, sels: seq<byte>, outs: seq<byte>, k: int)
    requires |rows| == |sels| == |outs| == w && 0 <= k < w
  {
    var a := rows[k] + sels[k];
    && RowOf(m, p, c + 2 * k) == rows[k]
    && Clear(p, n, ret, w, a) && Get(m, a) == outs[k]
    && (k < w - 1 ==> Clear(p, n, ret, w, a + 1) && Get(m, a + 1) == sels[k + 1])
  }

  lemma CarriesAre(m: Mem, p: int, n: int, c: nat, w: nat, ret: int, rows: seq<int>, sels: seq<byte>, outs: seq<byte>)
    requires |rows| == |sels| == |outs| == w >= 1
    requires Get(m, SrcAt(p, c, 0)) == sels[0]
    requires forall k :: 0 <= k < w ==> CarryAt(m, p, n, c, w, ret, rows, sels, outs, k)
    ensures Carries(m, p, n, c, w, ret, rows, sels, outs)
  {
  }

  /** Only the result bytes and SRC bytes 0 of the chain's own blocks differ. */
  ghost predicate OnlyChain(m: Mem, m': Mem, p: int, n: int, ret: int, w: int) {
    forall a :: !(ret <= a < ret + w) && !(InCode(p, n, a) && (a - p) % 32 == 4) ==> Get(m', a) == Get(m, a)
  }

  ghost predicate ChainDone(m: Mem, m': Mem, p: int, bs: seq<Block>, ret: int, w: int, outs: seq<byte>, i: int)
    requires 0 <= i <= |outs|
  {
    && (forall k :: 0 <= k < i ==> Get(m', ret + k) == outs[k])
    && SameCode(m, m', p, bs) && OnlyChain(m, m', p, |bs|, ret, w)
  }

  ghost predicate ChainInv(m: Mem, s: State, p: int, bs: seq<Block>, c: int, w: int, ret: int, sels: seq<byte>, outs: seq<byte>, i: int)
    requires 0 <= i < |sels| == |outs|
  {
    && s.cb == Blk(p, c + 2 * i) && Get(s.mem, SrcAt(p, c + 2 * i, 0)) == sels[i]
    && ChainDone(m, s.mem, p, bs, ret, w, outs, i)
  }

  /** The address the next lookup reads from. */
  lemma ChainSource(m: Mem, m': Mem, p: int, n: nat, k: int, ret: int, w: int)
    requires OnlyChain(m, m', p, n, ret, w) && 0 <= k < n
    requires ret + w <= p || p + 32 * n <= ret
    ensures RowOf(m', p, k) == RowOf(m, p, k)
  {
    assert (32 * k + 5) % 32 == 5 && (32 * k + 6) % 32 == 6 && (32 * k + 7) % 32 == 7;
    assert Get(m', Blk(p, k) + 5) == Get(m, Blk(p, k) + 5);
    assert Get(m', Blk(p, k) + 6) == Get(m, Blk(p, k) + 6);
    assert Get(m', Blk(p, k) + 7) == Get(m, Blk(p, k) + 7);
  }

  lemma ChainPutResult(m: Mem, m': Mem, p: int, bs: seq<Block>, ret: int, w: int, a: int, v: byte)
    requires SameCode(m, m', p, bs) && OnlyChain(m, m', p, |bs|, ret, w)
    requires ret + w <= p || p + 32 * |bs| <= ret
    requires ret <= a < ret + w
    ensures SameCode(m, Put(m', a, v), p, bs) && OnlyChain(m, Put(m', a, v), p, |bs|, ret, w)
  {
  }

  lemma ChainPutSelector(m: Mem, m': Mem, p: int, bs: seq<Block>, ret: int, w: int, k: int, v: byte)
    requires SameCode(m, m', p, bs) && OnlyChain(m, m', p, |bs|, ret, w)
    requires 0 <= k < |bs| && bs[k].open0
    ensures SameCode(m, Put(m', SrcAt(p, k, 0), v), p, bs)
    ensures OnlyChain(m, Put(m', SrcAt(p, k, 0), v), p, |bs|, ret, w)
  {
    var a := SrcAt(p, k, 0);
    assert (a - p) / 32 == k && (a - p) % 32 == 4;
    assert Open(p, bs, a);
  }

  /** What lookup `i` is about to read. */
  lemma ChainReads(m: Mem, s: State, p: int, bs: seq<Block>, c: nat, w: nat, ret: int, exit: int,
                   rows: seq<int>, sels: seq<byte>, outs: seq<byte>, i: nat)
    requires |rows| == |sels| == |outs| == w >= 1
    requires ChainShape(p, bs, c, w, ret, exit) && i < w
    requires Carries(m, p, |bs|, c, w, ret, rows, sels, outs) && ChainInv(m, s, p, bs, c, w, ret, sels, outs, i)
    ensures ChainLookup(p, bs, ret, exit, c, w, i)
    ensures var a := Word(s.mem, Blk(p, c + 2 * i) + 4);
            && Get(s.mem, a) == outs[i]
            && (i < w - 1 ==> Clear(p, |bs|, ret, w, a + 1) && Get(s.mem, a + 1) == sels[i + 1])
  {
    hide SameCode, Word, OnlyChain, Open;
    assert CarryAt(m, p, |bs|, c, w, ret, rows, sels, outs, i);
    ChainSource(m, s.mem, p, |bs|, c + 2 * i, ret, w);
    var a := rows[i] + sels[i];
    assert Word(s.mem, Blk(p, c + 2 * i) + 4) == a;
    ClearReads(m, s.mem, p, |bs|, ret, w, a);
    if i < w - 1 {
      ClearReads(m, s.mem, p, |bs|, ret, w, a + 1);
    }
  }

  /** A lookup with a successor: result byte, then the selector beside it. */
  lemma ChainStepLookup(m: Mem, s: State, p: int, bs: seq<Block>, c: nat, w: nat, ret: int, exit: int,
                        rows: seq<int>, sels: seq<byte>, outs: seq<byte>, i: nat)
    requires |rows| == |sels| == |outs| == w >= 1
    requires ChainShape(p, bs, c, w, ret, exit) && Code(m, p, bs) && i < w - 1
    requires Carries(m, p, |bs|, c, w, ret, rows, sels, outs) && ChainInv(m, s, p, bs, c, w, ret, sels, outs, i)
    ensures s.cb == Blk(p, c + 2 * i) && Step(s).cb == Blk(p, c + 2 * i + 1)
    ensures ChainDone(m, Step(s).mem, p, bs, ret, w, outs, i + 1)
    ensures Get(Step(s).mem, ret + i + 1) == sels[i + 1]
  {
    hide Step, Code, Matches, SameCode, Word, OnlyChain, Open, Carries, Blk;
    ChainReads(m, s, p, bs, c, w, ret, exit, rows, sels, outs, i);
    CodeFrame(m, s.mem, p, bs);
    CopyTwo(s, p, bs, c + 2 * i, ret + i, Blk(p, c + 2 * i + 1)) by { BlkPositive(p, c + 2 * i); }
    ChainPutResult(m, s.mem, p, bs, ret, w, ret + i, outs[i]);
    ChainPutResult(m, Put(s.mem, ret + i, outs[i]), p, bs, ret, w, ret + i + 1, sels[i + 1]);
  }

  lemma BlkPositive(p: int, k: nat)
    requires p > 0
    ensures Blk(p, k) > 0
  {
  }

  lemma ClearReads(m: Mem, m': Mem, p: int, n: int, ret: int, w: int, a: int)
    requires OnlyChain(m, m', p, n, ret, w) && Clear(p, n, ret, w, a)
    ensures Get(m', a) == Get(m, a)
  {
  }

  /** A carry block: the selector moves from the result into the next lookup. */
  lemma ChainStepCarry(m: Mem, s: State, p: int, bs: seq<Block>, c: nat, w: nat, ret: int, exit: int,
                       sels: seq<byte>, outs: seq<byte>, i: nat)
    requires ChainShape(p, bs, c, w, ret, exit) && Code(m, p, bs) && 1 <= i < w == |sels| == |outs|
    requires s.cb == Blk(p, c + 2 * i - 1) && Get(s.mem, ret + i) == sels[i]
    requires ChainDone(m, s.mem, p, bs, ret, w, outs, i)
    ensures ChainInv(m, Step(s), p, bs, c, w, ret, sels, outs, i)
  {
    hide Step, Code, SameCode, Word, OnlyChain, Open, ByteOf;
    var k := c + 2 * i - 1;
    CodeFrame(m, s.mem, p, bs);
    assert ChainCarry(p, bs, ret, c, i);
    assert ChainLookup(p, bs, ret, exit, c, w, i);
    FixedSource(s.mem, p, bs, k);
    CopyOne(s, p, bs, k, SrcAt(p, k + 1, 0), Blk(p, k + 1));
    ChainPutSelector(m, s.mem, p, bs, ret, w, k + 1, sels[i]);
  }

  lemma FixedSource(m: Mem, p: int, bs: seq<Block>, k: int)
    requires Code(m, p, bs) && 0 <= k < |bs| && !bs[k].open0 && !bs[k].open1 && !bs[k].open2
    requires 0 <= bs[k].src < 0x1_0000_0000
    ensures Word(m, Blk(p, k) + 4) == bs[k].src
  {
    assert Matches(m, Blk(p, k), bs[k]);
    WordOfBytes(bs[k].src);
    hide ByteOf;
  }

  lemma {:induction false} ChainWalk(m: Mem, p: int, bs: seq<Block>, c: nat, w: nat, ret: int, exit: int,
                                     rows: seq<int>, sels: seq<byte>, outs: seq<byte>, i: nat)
    requires |rows| == |sels| == |outs| == w >= 1
    requires ChainShape(p, bs, c, w, ret, exit) && Code(m, p, bs) && i < w
    requires Carries(m, p, |bs|, c, w, ret, rows, sels, outs)
    ensures ChainInv(m, Run(State(m, Blk(p, c)), 2 * i), p, bs, c, w, ret, sels, outs, i)
    ensures Visits(State(m, Blk(p, c)), 2 * i) == Straight(p, c, c + 2 * i)
  {
    hide Step, Code, ChainShape, ChainInv, ChainDone, Carries, Blk, Visits, Straight;
    var s0 := State(m, Blk(p, c));
    if i == 0 {
      ChainStart(m, p, bs, c, w, ret, rows, sels, outs);
      VisitsNone(s0, p, c);
    } else {
      ChainWalk(m, p, bs, c, w, ret, exit, rows, sels, outs, i - 1);
      ChainStepLookup(m, Run(s0, 2 * i - 2), p, bs, c, w, ret, exit, rows, sels, outs, i - 1);
      assert Run(s0, 2 * i - 1) == Step(Run(s0, 2 * i - 2));
      ChainStepCarry(m, Run(s0, 2 * i - 1), p, bs, c, w, ret, exit, sels, outs, i);
      VisitsNext(s0, p, c, 2 * i - 2);
      VisitsNext(s0, p, c, 2 * i - 1);
    }
  }

  lemma ChainStart(m: Mem, p: int, bs: seq<Block>, c: nat, w: nat, ret: int, rows: seq<int>, sels: seq<byte>, outs: seq<byte>)
    requires |rows| == |sels| == |outs| == w >= 1
    requires Carries(m, p, |bs|, c, w, ret, rows, sels, outs)
    ensures ChainInv(m, State(m, Blk(p, c)), p, bs, c, w, ret, sels, outs, 0)
  {
  }

  /** The whole walk: every result byte is the looked-up one, and the chain is intact. */
  lemma ChainRun(m: Mem, p: int, bs: seq<Block>, c: nat, w: nat, ret: int, exit: int,
                 rows: seq<int>, sels: seq<byte>, outs: seq<byte>)
    requires |rows| == |sels| == |outs| == w >= 1
    requires ChainShape(p, bs, c, w, ret, exit) && Code(m, p, bs)
    requires Carries(m, p, |bs|, c, w, ret, rows, sels, outs)
    ensures var s := Run(State(m, Blk(p, c)), 2 * w - 1);
            s.cb == exit && ChainDone(m, s.mem, p, bs, ret, w, outs, w)
    ensures Visits(State(m, Blk(p, c)), 2 * w - 1) == Straight(p, c, |bs|)
  {
    hide Step, Code, SameCode, Word, OnlyChain, Open, Carries, Blk, ChainShape, Visits, Straight;
    var i := w - 1;
    ChainWalk(m, p, bs, c, w, ret, exit, rows, sels, outs, i);
    var s := Run(State(m, Blk(p, c)), 2 * i);
    ChainLast(m, s, p, bs, c, w, ret, exit, rows, sels, outs);
    VisitsNext(State(m, Blk(p, c)), p, c, 2 * i);
  }

  lemma ChainLast(m: Mem, s: State, p: int, bs: seq<Block>, c: nat, w: nat, ret: int, exit: int,
                  rows: seq<int>, sels: seq<byte>, outs: seq<byte>)
    requires |rows| == |sels| == |outs| == w >= 1
    requires ChainShape(p, bs, c, w, ret, exit) && Code(m, p, bs)
    requires Carries(m, p, |bs|, c, w, ret, rows, sels, outs) && ChainInv(m, s, p, bs, c, w, ret, sels, outs, w - 1)
    ensures |bs| == c + 2 * w - 1 && s.cb == Blk(p, c + 2 * (w - 1))
    ensures Step(s).cb == exit && ChainDone(m, Step(s).mem, p, bs, ret, w, outs, w)
  {
    hide Step, Code, Matches, SameCode, Word, OnlyChain, Open, Carries, Blk;
    var i := w - 1;
    ChainReads(m, s, p, bs, c, w, ret, exit, rows, sels, outs, i);
    CodeFrame(m, s.mem, p, bs);
    CopyOne(s, p, bs, c + 2 * i, ret + i, exit) by { BlkPositive(p, c + 2 * i); }
    ChainPutResult(m, s.mem, p, bs, ret, w, ret + i, outs[i]);
  }
}
