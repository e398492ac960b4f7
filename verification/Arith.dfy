/**
 The chains of the DMA arithmetic library and what running them does.

 Every chain is described by its blocks, with the SRC bytes that the chain itself fills in left open.
 A chain whose blocks match in memory therefore stays a chain after it has run, whatever its
 operands were.
 */
module Arith {
  import opened Memory
  import opened DmaMachine
  import opened Chains
  import opened Walks
  import opened Scatter
  import opened Tables

  /** Only the `w` bytes at `ret` and SRC bytes of the chain's own blocks differ. */
  ghost predicate OnlyOwn(m: Mem, m': Mem, p: int, n: int, ret: int, w: int) {
    forall x :: !(ret <= x < ret + w) && !(InCode(p, n, x) && 4 <= (x - p) % 32 < 7) ==> Get(m', x) == Get(m, x)
  }

  /**
   Running the chain at `p` visits each of its blocks once, leaves through `exit`, stores `out` at
   `ret`, and changes nothing else but open SRC bytes of its own blocks.
   */
  ghost predicate Completes(m: Mem, p: int, bs: seq<Block>, exit: int, ret: int, out: seq<byte>) {
    var s := Run(State(m, p), |bs|);
    && s.cb == exit
    && Visits(State(m, p), |bs|) == Straight(p, 0, |bs|)
    && Bytes(s.mem, ret, |out|) == out
    && SameCode(m, s.mem, p, bs) && OnlyOwn(m, s.mem, p, |bs|, ret, |out|)
  }

  /** After the prologue: the operands sit in the SRC fields, and the chain is intact. */
  ghost predicate Prepared(m: Mem, m': Mem, p: int, bs: seq<Block>) {
    SameCode(m, m', p, bs) && OnlyOwn(m, m', p, |bs|, 0, 0)
  }

  lemma OnlyOwnTrans(m: Mem, m1: Mem, m2: Mem, p: int, bs: seq<Block>, ret: int, w: nat)
    requires Prepared(m, m1, p, bs)
    requires SameCode(m1, m2, p, bs) && OnlyOwn(m1, m2, p, |bs|, ret, w)
    ensures SameCode(m, m2, p, bs) && OnlyOwn(m, m2, p, |bs|, ret, w)
  {
    hide Open, Get;
  }

  /** Prologue of `c` blocks, then the rest. */
  lemma Combine(m: Mem, p: int, bs: seq<Block>, c: nat, s1: State, exit: int, ret: int, out: seq<byte>)
    requires c <= |bs|
    requires Run(State(m, p), c) == s1 && Visits(State(m, p), c) == Straight(p, 0, c)
    requires Prepared(m, s1.mem, p, bs)
    requires var s := Run(s1, |bs| - c);
             && s.cb == exit && Bytes(s.mem, ret, |out|) == out
             && SameCode(s1.mem, s.mem, p, bs) && OnlyOwn(s1.mem, s.mem, p, |bs|, ret, |out|)
    requires Visits(s1, |bs| - c) == Straight(p, c, |bs|)
    ensures Completes(m, p, bs, exit, ret, out)
  {
    hide Step, Run, Visits, Straight, SameCode, OnlyOwn, Bytes;
    RunCompose(State(m, p), c, |bs| - c);
    StraightJoin(p, 0, c, |bs|);
    OnlyOwnTrans(m, s1.mem, Run(s1, |bs| - c).mem, p, bs, ret, |out|);
  }

  // ---------------------------------------------------------------------------------------------
  // Prologues

  lemma OneScatter(m: Mem, p: int, bs: seq<Block>, pitch: int, j: int, a: int, w: nat)
    requires p > 0 && Code(m, p, bs) && |bs| >= 1
    requires (pitch == 32 || pitch == 64) && 0 <= j < 3 && 1 <= w <= 0x4000 && 0 <= a < 0x1_0000_0000
    requires bs[0] == ScatterBlock(SrcAt(p, 1, j), a, w, pitch, Blk(p, 1))
    requires ScatterTarget(bs, 1, pitch, j, w) && Apart(p, |bs|, a, w)
    ensures var s := Run(State(m, p), 1);
            && s.cb == Blk(p, 1) && Prepared(m, s.mem, p, bs) && Code(s.mem, p, bs)
            && Scattered(m, s.mem, p, 1, pitch, j, a, w)
    ensures Visits(State(m, p), 1) == Straight(p, 0, 1)
  {
    hide Step, Code, SameCode;
    var s0 := State(m, p);
    assert Run(s0, 0) == s0 && Run(s0, 1) == Step(s0);
    ScatterStep(s0, p, bs, 0, 1, pitch, j, a, w, Blk(p, 1));
    CodeFrame(m, Step(s0).mem, p, bs);
    SrcByteIsOwn(m, Step(s0).mem, p, |bs|, j);
    VisitsNone(s0, p, 0);
    VisitsNext(s0, p, 0, 0);
  }

  lemma SrcByteIsOwn(m: Mem, m': Mem, p: int, n: int, j: int)
    requires OnlySrcByte(m, m', p, n, j) && 0 <= j < 3
    ensures OnlyOwn(m, m', p, n, 0, 0)
  {
  }

  /** A second scatter leaves the bytes of the first one alone. */
  lemma StillScattered(m: Mem, m1: Mem, m2: Mem, p: int, n: int, c: int, pitch: int, j: int, j': int, a: int, w: int)
    requires Scattered(m, m1, p, c, pitch, j, a, w) && OnlySrcByte(m1, m2, p, n, j') && j != j' && 0 <= j < 3
    ensures Scattered(m, m2, p, c, pitch, j, a, w)
  {
    forall k | 0 <= k < w ensures Get(m2, SrcAt(p, Idx(c, pitch, k), j)) == Get(m, a + k) {
      var i := Idx(c, pitch, k);
      assert (SrcAt(p, i, j) - p) % 32 == 4 + j by { SrcOffset(p, i, j); }
    }
  }

  lemma SrcOffset(p: int, k: int, j: int)
    requires 0 <= j < 4
    ensures (SrcAt(p, k, j) - p) % 32 == 4 + j && (SrcAt(p, k, j) - p) / 32 == k
  {
  }

  /** An operand outside the code is what it was before the first scatter. */
  lemma OperandStays(m: Mem, m1: Mem, m2: Mem, p: int, n: int, c: int, pitch: int, j: int, j': int, a: int, w: int)
    requires OnlySrcByte(m, m1, p, n, j') && Apart(p, n, a, w) && Scattered(m1, m2, p, c, pitch, j, a, w)
    ensures Scattered(m, m2, p, c, pitch, j, a, w)
  {
    forall k | 0 <= k < w ensures Get(m2, SrcAt(p, Idx(c, pitch, k), j)) == Get(m, a + k) {
      assert !InCode(p, n, a + k);
    }
  }

  /** The two scatters that open a binary operation; `next` is where the second one goes. */
  lemma TwoScatters(m: Mem, p: int, bs: seq<Block>, pitch: int, a: int, b: int, w: nat, next: int)
    requires p > 0 && Code(m, p, bs) && |bs| >= 2
    requires (pitch == 32 || pitch == 64) && 1 <= w <= 0x4000 && 0 <= a < 0x1_0000_0000 && 0 <= b < 0x1_0000_0000
    requires bs[0] == ScatterBlock(SrcAt(p, 2, 1), a, w, pitch, Blk(p, 1))
    requires bs[1] == ScatterBlock(SrcAt(p, 2, 2), b, w, pitch, next)
    requires ScatterTarget(bs, 2, pitch, 1, w) && ScatterTarget(bs, 2, pitch, 2, w)
    requires Apart(p, |bs|, a, w) && Apart(p, |bs|, b, w)
    ensures var s := Run(State(m, p), 2);
            && s.cb == next && Prepared(m, s.mem, p, bs) && Code(s.mem, p, bs)
            && Scattered(m, s.mem, p, 2, pitch, 1, a, w) && Scattered(m, s.mem, p, 2, pitch, 2, b, w)
    ensures Visits(State(m, p), 2) == Straight(p, 0, 2)
  {
    hide Step, Code, SameCode, OnlySrcByte, Scattered, ScatterTarget, OnlyOwn, Visits, Straight;
    var s0 := State(m, p);
    assert Run(s0, 0) == s0 && Run(s0, 1) == Step(s0) && Run(s0, 2) == Step(Run(s0, 1));
    var s1 := Run(s0, 1);
    ScatterStep(s0, p, bs, 0, 2, pitch, 1, a, w, Blk(p, 1));
    CodeFrame(m, s1.mem, p, bs);
    SrcByteIsOwn(m, s1.mem, p, |bs|, 1);
    ScatterStep(s1, p, bs, 1, 2, pitch, 2, b, w, next);
    var s2 := Step(s1);
    CodeFrame(s1.mem, s2.mem, p, bs);
    SrcByteIsOwn(s1.mem, s2.mem, p, |bs|, 2);
    OnlyOwnTrans(m, s1.mem, s2.mem, p, bs, 0, 0);
    StillScattered(m, s1.mem, s2.mem, p, |bs|, 2, pitch, 1, 2, a, w);
    OperandStays(m, s1.mem, s2.mem, p, |bs|, 2, pitch, 2, 1, b, w);
    VisitsNone(s0, p, 0);
    VisitsNext(s0, p, 0, 0);
    VisitsNext(s0, p, 0, 1);
  }

  /** The row a HYPER lookup reads after its SRC bytes 1 and 2 have been filled in. */
  lemma HyperRowOf(t: Tables, m: Mem, p: int, bs: seq<Block>, k: int, col: int)
    requires Placed(t) && Code(m, p, bs) && 0 <= k < |bs| && bs[k].src == t.hyper + col && 0 <= col < 0x100
    ensures RowOf(m, p, k) == HyperRow(t, Get(m, SrcAt(p, k, 2)), Get(m, SrcAt(p, k, 1)))
    ensures !bs[k].open0 ==> Get(m, SrcAt(p, k, 0)) == col
  {
    assert Matches(m, Blk(p, k), bs[k]);
    AlignedBytes(t.hyper, col);
    hide ByteOf, Get;
  }

  /** The row of a block whose SRC bytes 1 to 3 are fixed. */
  lemma PageRowOf(m: Mem, p: int, bs: seq<Block>, k: int, page: int)
    requires Page(page) && Code(m, p, bs) && 0 <= k < |bs| && bs[k].src == page && !bs[k].open1 && !bs[k].open2
    ensures RowOf(m, p, k) == page
  {
    assert Matches(m, Blk(p, k), bs[k]);
    WordOfBytes(page);
    assert ByteOf(page, 0) == 0;
    hide ByteOf, Get;
  }

  lemma AlignedBytes(base: int, col: int)
    requires 0 <= base <= 0xFF00_0000 && base % 0x100_0000 == 0 && 0 <= col < 0x100
    ensures 0x100_0000 * ByteOf(base + col, 3) == base && ByteOf(base + col, 0) == col
  {
    var q := base / 0x100_0000;
    assert base == 0x100_0000 * q;
    assert (0x100_0000 * q + col) / 0x100_0000 == q;
  }

  lemma PointwiseFinish(m: Mem, s: State, p: int, bs: seq<Block>, c: int, ret: int, exit: int, src: seq<int>, out: seq<byte>)
    requires |out| == |src| && PointwiseInv(m, s, p, |bs|, c, ret, exit, src, |src|)
    requires c + |src| == |bs| && Apart(p, |bs|, ret, |out|)
    requires forall k :: 0 <= k < |src| ==> Get(m, src[k]) == out[k]
    ensures s.cb == exit && Bytes(s.mem, ret, |out|) == out
    ensures SameCode(m, s.mem, p, bs) && OnlyOwn(m, s.mem, p, |bs|, ret, |out|)
  {
    hide Open, Get;
  }

  /** Where an operation may find and leave its data. */
  predicate Operand(p: int, n: int, a: int, w: int) {
    && 0 <= a && a + w <= 0x1_0000_0000 && Apart(p, n, a, w)
  }

  ghost predicate Result(t: Tables, p: int, n: int, a: int, w: int) {
    Operand(p, n, a, w) && forall x :: a <= x < a + w ==> !InTables(t, x)
  }

  ghost predicate Located(t: Tables, p: int, n: int) {
    && Placed(t) && p > 0 && p % 32 == 0 && p + 32 * n <= 0x1_0000_0000
    && forall x :: InCode(p, n, x) ==> !InTables(t, x)
  }

  lemma SourceStays(m: Mem, m1: Mem, p: int, bs: seq<Block>, a: int)
    requires Prepared(m, m1, p, bs) && !InCode(p, |bs|, a)
    ensures Get(m1, a) == Get(m, a)
  {
    hide SameCode;
  }

  lemma ScatteredAt(m: Mem, m1: Mem, p: int, c: int, pitch: int, j: int, a: int, w: int, k: int)
    requires Scattered(m, m1, p, c, pitch, j, a, w) && 0 <= k < w
    ensures Get(m1, SrcAt(p, Idx(c, pitch, k), j)) == Get(m, a + k)
  {
  }

  /** Table rows are neither code nor result. */
  lemma HyperClear(t: Tables, p: int, n: int, ret: int, w: int, hi: byte, lo: byte, col: int)
    requires Located(t, p, n) && Result(t, p, n, ret, w) && 0 <= col < 0x100
    ensures Clear(p, n, ret, w, HyperRow(t, hi, lo) + col)
  {
    hide Placed;
    assert InTables(t, HyperRow(t, hi, lo) + col);
  }

  lemma LocatedIsPlaced(t: Tables, p: int, n: int)
    requires Located(t, p, n)
    ensures Placed(t)
  {
  }

  lemma LocatedIsPositive(t: Tables, p: int, n: int)
    requires Located(t, p, n)
    ensures p > 0
  {
  }

  lemma ResultIsApart(t: Tables, p: int, n: int, ret: int, w: int)
    requires Result(t, p, n, ret, w)
    ensures Apart(p, n, ret, w)
  {
  }

  lemma ClearMeans(p: int, n: int, ret: int, w: int, a: int)
    requires Clear(p, n, ret, w, a)
    ensures !InCode(p, n, a) && !(ret <= a < ret + w)
  {
  }

  lemma RowPlusByte(m: Mem, p: int, k: int)
    ensures Word(m, Blk(p, k) + 4) == RowOf(m, p, k) + Get(m, SrcAt(p, k, 0))
  {
  }
}
