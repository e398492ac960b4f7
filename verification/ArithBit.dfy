/** The chains of `Not`, `And`, `Or` and `Xor`. */
module ArithBit {
  import opened Memory
  import opened DmaMachine
  import opened Chains
  import opened Walks
  import opened Scatter
  import opened Numbers
  import opened Tables
  import opened Arith

  // ---------------------------------------------------------------------------------------------
  // Not

  function NotLookup(t: Tables, p: int, w: nat, ret: int, exit: int, k: int): Block {
    CopyBlock(ret + k, t.not, 1, NextOf(p, 1 + k, 1 + w, exit), true, false, false)
  }

  function NotBlocks(t: Tables, p: int, w: nat, ret: int, inp: int, exit: int): (bs: seq<Block>)
    ensures |bs| == w + 1
  {
    [ScatterBlock(SrcAt(p, 1, 0), inp, w, 32, Blk(p, 1))] + seq(w, k => NotLookup(t, p, w, ret, exit, k))
  }

  lemma NotShape(t: Tables, p: int, w: nat, ret: int, inp: int, exit: int)
    requires 1 <= w && p > 0 && Apart(p, w + 1, ret, w)
    ensures var bs := NotBlocks(t, p, w, ret, inp, exit);
            && PointwiseShape(p, bs, 1, w, ret, exit) && ScatterTarget(bs, 1, 32, 0, w)
            && bs[0] == ScatterBlock(SrcAt(p, 1, 0), inp, w, 32, Blk(p, 1))
  {
    var bs := NotBlocks(t, p, w, ret, inp, exit);
    forall k | 0 <= k < w ensures PointwiseBlock(p, bs, ret, exit, 1, k) {
      assert bs[1 + k] == NotLookup(t, p, w, ret, exit, k);
    }
    forall k | 0 <= k < w ensures 0 <= Idx(1, 32, k) < |bs| && OpenByte(bs[Idx(1, 32, k)], 4) {
      assert bs[1 + k] == NotLookup(t, p, w, ret, exit, k);
    }
  }

  /** `Not` stores the complement of its operand, also over the operand itself. */
  lemma NotRuns(t: Tables, m: Mem, p: int, w: nat, ret: int, inp: int, exit: int)
    requires 1 <= w <= 0x4000 && Located(t, p, w + 1) && Ready(m, t)
    requires Operand(p, w + 1, inp, w) && Result(t, p, w + 1, ret, w)
    requires Code(m, p, NotBlocks(t, p, w, ret, inp, exit))
    ensures Completes(m, p, NotBlocks(t, p, w, ret, inp, exit), exit, ret, NotBytes(Bytes(m, inp, w)))
  {
    hide Step, Run, Visits, Straight, Code, SameCode, OnlyOwn, Scattered, ScatterTarget, PointwiseShape, PointwiseInv,
      Ready, Get, InTables, Placed, NotBytes, NotBlocks, Bytes, Word;
    var bs := NotBlocks(t, p, w, ret, inp, exit);
    var out := NotBytes(Bytes(m, inp, w));
    NotShape(t, p, w, ret, inp, exit);
    OneScatter(m, p, bs, 32, 0, inp, w);
    var s1 := Run(State(m, p), 1);
    var src := NotSources(t, m, s1.mem, p, w, ret, inp, exit);
    PointwiseWalk(s1.mem, p, bs, 1, w, ret, exit, src, w);
    PointwiseFinish(s1.mem, Run(s1, w), p, bs, 1, ret, exit, src, out);
    Combine(m, p, bs, 1, s1, exit, ret, out);
  }

  function NotAddresses(t: Tables, l: seq<byte>): (src: seq<int>)
    ensures |src| == |l| && forall k :: 0 <= k < |l| ==> src[k] == t.not + l[k]
  {
    seq(|l|, k requires 0 <= k < |l| => t.not + l[k])
  }

  lemma NotSources(t: Tables, m: Mem, m1: Mem, p: int, w: nat, ret: int, inp: int, exit: int) returns (src: seq<int>)
    requires 1 <= w && Located(t, p, w + 1) && Ready(m, t) && Result(t, p, w + 1, ret, w)
    requires var bs := NotBlocks(t, p, w, ret, inp, exit); Code(m1, p, bs) && Prepared(m, m1, p, bs)
    requires Scattered(m, m1, p, 1, 32, 0, inp, w)
    ensures Sources(m1, p, 1, w, ret, src)
    ensures forall k :: 0 <= k < w ==> Get(m1, src[k]) == NotBytes(Bytes(m, inp, w))[k]
  {
    hide *;
    var l := Bytes(m, inp, w);
    src := NotAddresses(t, l);
    forall k | 0 <= k < w
      ensures SourceAt(m1, p, 1, w, ret, src, k) && Get(m1, src[k]) == NotBytes(l)[k]
    {
      NotSource(t, m, m1, p, w, ret, inp, exit, k);
      SourceIs(m1, p, 1, w, ret, src, k);
    }
    SourcesAre(m1, p, 1, w, ret, src);
  }

  lemma NotSource(t: Tables, m: Mem, m1: Mem, p: int, w: nat, ret: int, inp: int, exit: int, k: nat)
    requires 1 <= w && k < w && Located(t, p, w + 1) && Ready(m, t) && Result(t, p, w + 1, ret, w)
    requires var bs := NotBlocks(t, p, w, ret, inp, exit); Code(m1, p, bs) && Prepared(m, m1, p, bs)
    requires Scattered(m, m1, p, 1, 32, 0, inp, w)
    ensures var a := t.not + Get(m, inp + k);
            Word(m1, Blk(p, 1 + k) + 4) == a && !(ret <= a < ret + w) && Get(m1, a) == 255 - Get(m, inp + k)
  {
    hide Code, Prepared, Ready, Word, Placed, RowOf, Scattered, Get, InTables;
    var bs := NotBlocks(t, p, w, ret, inp, exit);
    assert bs[1 + k] == NotLookup(t, p, w, ret, exit, k);
    assert Page(t.not) by { NotPage(t); }
    PageRowOf(m1, p, bs, 1 + k, t.not);
    RowPlusByte(m1, p, 1 + k);
    ScatteredAt(m, m1, p, 1, 32, 0, inp, w, k);
    var a := t.not + Get(m, inp + k);
    assert InTables(t, a) by { InNot(t, Get(m, inp + k)); }
    SourceStays(m, m1, p, bs, a);
    NotEntryAt(m, t, Get(m, inp + k));
  }

  lemma NotPage(t: Tables)
    requires Placed(t)
    ensures Page(t.not)
  {
  }

  lemma InNot(t: Tables, i: byte)
    ensures InTables(t, t.not + i)
  {
  }

  lemma NotEntryAt(m: Mem, t: Tables, i: byte)
    requires Ready(m, t)
    ensures Get(m, t.not + i) == 255 - i
  {
    assert NotEntry(m, t.not, i);
  }

  // ---------------------------------------------------------------------------------------------
  // And, Or, Xor

  function BitLookup(t: Tables, p: int, w: nat, ret: int, op: BitOp, exit: int, k: int): Block {
    CopyBlock(ret + k, t.hyper + BitColumn(op), 1, NextOf(p, 2 + k, 2 + w, exit), false, true, true)
  }

  function BitBlocks(t: Tables, p: int, w: nat, ret: int, lhs: int, rhs: int, op: BitOp, exit: int): (bs: seq<Block>)
    ensures |bs| == w + 2
  {
    [ScatterBlock(SrcAt(p, 2, 1), lhs, w, 32, Blk(p, 1)), ScatterBlock(SrcAt(p, 2, 2), rhs, w, 32, Blk(p, 2))]
    + seq(w, k => BitLookup(t, p, w, ret, op, exit, k))
  }

  /** Every bit of the `k`-th byte stored is the operation on the bits at its place in the operands. */
  ghost predicate JoinedAt(op: BitOp, m': Mem, ret: int, m: Mem, lhs: int, rhs: int, k: int) {
    JoinedByte(op, Get(m', ret + k), Get(m, lhs + k), Get(m, rhs + k))
  }

  ghost predicate JoinedByte(op: BitOp, b: byte, x: byte, y: byte) {
    forall j: nat :: BitSet(b, j) <==> Joined(op, BitSet(x, j), BitSet(y, j))
  }

  /** `And`, `Or` and `Xor` store the bitwise combination of their operands, also over an operand. */
  lemma BitRuns(t: Tables, m: Mem, p: int, w: nat, ret: int, lhs: int, rhs: int, op: BitOp, exit: int)
    requires 1 <= w <= 0x4000 && Located(t, p, w + 2) && Ready(m, t)
    requires Operand(p, w + 2, lhs, w) && Operand(p, w + 2, rhs, w) && Result(t, p, w + 2, ret, w)
    requires Code(m, p, BitBlocks(t, p, w, ret, lhs, rhs, op, exit))
    ensures Completes(m, p, BitBlocks(t, p, w, ret, lhs, rhs, op, exit), exit, ret,
                      BitwiseBytes(op, Bytes(m, lhs, w), Bytes(m, rhs, w)))
    ensures var m' := Run(State(m, p), w + 2).mem;
            forall k :: 0 <= k < w ==> JoinedAt(op, m', ret, m, lhs, rhs, k)
  {
    hide JoinedAt;
    hide Step, Run, Visits, Straight, Code, SameCode, OnlyOwn, Scattered, ScatterTarget, PointwiseShape, PointwiseInv,
      Ready, Get, InTables, Placed, BitwiseBytes, BitBlocks, Bytes, Word;
    var bs := BitBlocks(t, p, w, ret, lhs, rhs, op, exit);
    var out := BitwiseBytes(op, Bytes(m, lhs, w), Bytes(m, rhs, w));
    BitShape(t, p, w, ret, lhs, rhs, op, exit);
    TwoScatters(m, p, bs, 32, lhs, rhs, w, Blk(p, 2));
    var s1 := Run(State(m, p), 2);
    var src := BitSources(t, m, s1.mem, p, w, ret, lhs, rhs, op, exit);
    PointwiseWalk(s1.mem, p, bs, 2, w, ret, exit, src, w);
    PointwiseFinish(s1.mem, Run(s1, w), p, bs, 2, ret, exit, src, out);
    Combine(m, p, bs, 2, s1, exit, ret, out);
    assert Completes(m, p, bs, exit, ret, out);
    StoredBits(m, p, bs, w, ret, lhs, rhs, op, exit);
  }

  lemma StoredBits(m: Mem, p: int, bs: seq<Block>, w: nat, ret: int, lhs: int, rhs: int, op: BitOp, exit: int)
    requires |bs| == w + 2 && Completes(m, p, bs, exit, ret, BitwiseBytes(op, Bytes(m, lhs, w), Bytes(m, rhs, w)))
    ensures var m' := Run(State(m, p), w + 2).mem;
            forall k :: 0 <= k < w ==> JoinedAt(op, m', ret, m, lhs, rhs, k)
  {
    hide Get, Run, Bitwise, BitSet, Joined, JoinedByte;
    var m', out := Run(State(m, p), w + 2).mem, BitwiseBytes(op, Bytes(m, lhs, w), Bytes(m, rhs, w));
    forall k | 0 <= k < w ensures JoinedAt(op, m', ret, m, lhs, rhs, k) {
      assert Bytes(m', ret, w)[k] == out[k];
      BitwiseByBit(op, Get(m, lhs + k), Get(m, rhs + k));
    }
  }

  lemma BitwiseByBit(op: BitOp, x: byte, y: byte)
    ensures Bitwise(op, x, y) < 256 && JoinedByte(op, Bitwise(op, x, y), x, y)
  {
    hide Bitwise, BitSet, Joined;
    BitwiseByte(op, x, y);
    forall j: nat ensures BitSet(Bitwise(op, x, y), j) <==> Joined(op, BitSet(x, j), BitSet(y, j)) {
      BitwiseBits(op, x, y, j);
    }
  }

  lemma BitShape(t: Tables, p: int, w: nat, ret: int, lhs: int, rhs: int, op: BitOp, exit: int)
    requires 1 <= w && p > 0 && Apart(p, w + 2, ret, w)
    ensures var bs := BitBlocks(t, p, w, ret, lhs, rhs, op, exit);
            && PointwiseShape(p, bs, 2, w, ret, exit)
            && ScatterTarget(bs, 2, 32, 1, w) && ScatterTarget(bs, 2, 32, 2, w)
            && bs[0] == ScatterBlock(SrcAt(p, 2, 1), lhs, w, 32, Blk(p, 1))
            && bs[1] == ScatterBlock(SrcAt(p, 2, 2), rhs, w, 32, Blk(p, 2))
  {
    var bs := BitBlocks(t, p, w, ret, lhs, rhs, op, exit);
    assert forall k :: 0 <= k < w ==> bs[2 + k] == BitLookup(t, p, w, ret, op, exit, k);
    forall k | 0 <= k < w ensures PointwiseBlock(p, bs, ret, exit, 2, k) {
      assert bs[2 + k] == BitLookup(t, p, w, ret, op, exit, k);
    }
    forall k | 0 <= k < w
      ensures 0 <= Idx(2, 32, k) < |bs| && OpenByte(bs[Idx(2, 32, k)], 5) && OpenByte(bs[Idx(2, 32, k)], 6)
    {
      assert bs[2 + k] == BitLookup(t, p, w, ret, op, exit, k);
    }
  }

  function BitAddresses(t: Tables, op: BitOp, l: seq<byte>, r: seq<byte>): (src: seq<int>)
    requires |l| == |r|
    ensures |src| == |l| && forall k :: 0 <= k < |l| ==> src[k] == HyperRow(t, r[k], l[k]) + BitColumn(op)
  {
    seq(|l|, k requires 0 <= k < |l| => HyperRow(t, r[k], l[k]) + BitColumn(op))
  }

  lemma BitSources(t: Tables, m: Mem, m1: Mem, p: int, w: nat, ret: int, lhs: int, rhs: int, op: BitOp, exit: int) returns (src: seq<int>)
    requires 1 <= w && Located(t, p, w + 2) && Ready(m, t) && Result(t, p, w + 2, ret, w)
    requires var bs := BitBlocks(t, p, w, ret, lhs, rhs, op, exit); Code(m1, p, bs) && Prepared(m, m1, p, bs)
    requires Scattered(m, m1, p, 2, 32, 1, lhs, w) && Scattered(m, m1, p, 2, 32, 2, rhs, w)
    ensures Sources(m1, p, 2, w, ret, src)
    ensures forall k :: 0 <= k < w ==> Get(m1, src[k]) == BitwiseBytes(op, Bytes(m, lhs, w), Bytes(m, rhs, w))[k]
  {
    hide *;
    var l, r := Bytes(m, lhs, w), Bytes(m, rhs, w);
    src := BitAddresses(t, op, l, r);
    forall k | 0 <= k < w
      ensures SourceAt(m1, p, 2, w, ret, src, k) && Get(m1, src[k]) == BitwiseBytes(op, l, r)[k]
    {
      BitSource(t, m, m1, p, w, ret, lhs, rhs, op, exit, k);
      SourceIs(m1, p, 2, w, ret, src, k);
    }
    SourcesAre(m1, p, 2, w, ret, src);
  }

  lemma BitSource(t: Tables, m: Mem, m1: Mem, p: int, w: nat, ret: int, lhs: int, rhs: int, op: BitOp, exit: int, k: nat)
    requires 1 <= w && k < w && Located(t, p, w + 2) && Ready(m, t) && Result(t, p, w + 2, ret, w)
    requires var bs := BitBlocks(t, p, w, ret, lhs, rhs, op, exit); Code(m1, p, bs) && Prepared(m, m1, p, bs)
    requires Scattered(m, m1, p, 2, 32, 1, lhs, w) && Scattered(m, m1, p, 2, 32, 2, rhs, w)
    ensures var i, j := Get(m, lhs + k), Get(m, rhs + k);
            var a := HyperRow(t, j, i) + BitColumn(op);
            Word(m1, Blk(p, 2 + k) + 4) == a && !(ret <= a < ret + w) && Get(m1, a) == Bitwise(op, i, j)
  {
    hide Code, Prepared, Bitwise, Ready, Placed, Word, RowOf, Scattered, Located, Result, Get, HyperRow, Clear;
    var bs := BitBlocks(t, p, w, ret, lhs, rhs, op, exit);
    var i, j := Get(m, lhs + k), Get(m, rhs + k);
    assert bs[2 + k] == BitLookup(t, p, w, ret, op, exit, k);
    LocatedIsPlaced(t, p, |bs|);
    HyperRowOf(t, m1, p, bs, 2 + k, BitColumn(op));
    RowPlusByte(m1, p, 2 + k);
    ScatteredAt(m, m1, p, 2, 32, 1, lhs, w, k);
    ScatteredAt(m, m1, p, 2, 32, 2, rhs, w, k);
    var a := HyperRow(t, j, i) + BitColumn(op);
    HyperClear(t, p, |bs|, ret, w, j, i, BitColumn(op));
    ClearMeans(p, |bs|, ret, w, a);
    SourceStays(m, m1, p, bs, a);
    BitEntryAt(m, t, op, j, i);
  }

  lemma BitEntryAt(m: Mem, t: Tables, op: BitOp, i: byte, j: byte)
    requires Ready(m, t)
    ensures Get(m, HyperRow(t, i, j) + BitColumn(op)) == Bitwise(op, j, i)
  {
    assert BitTable(m, t, op);
    assert BitEntry(m, HyperRow(t, i, j), op, i, j);
    BitwiseCommutes(op, i, j);
  }
}
