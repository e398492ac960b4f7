/** The carry chains of `Inc`, `Add` and `Sub`. */
module ArithInt {
  import opened Memory
  import opened DmaMachine
  import opened Chains
  import opened Walks
  import opened Scatter
  import opened Numbers
  import opened Tables
  import opened Arith

  /** Lookup `k` of a carry chain whose lookups start at block `c`. */
  function RippleLookup(p: int, c: int, w: nat, ret: int, first: int, later: int, hyper: bool, exit: int, k: int): Block {
    CopyBlock(ret + k, if k == 0 then first else later, if k < w - 1 then 2 else 1,
              NextOf(p, c + 2 * k, c + 2 * w - 1, exit), k > 0, true, hyper)
  }

  function CarryBlock(p: int, c: int, ret: int, k: int): Block {
    CopyBlock(SrcAt(p, c + 2 * k, 0), ret + k, 1, Blk(p, c + 2 * k), false, false, false)
  }

  function TailBlock(p: int, c: int, w: nat, ret: int, first: int, later: int, hyper: bool, exit: int, i: int): Block {
    if i % 2 == 0 then RippleLookup(p, c, w, ret, first, later, hyper, exit, i / 2)
    else CarryBlock(p, c, ret, (i + 1) / 2)
  }

  function RippleTail(p: int, c: int, w: nat, ret: int, first: int, later: int, hyper: bool, exit: int): (bs: seq<Block>)
    requires w >= 1
    ensures |bs| == 2 * w - 1
    ensures forall i :: 0 <= i < |bs| ==> bs[i] == TailBlock(p, c, w, ret, first, later, hyper, exit, i)
  {
    seq(2 * w - 1, i => TailBlock(p, c, w, ret, first, later, hyper, exit, i))
  }

  lemma RippleShape(p: int, bs: seq<Block>, c: nat, w: nat, ret: int, first: int, later: int, hyper: bool, exit: int)
    requires 1 <= w && p > 0 && |bs| == c + 2 * w - 1
    requires bs[c..] == RippleTail(p, c, w, ret, first, later, hyper, exit)
    requires Operand(p, |bs|, ret, w)
    ensures ChainShape(p, bs, c, w, ret, exit)
    ensures ScatterTarget(bs, c, 64, 1, w) && (hyper ==> ScatterTarget(bs, c, 64, 2, w))
  {
    hide RippleTail;
    var tail := RippleTail(p, c, w, ret, first, later, hyper, exit);
    forall k | 0 <= k < w
      ensures ChainLookup(p, bs, ret, exit, c, w, k)
      ensures bs[Idx(c, 64, k)] == RippleLookup(p, c, w, ret, first, later, hyper, exit, k)
    {
      assert bs[c + 2 * k] == bs[c..][2 * k] == tail[2 * k];
      assert (2 * k) % 2 == 0 && (2 * k) / 2 == k;
    }
    forall k | 1 <= k < w ensures ChainCarry(p, bs, ret, c, k) {
      assert bs[c + 2 * k - 1] == bs[c..][2 * k - 1] == tail[2 * k - 1];
      assert (2 * k - 1) % 2 == 1 && (2 * k) / 2 == k;
    }
  }

  // ---------------------------------------------------------------------------------------------
  // Add and Sub

  function AddColumn(sg: int): (col: int)
    ensures 4 <= col <= 8
  {
    if sg == 1 then HYPER_ADD else HYPER_SUB
  }

  /** The blocks of `Add` (sg == 1) and `Sub` (sg == -1). */
  function AddBlocks(t: Tables, p: int, w: nat, ret: int, lhs: int, rhs: int, sg: int, exit: int): (bs: seq<Block>)
    requires w >= 1
    ensures |bs| == 2 * w + 1
    ensures bs[0] == ScatterBlock(SrcAt(p, 2, 1), rhs, w, 64, Blk(p, 1))
    ensures bs[1] == ScatterBlock(SrcAt(p, 2, 2), lhs, w, 64, Blk(p, 2))
    ensures bs[2..] == RippleTail(p, 2, w, ret, t.hyper + AddColumn(sg), t.hyper, true, exit)
  {
    [ScatterBlock(SrcAt(p, 2, 1), rhs, w, 64, Blk(p, 1)), ScatterBlock(SrcAt(p, 2, 2), lhs, w, 64, Blk(p, 2))]
    + RippleTail(p, 2, w, ret, t.hyper + AddColumn(sg), t.hyper, true, exit)
  }

  function AddRows(t: Tables, l: seq<byte>, r: seq<byte>): (rows: seq<int>)
    requires |l| == |r|
    ensures |rows| == |l| && forall k :: 0 <= k < |l| ==> rows[k] == HyperRow(t, l[k], r[k])
  {
    seq(|l|, k requires 0 <= k < |l| => HyperRow(t, l[k], r[k]))
  }

  function Selectors(col: int, sg: int, l: seq<byte>, r: seq<byte>, c: int): (sels: seq<byte>)
    requires |l| == |r| && (sg == 1 || sg == -1) && 0 <= c <= 1 && 0 <= col < 0x80
    ensures |sels| == |l| && forall k :: 0 <= k < |l| ==> sels[k] == col + 2 * Carry(sg, l, r, c, k)
  {
    seq<byte>(|l|, k requires 0 <= k < |l| => col + 2 * Carry(sg, l, r, c, k))
  }

  lemma RippleEntryAt(m: Mem, t: Tables, sg: int, i: byte, j: byte, c: int)
    requires Ready(m, t) && (sg == 1 || sg == -1) && 0 <= c <= 1
    ensures RippleEntry(m, HyperRow(t, i, j), AddColumn(sg), sg, i, j, c)
  {
    hide RippleEntry;
    assert RippleTable(m, t, AddColumn(sg), sg);
  }

  /** What lookup `k` finds: the digit, and the selector for the next one. */
  lemma AddSource(t: Tables, m: Mem, m1: Mem, p: int, w: nat, ret: int, lhs: int, rhs: int, sg: int, exit: int,
                  l: seq<byte>, r: seq<byte>, k: nat)
    requires 1 <= w && k < w && (sg == 1 || sg == -1) && Located(t, p, 2 * w + 1) && Ready(m, t) && Result(t, p, 2 * w + 1, ret, w)
    requires var bs := AddBlocks(t, p, w, ret, lhs, rhs, sg, exit); Code(m1, p, bs) && Prepared(m, m1, p, bs)
    requires Scattered(m, m1, p, 2, 64, 1, rhs, w) && Scattered(m, m1, p, 2, 64, 2, lhs, w)
    requires l == Bytes(m, lhs, w) && r == Bytes(m, rhs, w)
    ensures CarryAt(m1, p, 2 * w + 1, 2, w, ret, AddRows(t, l, r), Selectors(AddColumn(sg), sg, l, r, 0), Ripple(sg, l, r, 0), k)
    ensures k == 0 ==> Get(m1, SrcAt(p, 2, 0)) == Selectors(AddColumn(sg), sg, l, r, 0)[0]
  {
    hide Code, Prepared, Ready, Placed, Word, RowOf, Ripple, RippleTail, AddBlocks, Get, InTables, Scattered,
      Selectors, AddRows, Bytes, Digit, CarryOut, HyperRow;
    var bs := AddBlocks(t, p, w, ret, lhs, rhs, sg, exit);
    var c := Carry(sg, l, r, 0, k);
    AddLookup(t, p, w, ret, lhs, rhs, sg, exit, k);
    HyperRowOf(t, m1, p, bs, 2 + 2 * k, if k == 0 then AddColumn(sg) else 0);
    ScatteredAt(m, m1, p, 2, 64, 1, rhs, w, k);
    ScatteredAt(m, m1, p, 2, 64, 2, lhs, w, k);
    var a := HyperRow(t, l[k], r[k]) + AddColumn(sg) + 2 * c;
    HyperClear(t, p, |bs|, ret, w, l[k], r[k], AddColumn(sg) + 2 * c);
    HyperClear(t, p, |bs|, ret, w, l[k], r[k], AddColumn(sg) + 2 * c + 1);
    RippleEntryAt(m, t, sg, l[k], r[k], c);
    SourceStays(m, m1, p, bs, a);
    SourceStays(m, m1, p, bs, a + 1);
  }

  lemma AddLookup(t: Tables, p: int, w: nat, ret: int, lhs: int, rhs: int, sg: int, exit: int, k: nat)
    requires 1 <= w && k < w
    ensures AddBlocks(t, p, w, ret, lhs, rhs, sg, exit)[2 + 2 * k] ==
            RippleLookup(p, 2, w, ret, t.hyper + AddColumn(sg), t.hyper, true, exit, k)
  {
    hide AddBlocks, RippleTail;
    var bs := AddBlocks(t, p, w, ret, lhs, rhs, sg, exit);
    assert bs[2 + 2 * k] == bs[2..][2 * k];
    assert (2 * k) % 2 == 0 && (2 * k) / 2 == k;
  }

  lemma AddCarries(t: Tables, m: Mem, m1: Mem, p: int, w: nat, ret: int, lhs: int, rhs: int, sg: int, exit: int,
                   l: seq<byte>, r: seq<byte>)
    requires 1 <= w && (sg == 1 || sg == -1) && Located(t, p, 2 * w + 1) && Ready(m, t) && Result(t, p, 2 * w + 1, ret, w)
    requires var bs := AddBlocks(t, p, w, ret, lhs, rhs, sg, exit); Code(m1, p, bs) && Prepared(m, m1, p, bs)
    requires Scattered(m, m1, p, 2, 64, 1, rhs, w) && Scattered(m, m1, p, 2, 64, 2, lhs, w)
    requires l == Bytes(m, lhs, w) && r == Bytes(m, rhs, w)
    ensures Carries(m1, p, 2 * w + 1, 2, w, ret, AddRows(t, l, r), Selectors(AddColumn(sg), sg, l, r, 0), Ripple(sg, l, r, 0))
  {
    hide *;
    var n := 2 * w + 1;
    var rows, sels, outs := AddRows(t, l, r), Selectors(AddColumn(sg), sg, l, r, 0), Ripple(sg, l, r, 0);
    forall k | 0 <= k < w ensures CarryAt(m1, p, n, 2, w, ret, rows, sels, outs, k) {
      AddSource(t, m, m1, p, w, ret, lhs, rhs, sg, exit, l, r, k);
    }
    AddSource(t, m, m1, p, w, ret, lhs, rhs, sg, exit, l, r, 0);
    CarriesAre(m1, p, n, 2, w, ret, rows, sels, outs);
  }

  lemma ChainFinish(m: Mem, m': Mem, p: int, bs: seq<Block>, ret: int, out: seq<byte>)
    requires ChainDone(m, m', p, bs, ret, |out|, out, |out|)
    ensures Bytes(m', ret, |out|) == out && SameCode(m, m', p, bs) && OnlyOwn(m, m', p, |bs|, ret, |out|)
  {
    hide SameCode, Get;
  }

  /**
   `Add` and `Sub` store lhs + rhs and lhs - rhs modulo 256^w, also over an operand, for every width
   from 2 on.
   */
  lemma AddWideRuns(t: Tables, m: Mem, p: int, w: nat, ret: int, lhs: int, rhs: int, sg: int, exit: int)
    requires 2 <= w <= 0x4000 && (sg == 1 || sg == -1) && Located(t, p, 2 * w + 1) && Ready(m, t)
    requires Operand(p, 2 * w + 1, lhs, w) && Operand(p, 2 * w + 1, rhs, w) && Result(t, p, 2 * w + 1, ret, w)
    requires Code(m, p, AddBlocks(t, p, w, ret, lhs, rhs, sg, exit))
    ensures Completes(m, p, AddBlocks(t, p, w, ret, lhs, rhs, sg, exit), exit, ret,
                      ToBytes(Value(Bytes(m, lhs, w)) + sg * Value(Bytes(m, rhs, w)), w))
  {
    hide Step, Run, Visits, Straight, Code, SameCode, OnlyOwn, Scattered, ScatterTarget, ChainShape, ChainDone, Carries,
      Ready, Get, InTables, Placed, AddBlocks, Bytes, Word, RippleTail, Ripple, Selectors, AddRows, ToBytes, Value, Completes;
    var bs := AddBlocks(t, p, w, ret, lhs, rhs, sg, exit);
    var l, r := Bytes(m, lhs, w), Bytes(m, rhs, w);
    var out := Ripple(sg, l, r, 0);
    RippleShape(p, bs, 2, w, ret, t.hyper + AddColumn(sg), t.hyper, true, exit);
    TwoScatters(m, p, bs, 64, rhs, lhs, w, Blk(p, 2));
    var s1 := Run(State(m, p), 2);
    AddCarries(t, m, s1.mem, p, w, ret, lhs, rhs, sg, exit, l, r);
    ChainRun(s1.mem, p, bs, 2, w, ret, exit, AddRows(t, l, r), Selectors(AddColumn(sg), sg, l, r, 0), out);
    ChainFinish(s1.mem, Run(s1, 2 * w - 1).mem, p, bs, ret, out);
    Combine(m, p, bs, 2, s1, exit, ret, out);
    RippleCorrect(sg, l, r, 0);
  }

  // ---------------------------------------------------------------------------------------------
  // Add and Sub of single bytes

  /** At width 1 the only lookup still writes two bytes. */
  function AddOneBlocks(t: Tables, p: int, ret: int, lhs: int, rhs: int, sg: int, exit: int): (bs: seq<Block>)
    ensures |bs| == 3
    ensures bs[2] == CopyBlock(ret, t.hyper + AddColumn(sg), 2, exit, false, true, true)
  {
    [ScatterBlock(SrcAt(p, 2, 1), rhs, 1, 64, Blk(p, 1)), ScatterBlock(SrcAt(p, 2, 2), lhs, 1, 64, Blk(p, 2)),
     CopyBlock(ret, t.hyper + AddColumn(sg), 2, exit, false, true, true)]
  }

  /** A sum or difference of two bytes, and the selector that says whether it left the byte. */
  function OneDigit(sg: int, x: byte, y: byte): (out: seq<byte>)
    requires sg == 1 || sg == -1
    ensures |out| == 2 && out[0] == (x + sg * y) % 256
    ensures out[1] == if 0 <= x + sg * y < 256 then AddColumn(sg) else AddColumn(sg) + 2
  {
    var d := x + sg * y;
    [d % 256, if 0 <= d < 256 then AddColumn(sg) else AddColumn(sg) + 2]
  }

  /** What the lookup finds. */
  lemma OneEntry(t: Tables, m: Mem, m1: Mem, p: int, ret: int, lhs: int, rhs: int, sg: int, exit: int)
    requires (sg == 1 || sg == -1) && Located(t, p, 3) && Ready(m, t) && Result(t, p, 3, ret, 2)
    requires var bs := AddOneBlocks(t, p, ret, lhs, rhs, sg, exit); Code(m1, p, bs) && Prepared(m, m1, p, bs)
    requires Scattered(m, m1, p, 2, 64, 1, rhs, 1) && Scattered(m, m1, p, 2, 64, 2, lhs, 1)
    ensures var a := Word(m1, Blk(p, 2) + 4);
            && Clear(p, 3, ret, 2, a) && Clear(p, 3, ret, 2, a + 1)
            && [Get(m1, a), Get(m1, a + 1)] == OneDigit(sg, Get(m, lhs), Get(m, rhs))
  {
    hide Code, Prepared, Ready, Placed, Word, RowOf, AddOneBlocks, Get, InTables, Scattered, HyperRow;
    var bs := AddOneBlocks(t, p, ret, lhs, rhs, sg, exit);
    var x, y := Get(m, lhs), Get(m, rhs);
    HyperRowOf(t, m1, p, bs, 2, AddColumn(sg));
    RowPlusByte(m1, p, 2);
    ScatteredAt(m, m1, p, 2, 64, 1, rhs, 1, 0);
    ScatteredAt(m, m1, p, 2, 64, 2, lhs, 1, 0);
    var a := HyperRow(t, x, y) + AddColumn(sg);
    HyperClear(t, p, 3, ret, 2, x, y, AddColumn(sg));
    HyperClear(t, p, 3, ret, 2, x, y, AddColumn(sg) + 1);
    RippleEntryAt(m, t, sg, x, y, 0);
    SourceStays(m, m1, p, bs, a);
    SourceStays(m, m1, p, bs, a + 1);
  }

  /** A block that stores two bytes. */
  lemma StoreTwo(s: State, p: int, bs: seq<Block>, k: nat, ret: int, next: int, out: seq<byte>)
    requires Code(s.mem, p, bs) && k < |bs| && s.cb == Blk(p, k) != 0 && IsCopy(bs[k], ret, 2, next) && Apart(p, |bs|, ret, 2)
    requires var a := Word(s.mem, Blk(p, k) + 4);
             Clear(p, |bs|, ret, 2, a) && Clear(p, |bs|, ret, 2, a + 1) && [Get(s.mem, a), Get(s.mem, a + 1)] == out
    ensures Step(s).cb == next && Bytes(Step(s).mem, ret, 2) == out
    ensures SameCode(s.mem, Step(s).mem, p, bs) && OnlyOwn(s.mem, Step(s).mem, p, |bs|, ret, 2)
  {
    hide Step, Code, Word, Get, Put, Open;
    var a := Word(s.mem, Blk(p, k) + 4);
    CopyTwo(s, p, bs, k, ret, next);
    PutReads(s.mem, ret, Get(s.mem, a));
    PutReads(Put(s.mem, ret, Get(s.mem, a)), ret + 1, Get(s.mem, a + 1));
  }

  /**
   At width 1, which the emitters accept, the byte at `ret` is right, and the byte behind it is
   overwritten with a selector.
   */
  lemma AddOneRuns(t: Tables, m: Mem, p: int, ret: int, lhs: int, rhs: int, sg: int, exit: int)
    requires (sg == 1 || sg == -1) && Located(t, p, 3) && Ready(m, t)
    requires Operand(p, 3, lhs, 1) && Operand(p, 3, rhs, 1) && Result(t, p, 3, ret, 2)
    requires Code(m, p, AddOneBlocks(t, p, ret, lhs, rhs, sg, exit))
    ensures Completes(m, p, AddOneBlocks(t, p, ret, lhs, rhs, sg, exit), exit, ret, OneDigit(sg, Get(m, lhs), Get(m, rhs)))
  {
    hide Step, Visits, Straight, Code, SameCode, OnlyOwn, Scattered, Ready, Get, InTables, Placed, Bytes, Word, Completes,
      Prepared, OneDigit;
    var bs := AddOneBlocks(t, p, ret, lhs, rhs, sg, exit);
    var out := OneDigit(sg, Get(m, lhs), Get(m, rhs));
    TwoScatters(m, p, bs, 64, rhs, lhs, 1, Blk(p, 2));
    var s1 := Run(State(m, p), 2);
    OneEntry(t, m, s1.mem, p, ret, lhs, rhs, sg, exit);
    StoreTwo(s1, p, bs, 2, ret, exit, out);
    assert Run(s1, 0) == s1 && Run(s1, 1) == Step(s1);
    VisitsNone(s1, p, 2);
    VisitsNext(s1, p, 2, 0);
    Combine(m, p, bs, 2, s1, exit, ret, out);
  }

  /** So at width 1 the byte behind the result survives only if it was that selector already. */
  lemma AddOneSpills(t: Tables, m: Mem, p: int, ret: int, lhs: int, rhs: int, sg: int, exit: int)
    requires (sg == 1 || sg == -1) && Located(t, p, 3) && Ready(m, t)
    requires Operand(p, 3, lhs, 1) && Operand(p, 3, rhs, 1) && Result(t, p, 3, ret, 2)
    requires Code(m, p, AddOneBlocks(t, p, ret, lhs, rhs, sg, exit))
    ensures Get(Run(State(m, p), 3).mem, ret + 1) == Get(m, ret + 1)
            <==> Get(m, ret + 1) == if 0 <= Get(m, lhs) + sg * Get(m, rhs) < 256 then AddColumn(sg) else AddColumn(sg) + 2
  {
    hide Code, AddOneBlocks, SameCode, OnlyOwn, Run, Visits, Straight;
    AddOneRuns(t, m, p, ret, lhs, rhs, sg, exit);
    assert Bytes(Run(State(m, p), 3).mem, ret, 2)[1] == OneDigit(sg, Get(m, lhs), Get(m, rhs))[1];
  }

  /** The blocks of `Add` and `Sub` for every width. */
  function AddChain(t: Tables, p: int, w: nat, ret: int, lhs: int, rhs: int, sg: int, exit: int): (bs: seq<Block>)
    requires w >= 1
    ensures |bs| == 2 * w + 1
  {
    if w == 1 then AddOneBlocks(t, p, ret, lhs, rhs, sg, exit) else AddBlocks(t, p, w, ret, lhs, rhs, sg, exit)
  }

  /** The bytes that a chain writes: the result, and at width 1 the selector behind it. */
  function AddWrites(w: nat): nat {
    if w == 1 then 2 else w
  }

  /**
   `Add` and `Sub` store lhs + rhs and lhs - rhs modulo 256^w for every width that the emitters accept; what
   they write ends with the result from width 2 on, and one byte behind it at width 1.
   */
  lemma AddRuns(t: Tables, m: Mem, p: int, w: nat, ret: int, lhs: int, rhs: int, sg: int, exit: int)
    requires 1 <= w <= 0x4000 && (sg == 1 || sg == -1) && Located(t, p, 2 * w + 1) && Ready(m, t)
    requires Operand(p, 2 * w + 1, lhs, w) && Operand(p, 2 * w + 1, rhs, w) && Result(t, p, 2 * w + 1, ret, AddWrites(w))
    requires Code(m, p, AddChain(t, p, w, ret, lhs, rhs, sg, exit))
    ensures exists out ::
              && |out| == AddWrites(w) && Completes(m, p, AddChain(t, p, w, ret, lhs, rhs, sg, exit), exit, ret, out)
              && out[..w] == ToBytes(Value(Bytes(m, lhs, w)) + sg * Value(Bytes(m, rhs, w)), w)
  {
    hide Completes, Code, AddBlocks, AddOneBlocks, Located, Ready, Result, Operand, OneDigit;
    if w == 1 {
      var x, y := Get(m, lhs), Get(m, rhs);
      AddOneRuns(t, m, p, ret, lhs, rhs, sg, exit);
      OneByteNumbers(m, lhs, rhs, sg);
      assert OneDigit(sg, x, y)[..1] == ToBytes(Value(Bytes(m, lhs, 1)) + sg * Value(Bytes(m, rhs, 1)), 1);
    } else {
      AddWideRuns(t, m, p, w, ret, lhs, rhs, sg, exit);
      var out := ToBytes(Value(Bytes(m, lhs, w)) + sg * Value(Bytes(m, rhs, w)), w);
      assert out[..w] == out;
    }
  }

  lemma OneByteNumbers(m: Mem, lhs: int, rhs: int, sg: int)
    requires sg == 1 || sg == -1
    ensures ToBytes(Value(Bytes(m, lhs, 1)) + sg * Value(Bytes(m, rhs, 1)), 1) == [(Get(m, lhs) + sg * Get(m, rhs)) % 256]
  {
    OneByteValue(Bytes(m, lhs, 1));
    OneByteValue(Bytes(m, rhs, 1));
  }

  lemma OneByteValue(s: seq<byte>)
    requires |s| == 1
    ensures Value(s) == s[0]
  {
    assert s[1..] == [];
  }

  // ---------------------------------------------------------------------------------------------
  // Inc

  function IncBlocks(t: Tables, p: int, w: nat, ret: int, inp: int, exit: int): (bs: seq<Block>)
    requires w >= 1
    ensures |bs| == 2 * w
    ensures bs[0] == ScatterBlock(SrcAt(p, 1, 1), inp, w, 64, Blk(p, 1))
    ensures bs[1..] == RippleTail(p, 1, w, ret, t.super + SUPER_INC + 2, t.super + SUPER_INC + 2, false, exit)
  {
    [ScatterBlock(SrcAt(p, 1, 1), inp, w, 64, Blk(p, 1))]
    + RippleTail(p, 1, w, ret, t.super + SUPER_INC + 2, t.super + SUPER_INC + 2, false, exit)
  }

  function Zeros(w: nat): (z: seq<byte>)
    ensures |z| == w && forall k :: 0 <= k < w ==> z[k] == 0
  {
    seq<byte>(w, _ => 0)
  }

  lemma {:induction false} ZerosValue(w: nat)
    ensures Value(Zeros(w)) == 0
  {
    if w != 0 {
      ZerosValue(w - 1);
      assert Zeros(w)[1..] == Zeros(w - 1);
    }
  }

  function IncRows(t: Tables, l: seq<byte>): (rows: seq<int>)
    ensures |rows| == |l| && forall k :: 0 <= k < |l| ==> rows[k] == SuperRow(t, l[k])
  {
    seq(|l|, k requires 0 <= k < |l| => SuperRow(t, l[k]))
  }

  /** The row a SUPER lookup reads after its SRC byte 1 has been filled in. */
  lemma SuperRowOf(t: Tables, m: Mem, p: int, bs: seq<Block>, k: int)
    requires Placed(t) && Code(m, p, bs) && 0 <= k < |bs| && bs[k].src == t.super + 2 && !bs[k].open2
    ensures RowOf(m, p, k) == SuperRow(t, Get(m, SrcAt(p, k, 1)))
    ensures !bs[k].open0 ==> Get(m, SrcAt(p, k, 0)) == 2
  {
    hide ByteOf, Get;
    assert Matches(m, Blk(p, k), bs[k]);
    SuperBytes(t.super);
  }

  lemma SuperBytes(base: int)
    requires 0 <= base <= 0xFFFF_0000 && base % 0x1_0000 == 0
    ensures 0x1_0000 * ByteOf(base + 2, 2) + 0x100_0000 * ByteOf(base + 2, 3) == base && ByteOf(base + 2, 0) == 2
  {
    var q := base / 0x1_0000;
    assert base == 0x1_0000 * q;
    assert (base + 2) / 0x1_0000 == q;
    assert (base + 2) / 0x100_0000 == q / 0x100;
  }

  lemma IncEntryAt(m: Mem, t: Tables, i: byte, c: int)
    requires Ready(m, t) && 0 <= c <= 1
    ensures RippleEntry(m, SuperRow(t, i), SUPER_INC, 1, i, 0, c)
  {
    hide RippleEntry;
  }

  lemma IncSource(t: Tables, m: Mem, m1: Mem, p: int, w: nat, ret: int, inp: int, exit: int, l: seq<byte>, k: nat)
    requires 1 <= w && k < w && Located(t, p, 2 * w) && Ready(m, t) && Result(t, p, 2 * w, ret, w)
    requires var bs := IncBlocks(t, p, w, ret, inp, exit); Code(m1, p, bs) && Prepared(m, m1, p, bs)
    requires Scattered(m, m1, p, 1, 64, 1, inp, w) && l == Bytes(m, inp, w)
    ensures CarryAt(m1, p, 2 * w, 1, w, ret, IncRows(t, l), Selectors(SUPER_INC, 1, l, Zeros(w), 1), Ripple(1, l, Zeros(w), 1), k)
    ensures k == 0 ==> Get(m1, SrcAt(p, 1, 0)) == Selectors(SUPER_INC, 1, l, Zeros(w), 1)[0]
  {
    hide Code, Prepared, Ready, Placed, Word, RowOf, Ripple, RippleTail, IncBlocks, Get, InTables, Scattered, Zeros,
      Selectors, IncRows, Bytes, Digit, CarryOut, SuperRow;
    var bs := IncBlocks(t, p, w, ret, inp, exit);
    var c := Carry(1, l, Zeros(w), 1, k);
    IncLookup(t, p, w, ret, inp, exit, k);
    SuperRowOf(t, m1, p, bs, 1 + 2 * k);
    ScatteredAt(m, m1, p, 1, 64, 1, inp, w, k);
    var a := SuperRow(t, l[k]) + 2 * c;
    SuperClear(t, p, |bs|, ret, w, l[k], 2 * c);
    SuperClear(t, p, |bs|, ret, w, l[k], 2 * c + 1);
    IncEntryAt(m, t, l[k], c);
    SourceStays(m, m1, p, bs, a);
    SourceStays(m, m1, p, bs, a + 1);
  }

  lemma IncLookup(t: Tables, p: int, w: nat, ret: int, inp: int, exit: int, k: nat)
    requires 1 <= w && k < w
    ensures IncBlocks(t, p, w, ret, inp, exit)[1 + 2 * k] == RippleLookup(p, 1, w, ret, t.super + 2, t.super + 2, false, exit, k)
  {
    hide IncBlocks, RippleTail;
    var bs := IncBlocks(t, p, w, ret, inp, exit);
    assert bs[1 + 2 * k] == bs[1..][2 * k];
    assert (2 * k) % 2 == 0 && (2 * k) / 2 == k;
  }

  lemma SuperClear(t: Tables, p: int, n: int, ret: int, w: int, lo: byte, col: int)
    requires Located(t, p, n) && Result(t, p, n, ret, w) && 0 <= col < 0x100
    ensures Clear(p, n, ret, w, SuperRow(t, lo) + col)
  {
    hide Placed;
    assert InTables(t, SuperRow(t, lo) + col);
  }

  lemma IncCarries(t: Tables, m: Mem, m1: Mem, p: int, w: nat, ret: int, inp: int, exit: int, l: seq<byte>)
    requires 1 <= w && Located(t, p, 2 * w) && Ready(m, t) && Result(t, p, 2 * w, ret, w)
    requires var bs := IncBlocks(t, p, w, ret, inp, exit); Code(m1, p, bs) && Prepared(m, m1, p, bs)
    requires Scattered(m, m1, p, 1, 64, 1, inp, w) && l == Bytes(m, inp, w)
    ensures Carries(m1, p, 2 * w, 1, w, ret, IncRows(t, l), Selectors(SUPER_INC, 1, l, Zeros(w), 1), Ripple(1, l, Zeros(w), 1))
  {
    hide Code, Prepared, Ready, Located, Result, Scattered, RowOf, Ripple, IncBlocks, Get, Clear, SuperRow, Carry, IncRows,
      Selectors, Zeros, CarryAt, Carries, Bytes;
    var n := 2 * w;
    var rows, sels, outs := IncRows(t, l), Selectors(SUPER_INC, 1, l, Zeros(w), 1), Ripple(1, l, Zeros(w), 1);
    forall k | 0 <= k < w ensures CarryAt(m1, p, n, 1, w, ret, rows, sels, outs, k) {
      IncSource(t, m, m1, p, w, ret, inp, exit, l, k);
    }
    IncSource(t, m, m1, p, w, ret, inp, exit, l, 0);
    CarriesAre(m1, p, n, 1, w, ret, rows, sels, outs);
  }

  /** `Inc` stores inp + 1 modulo 256^w, also over its operand. */
  lemma IncRuns(t: Tables, m: Mem, p: int, w: nat, ret: int, inp: int, exit: int)
    requires 1 <= w <= 0x4000 && Located(t, p, 2 * w) && Ready(m, t)
    requires Operand(p, 2 * w, inp, w) && Result(t, p, 2 * w, ret, w)
    requires Code(m, p, IncBlocks(t, p, w, ret, inp, exit))
    ensures Completes(m, p, IncBlocks(t, p, w, ret, inp, exit), exit, ret, ToBytes(Value(Bytes(m, inp, w)) + 1, w))
  {
    hide Step, Run, Visits, Straight, Code, SameCode, OnlyOwn, Scattered, ScatterTarget, ChainShape, ChainDone, Carries,
      Ready, Get, InTables, Placed, IncBlocks, Bytes, Word, RippleTail, Ripple, Selectors, IncRows, ToBytes, Value, Zeros, Completes;
    var bs := IncBlocks(t, p, w, ret, inp, exit);
    var l := Bytes(m, inp, w);
    var out := Ripple(1, l, Zeros(w), 1);
    RippleShape(p, bs, 1, w, ret, t.super + SUPER_INC + 2, t.super + SUPER_INC + 2, false, exit);
    OneScatter(m, p, bs, 64, 1, inp, w);
    var s1 := Run(State(m, p), 1);
    IncCarries(t, m, s1.mem, p, w, ret, inp, exit, l);
    ChainRun(s1.mem, p, bs, 1, w, ret, exit, IncRows(t, l), Selectors(SUPER_INC, 1, l, Zeros(w), 1), out);
    ChainFinish(s1.mem, Run(s1, 2 * w - 1).mem, p, bs, ret, out);
    Combine(m, p, bs, 1, s1, exit, ret, out);
    RippleCorrect(1, l, Zeros(w), 1);
    ZerosValue(w);
  }
}
