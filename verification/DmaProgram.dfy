/**
 Whole DMA programs: any list of operations, emitted one after the other and closed by `End`,
 performs the integer operations in order.
 */
module DmaProgram {
  import opened Memory
  import opened DmaMachine
  import opened Chains
  import opened Walks
  import opened Scatter
  import opened Numbers
  import opened Tables
  import opened Arith
  import opened ArithBit
  import opened ArithInt
  import opened ArithCmp
  import opened ArithShift
  import opened ArithPick

  datatype Op =
    | Not(w: nat, ret: int, inp: int)
    | And(w: nat, ret: int, lhs: int, rhs: int)
    | Or(w: nat, ret: int, lhs: int, rhs: int)
    | Xor(w: nat, ret: int, lhs: int, rhs: int)
    | Inc(w: nat, ret: int, inp: int)
    | Add(w: nat, ret: int, lhs: int, rhs: int)
    | Sub(w: nat, ret: int, lhs: int, rhs: int)
    | Geu(w: nat, ret: int, lhs: int, rhs: int, flags: Flags)
    | Equ(w: nat, ret: int, lhs: int, rhs: int, flags: Flags)
    | Ges(w: nat, ret: int, lhs: int, rhs: int, flags: Flags)
    | Shift8(w: nat, ret: int, inp: int, shf: int, kind: Kind)
    | Zero(w: nat, ret: int)
    | SignFill(w: nat, ret: int, inp: int)
    | Pick(w: nat, ret: int, tmp: int, shf: int, tbl: int, left: bool)

  /** The widths the emitters accept; the carry chains of `Add` and `Sub` write at least two bytes. */
  predicate Legal(op: Op) {
    && 1 <= op.w <= 0x4000 && (op.Not? ==> op.w < 16) && (op.Add? || op.Sub? || op.Shift8? ==> op.w >= 2)
    && (op.Zero? || op.SignFill? || op.Pick? ==> op.w < 128)
  }

  function Size(op: Op): nat
    requires Legal(op)
  {
    match op
    case Not(w, _, _) => w + 1
    case And(w, _, _, _) => w + 2
    case Or(w, _, _, _) => w + 2
    case Xor(w, _, _, _) => w + 2
    case Inc(w, _, _) => 2 * w
    case Add(w, _, _, _) => 2 * w + 1
    case Sub(w, _, _, _) => 2 * w + 1
    case Geu(w, _, _, _, _) => w + 3
    case Equ(w, _, _, _, _) => w + 3
    case Ges(w, _, _, _, _) => w + 3
    case Shift8(w, _, _, _, _) => w + 4
    case Zero(_, _) => 1
    case SignFill(_, _, _) => 3
    case Pick(_, _, _, _, _, _) => 3
  }

  function Blocks(t: Tables, p: int, op: Op, exit: int): (bs: seq<Block>)
    requires Legal(op)
    ensures |bs| == Size(op)
  {
    match op
    case Not(w, ret, inp) => NotBlocks(t, p, w, ret, inp, exit)
    case And(w, ret, lhs, rhs) => BitBlocks(t, p, w, ret, lhs, rhs, AndOp, exit)
    case Or(w, ret, lhs, rhs) => BitBlocks(t, p, w, ret, lhs, rhs, OrOp, exit)
    case Xor(w, ret, lhs, rhs) => BitBlocks(t, p, w, ret, lhs, rhs, XorOp, exit)
    case Inc(w, ret, inp) => IncBlocks(t, p, w, ret, inp, exit)
    case Add(w, ret, lhs, rhs) => AddBlocks(t, p, w, ret, lhs, rhs, 1, exit)
    case Sub(w, ret, lhs, rhs) => AddBlocks(t, p, w, ret, lhs, rhs, -1, exit)
    case Geu(w, ret, lhs, rhs, f) => CmpBlocks(t, p, w, ret, lhs, rhs, GeuCmp, f, exit)
    case Equ(w, ret, lhs, rhs, f) => CmpBlocks(t, p, w, ret, lhs, rhs, EquCmp, f, exit)
    case Ges(w, ret, lhs, rhs, f) => CmpBlocks(t, p, w, ret, lhs, rhs, GesCmp, f, exit)
    case Shift8(w, ret, inp, shf, kind) => ShiftBlocks(t, p, w, ret, inp, shf, kind, exit)
    case Zero(w, ret) => ZeroBlocks(t, p, w, ret, exit)
    case SignFill(w, ret, inp) => SignFillBlocks(t, p, w, ret, inp, exit)
    case Pick(w, ret, tmp, shf, tbl, _) => PickBlocks(t, p, w, ret, tmp, shf, tbl, exit)
  }

  predicate IsCmp(op: Op) {
    op.Geu? || op.Equ? || op.Ges?
  }

  function Width(op: Op): nat {
    if IsCmp(op) then 1 else op.w
  }

  /** The unsigned number stored in `w` bytes at `a`. */
  function Num(m: Mem, a: int, w: nat): nat {
    Value(Bytes(m, a, w))
  }

  function Verdict(cmp: Cmp, f: Flags, m: Mem, w: nat, lhs: int, rhs: int): int
    requires w >= 1
  {
    CmpResult(cmp, f, Bytes(m, lhs, w), Bytes(m, rhs, w))
  }

  /** The integer an operation computes from the numbers in memory. */
  function Outcome(op: Op, m: Mem): int
    requires Legal(op)
  {
    match op
    case Not(w, _, inp) => Pow(256, w) - 1 - Num(m, inp, w)
    case And(w, _, lhs, rhs) => Bitwise(AndOp, Num(m, lhs, w), Num(m, rhs, w))
    case Or(w, _, lhs, rhs) => Bitwise(OrOp, Num(m, lhs, w), Num(m, rhs, w))
    case Xor(w, _, lhs, rhs) => Bitwise(XorOp, Num(m, lhs, w), Num(m, rhs, w))
    case Inc(w, _, inp) => Num(m, inp, w) + 1
    case Add(w, _, lhs, rhs) => Num(m, lhs, w) + Num(m, rhs, w)
    case Sub(w, _, lhs, rhs) => Num(m, lhs, w) - Num(m, rhs, w)
    case Geu(w, _, lhs, rhs, f) => Verdict(GeuCmp, f, m, w, lhs, rhs)
    case Equ(w, _, lhs, rhs, f) => Verdict(EquCmp, f, m, w, lhs, rhs)
    case Ges(w, _, lhs, rhs, f) => Verdict(GesCmp, f, m, w, lhs, rhs)
    case Shift8(w, _, inp, shf, kind) => ShiftValue(kind, Bytes(m, inp, w), Get(m, shf))
    case Zero(_, _) => 0
    case SignFill(w, _, inp) => if Get(m, inp + w - 1) >= 0x80 then -1 else 0
    case Pick(w, _, tmp, shf, _, left) => Num(m, tmp + SelectValue(Select(w, left), Get(m, shf)), w)
  }

  /** The operation done on memory directly: the outcome modulo 256^w, stored at the result. */
  function Perform(op: Op, m: Mem): Mem
    requires Legal(op)
  {
    PutBytes(m, op.ret, ToBytes(Outcome(op, m), Width(op)))
  }

  /** The memory an operation reads besides the tables: addresses and widths. */
  function Inputs(op: Op): seq<(int, int)> {
    match op
    case Not(w, _, inp) => [(inp, w)]
    case And(w, _, lhs, rhs) => [(lhs, w), (rhs, w)]
    case Or(w, _, lhs, rhs) => [(lhs, w), (rhs, w)]
    case Xor(w, _, lhs, rhs) => [(lhs, w), (rhs, w)]
    case Inc(w, _, inp) => [(inp, w)]
    case Add(w, _, lhs, rhs) => [(lhs, w), (rhs, w)]
    case Sub(w, _, lhs, rhs) => [(lhs, w), (rhs, w)]
    case Geu(w, _, lhs, rhs, _) => [(lhs, w), (rhs, w)]
    case Equ(w, _, lhs, rhs, _) => [(lhs, w), (rhs, w)]
    case Ges(w, _, lhs, rhs, _) => [(lhs, w), (rhs, w)]
    case Shift8(w, _, inp, shf, _) => [(inp, w), (shf, 1)]
    case Zero(_, _) => []
    case SignFill(w, _, inp) => [(inp, w)]
    case Pick(w, _, tmp, shf, _, _) => [(tmp, 2 * w), (shf, 1)]
  }

  /** A pick uses the table made for its width, and copies between disjoint buffers. */
  predicate PickFits(t: Tables, op: Op) {
    op.Pick? ==>
      && Page(op.tmp) && op.tbl in t.shift.selects && t.shift.selects[op.tbl] == Select(op.w, op.left)
      && (op.ret + op.w <= op.tmp || op.tmp + 2 * op.w <= op.ret)
  }

  /** Operands and result lie outside the code, and the result outside the tables. */
  ghost predicate Safe(t: Tables, p: int, n: int, op: Op) {
    && Result(t, p, n, op.ret, Width(op)) && PickFits(t, op)
    && forall i :: 0 <= i < |Inputs(op)| ==> Operand(p, n, Inputs(op)[i].0, Inputs(op)[i].1)
  }

  lemma BitOutcome(op: BitOp, l: seq<byte>, r: seq<byte>)
    requires |l| == |r|
    ensures BitwiseBytes(op, l, r) == ToBytes(Bitwise(op, Value(l), Value(r)), |l|)
  {
    hide Bitwise, BitwiseBytes, Value, ToBytes;
    BitwiseCorrect(op, l, r);
    ToBytesOfValue(BitwiseBytes(op, l, r));
  }

  lemma NotOutcome(l: seq<byte>)
    ensures NotBytes(l) == ToBytes(Pow(256, |l|) - 1 - Value(l), |l|)
  {
    hide NotBytes, Value, ToBytes, Pow;
    NotCorrect(l);
    ToBytesOfValue(NotBytes(l));
  }

  lemma {:induction false} RepeatOutcome(v: int, b: byte, w: nat)
    requires (v == 0 && b == 0) || (v == -1 && b == 0xff)
    ensures Repeat(b, w) == ToBytes(v, w)
  {
    if w != 0 {
      RepeatOutcome(v, b, w - 1);
      assert Repeat(b, w) == [b] + Repeat(b, w - 1);
    }
  }

  lemma CmpOutcome(v: byte)
    ensures [v] == ToBytes(v, 1)
  {
    assert ToBytes(v, 1) == [(v % 256) as byte] + ToBytes(v / 256, 0);
  }

  /** One operation, from any memory in which its chain is intact. */
  lemma OpRuns(t: Tables, m: Mem, p: int, op: Op, exit: int)
    requires Legal(op) && Located(t, p, Size(op)) && Ready(m, t) && Safe(t, p, Size(op), op)
    requires Code(m, p, Blocks(t, p, op, exit))
    ensures Completes(m, p, Blocks(t, p, op, exit), exit, op.ret, ToBytes(Outcome(op, m), Width(op)))
  {
    hide Located, Ready, Result, Operand, Code, Completes, NotBlocks, BitBlocks, IncBlocks, AddBlocks, CmpBlocks, ShiftBlocks, ZeroBlocks,
      SignFillBlocks, PickBlocks, Bitwise, BitwiseBytes, NotBytes, ToBytes, Value, Bytes, Pow, CmpResult, ShiftValue, Repeat, SelectValue, Get;
    assert |Inputs(op)| > 0 ==> Operand(p, Size(op), Inputs(op)[0].0, Inputs(op)[0].1);
    assert |Inputs(op)| > 1 ==> Operand(p, Size(op), Inputs(op)[1].0, Inputs(op)[1].1);
    match op
    case Not(w, ret, inp) =>
      NotRuns(t, m, p, w, ret, inp, exit);
      NotOutcome(Bytes(m, inp, w));
    case And(w, ret, lhs, rhs) =>
      BitRuns(t, m, p, w, ret, lhs, rhs, AndOp, exit);
      BitOutcome(AndOp, Bytes(m, lhs, w), Bytes(m, rhs, w));
    case Or(w, ret, lhs, rhs) =>
      BitRuns(t, m, p, w, ret, lhs, rhs, OrOp, exit);
      BitOutcome(OrOp, Bytes(m, lhs, w), Bytes(m, rhs, w));
    case Xor(w, ret, lhs, rhs) =>
      BitRuns(t, m, p, w, ret, lhs, rhs, XorOp, exit);
      BitOutcome(XorOp, Bytes(m, lhs, w), Bytes(m, rhs, w));
    case Inc(w, ret, inp) =>
      IncRuns(t, m, p, w, ret, inp, exit);
    case Add(w, ret, lhs, rhs) =>
      AddWideRuns(t, m, p, w, ret, lhs, rhs, 1, exit);
    case Sub(w, ret, lhs, rhs) =>
      AddWideRuns(t, m, p, w, ret, lhs, rhs, -1, exit);
    case Geu(w, ret, lhs, rhs, f) =>
      CmpRuns(t, m, p, w, ret, lhs, rhs, GeuCmp, f, exit);
      CmpOutcome(CmpResult(GeuCmp, f, Bytes(m, lhs, w), Bytes(m, rhs, w)));
    case Equ(w, ret, lhs, rhs, f) =>
      CmpRuns(t, m, p, w, ret, lhs, rhs, EquCmp, f, exit);
      CmpOutcome(CmpResult(EquCmp, f, Bytes(m, lhs, w), Bytes(m, rhs, w)));
    case Ges(w, ret, lhs, rhs, f) =>
      CmpRuns(t, m, p, w, ret, lhs, rhs, GesCmp, f, exit);
      CmpOutcome(CmpResult(GesCmp, f, Bytes(m, lhs, w), Bytes(m, rhs, w)));
    case Shift8(w, ret, inp, shf, kind) =>
      ShiftRuns(t, m, p, w, ret, inp, shf, kind, exit);
    case Zero(w, ret) =>
      ZeroRuns(t, m, p, w, ret, exit);
      RepeatOutcome(0, 0, w);
    case SignFill(w, ret, inp) =>
      SignFillRuns(t, m, p, w, ret, inp, exit);
      assert Bytes(m, inp, w)[w - 1] == Get(m, inp + (w - 1));
      RepeatOutcome(Outcome(op, m), SignByte(Bytes(m, inp, w)), w);
    case Pick(w, ret, tmp, shf, tbl, left) =>
      PickRuns(t, m, p, w, ret, tmp, shf, tbl, exit);
      ToBytesOfValue(Bytes(m, tmp + SelectValue(Select(w, left), Get(m, shf)), w));
  }

  // ---------------------------------------------------------------------------------------------
  // Programs

  ghost predicate AllLegal(ops: seq<Op>) {
    forall i :: 0 <= i < |ops| ==> Legal(ops[i])
  }

  function TotalSize(ops: seq<Op>): nat
    requires AllLegal(ops)
  {
    if ops == [] then 0 else Size(ops[0]) + TotalSize(ops[1..])
  }

  /** Where the last block of the first operation goes on: to the next operation, or nowhere. */
  function ExitOf(p: int, ops: seq<Op>): int
    requires ops != [] && Legal(ops[0])
  {
    if |ops| == 1 then 0 else Blk(p, Size(ops[0]))
  }

  /** The chains of all operations are in memory, one after the other. */
  ghost predicate ProgramAt(m: Mem, t: Tables, p: int, ops: seq<Op>)
    requires AllLegal(ops)
    decreases ops
  {
    ops != [] ==>
      && Code(m, p, Blocks(t, p, ops[0], ExitOf(p, ops)))
      && ProgramAt(m, t, Blk(p, Size(ops[0])), ops[1..])
  }

  function PerformAll(ops: seq<Op>, m: Mem): Mem
    requires AllLegal(ops)
  {
    if ops == [] then m else PerformAll(ops[1..], Perform(ops[0], m))
  }

  /** The code of the whole program occupies blocks [base, base + n), and no operation touches it or the tables. */
  ghost predicate AllSafe(t: Tables, base: int, n: int, ops: seq<Op>) {
    Located(t, base, n) && forall i :: 0 <= i < |ops| ==> Safe(t, base, n, ops[i])
  }

  ghost predicate SameData(m: Mem, m': Mem, base: int, n: int) {
    forall x :: !InCode(base, n, x) ==> Get(m', x) == Get(m, x)
  }

  /** Code only ever changes in the low three bytes of SRC fields. */
  ghost predicate SameButSrc(m: Mem, m': Mem, base: int, n: int) {
    forall x :: InCode(base, n, x) && !(4 <= (x - base) % 32 < 7) ==> Get(m', x) == Get(m, x)
  }

  lemma BytesAgree(m: Mem, m': Mem, base: int, n: int, a: int, w: nat)
    requires SameData(m, m', base, n) && Apart(base, n, a, w)
    ensures Bytes(m', a, w) == Bytes(m, a, w)
  {
    hide Get;
    var l, l' := Bytes(m, a, w), Bytes(m', a, w);
    forall i | 0 <= i < w ensures l'[i] == l[i] {
      assert !InCode(base, n, a + i);
    }
  }

  /** What an operation computes depends on its data only. */
  lemma PerformAgrees(t: Tables, op: Op, m: Mem, m': Mem, base: int, n: int)
    requires Legal(op) && SameData(m, m', base, n) && Safe(t, base, n, op)
    ensures Outcome(op, m') == Outcome(op, m)
    ensures SameData(Perform(op, m), Perform(op, m'), base, n)
  {
    hide Get, Bytes, Value, Bitwise, CmpResult, Pow, ToBytes, PutBytes, InTables, SelectValue, ShiftValue;
    if op.Pick? {
      BytesAgree(m, m', base, n, op.shf, 1) by { assert Operand(base, n, Inputs(op)[1].0, Inputs(op)[1].1); }
      assert Bytes(m', op.shf, 1)[0] == Get(m', op.shf) && Bytes(m, op.shf, 1)[0] == Get(m, op.shf);
      BytesAgree(m, m', base, n, op.tmp + SelectValue(Select(op.w, op.left), Get(m, op.shf)), op.w) by {
        assert Operand(base, n, Inputs(op)[0].0, Inputs(op)[0].1);
      }
    } else {
      forall i | 0 <= i < |Inputs(op)| ensures Bytes(m', Inputs(op)[i].0, Inputs(op)[i].1) == Bytes(m, Inputs(op)[i].0, Inputs(op)[i].1) {
        assert Operand(base, n, Inputs(op)[i].0, Inputs(op)[i].1);
        BytesAgree(m, m', base, n, Inputs(op)[i].0, Inputs(op)[i].1);
      }
      InputsAgree(op, m, m');
    }
  }

  lemma InputsAgree(op: Op, m: Mem, m': Mem)
    requires Legal(op) && !op.Pick?
    requires forall i :: 0 <= i < |Inputs(op)| ==>
               (Inputs(op)[i].1 >= 0 && Bytes(m', Inputs(op)[i].0, Inputs(op)[i].1) == Bytes(m, Inputs(op)[i].0, Inputs(op)[i].1))
    ensures Outcome(op, m') == Outcome(op, m)
  {
    hide Get, Bytes, Value, Bitwise, CmpResult, Pow, SelectValue, ShiftValue;
    assert |Inputs(op)| > 0 ==> Bytes(m', Inputs(op)[0].0, Inputs(op)[0].1) == Bytes(m, Inputs(op)[0].0, Inputs(op)[0].1);
    assert |Inputs(op)| > 1 ==> Bytes(m', Inputs(op)[1].0, Inputs(op)[1].1) == Bytes(m, Inputs(op)[1].0, Inputs(op)[1].1);
    if op.SignFill? {
      assert Bytes(m', op.inp, op.w)[op.w - 1] == Get(m', op.inp + (op.w - 1));
      assert Bytes(m, op.inp, op.w)[op.w - 1] == Get(m, op.inp + (op.w - 1));
    } else if op.Shift8? {
      assert Bytes(m', op.shf, 1)[0] == Get(m', op.shf + 0) && Bytes(m, op.shf, 1)[0] == Get(m, op.shf + 0);
    }
  }

  lemma {:induction false} PerformAllAgrees(t: Tables, ops: seq<Op>, m: Mem, m': Mem, base: int, n: int)
    requires AllLegal(ops) && SameData(m, m', base, n) && AllSafe(t, base, n, ops)
    ensures SameData(PerformAll(ops, m), PerformAll(ops, m'), base, n)
    decreases ops
  {
    hide SameData, Perform, Safe, Located, Legal;
    if ops != [] {
      PerformAgrees(t, ops[0], m, m', base, n);
      PerformAllAgrees(t, ops[1..], Perform(ops[0], m), Perform(ops[0], m'), base, n);
    }
  }

  /** A chain inside a larger program. */
  lemma SubLocated(t: Tables, base: int, n: nat, p: int, k: nat, op: Op)
    requires Located(t, base, n) && Safe(t, base, n, op)
    requires base <= p && p + 32 * k <= base + 32 * n && (p - base) % 32 == 0
    ensures Located(t, p, k) && Safe(t, p, k, op)
  {
    hide Placed, InTables, Apart, Inputs, PickFits;
    forall x | InCode(p, k, x) ensures !InTables(t, x) {
      assert InCode(base, n, x);
    }
    SubApart(base, n, p, k, op.ret, Width(op));
    forall i | 0 <= i < |Inputs(op)| ensures Operand(p, k, Inputs(op)[i].0, Inputs(op)[i].1) {
      assert Operand(base, n, Inputs(op)[i].0, Inputs(op)[i].1);
      SubApart(base, n, p, k, Inputs(op)[i].0, Inputs(op)[i].1);
    }
  }

  lemma SubApart(base: int, n: nat, p: int, k: nat, a: int, w: int)
    requires base <= p && p + 32 * k <= base + 32 * n && Apart(base, n, a, w)
    ensures Apart(p, k, a, w)
  {
  }

  /** A completed operation, seen from the whole program. */
  lemma OpEffect(t: Tables, m: Mem, m': Mem, op: Op, base: int, n: nat, p: int, k: nat)
    requires Legal(op) && Located(t, base, n) && Safe(t, base, n, op) && Ready(m, t)
    requires base <= p && p + 32 * k <= base + 32 * n && (p - base) % 32 == 0
    requires Bytes(m', op.ret, Width(op)) == ToBytes(Outcome(op, m), Width(op))
    requires OnlyOwn(m, m', p, k, op.ret, Width(op))
    ensures SameData(Perform(op, m), m', base, n) && SameButSrc(m, m', base, n) && Ready(m', t)
    ensures forall x :: InCode(base, n, x) && !InCode(p, k, x) ==> Get(m', x) == Get(m, x)
  {
    hide *;
    OpData(t, m, m', op, base, n, p, k);
    OpCode(t, m, m', op, base, n, p, k);
    OpTables(t, m, m', op, base, n, p, k);
    LocatedIsPlaced(t, base, n);
    ReadyFrame(m, m', t);
  }

  lemma OpData(t: Tables, m: Mem, m': Mem, op: Op, base: int, n: nat, p: int, k: nat)
    requires Legal(op) && base <= p && p + 32 * k <= base + 32 * n
    requires Bytes(m', op.ret, Width(op)) == ToBytes(Outcome(op, m), Width(op))
    requires OnlyOwn(m, m', p, k, op.ret, Width(op))
    ensures SameData(Perform(op, m), m', base, n)
  {
    hide Get, Outcome, ToBytes, Bytes, PutBytes, InCode, OnlyOwn, Legal, Width;
    forall x | !InCode(base, n, x)
      ensures Get(m', x) == Get(Perform(op, m), x)
    {
      DataByte(m, m', ToBytes(Outcome(op, m), Width(op)), op.ret, base, n, p, k, x);
    }
  }

  lemma DataByte(m: Mem, m': Mem, out: seq<byte>, ret: int, base: int, n: nat, p: int, k: nat, x: int)
    requires base <= p && p + 32 * k <= base + 32 * n && !InCode(base, n, x)
    requires Bytes(m', ret, |out|) == out && OnlyOwn(m, m', p, k, ret, |out|)
    ensures Get(m', x) == Get(PutBytes(m, ret, out), x)
  {
    hide Get, Bytes, PutBytes;
    if ret <= x < ret + |out| {
      assert Bytes(m', ret, |out|)[x - ret] == out[x - ret];
    } else {
      assert !InCode(p, k, x);
    }
  }

  lemma OpCode(t: Tables, m: Mem, m': Mem, op: Op, base: int, n: nat, p: int, k: nat)
    requires Legal(op) && base <= p && p + 32 * k <= base + 32 * n && (p - base) % 32 == 0
    requires OnlyOwn(m, m', p, k, op.ret, Width(op)) && Safe(t, base, n, op)
    ensures SameButSrc(m, m', base, n)
    ensures forall x :: InCode(base, n, x) && !InCode(p, k, x) ==> Get(m', x) == Get(m, x)
  {
    hide Get, InTables;
    assert Apart(base, n, op.ret, Width(op));
    forall x | InCode(base, n, x) && !(4 <= (x - base) % 32 < 7) ensures Get(m', x) == Get(m, x) {
      assert (x - p) % 32 == (x - base) % 32 by { SamePhase(base, p, x); }
    }
  }

  lemma SamePhase(base: int, p: int, x: int)
    requires (p - base) % 32 == 0
    ensures (x - p) % 32 == (x - base) % 32
  {
    var q := (p - base) / 32;
    assert x - base == x - p + 32 * q;
  }

  lemma OpTables(t: Tables, m: Mem, m': Mem, op: Op, base: int, n: nat, p: int, k: nat)
    requires base <= p && p + 32 * k <= base + 32 * n
    requires OnlyOwn(m, m', p, k, op.ret, Width(op)) && Safe(t, base, n, op) && Located(t, base, n)
    ensures SameTables(m, m', t)
  {
    hide Get, InTables, Placed;
    forall x | InTables(t, x) ensures Get(m', x) == Get(m, x) {
      assert !InCode(base, n, x);
    }
  }

  lemma {:induction false} ProgramFrame(m: Mem, m': Mem, t: Tables, p: int, ops: seq<Op>)
    requires AllLegal(ops) && ProgramAt(m, t, p, ops)
    requires forall x :: InCode(p, TotalSize(ops), x) ==> Get(m', x) == Get(m, x)
    ensures ProgramAt(m', t, p, ops)
    decreases ops
  {
    hide Code, Blocks, Size, Get, Legal;
    if ops != [] {
      var bs := Blocks(t, p, ops[0], ExitOf(p, ops));
      assert SameCode(m, m', p, bs);
      CodeFrame(m, m', p, bs);
      ProgramFrame(m, m', t, Blk(p, Size(ops[0])), ops[1..]);
    }
  }

  lemma {:induction false} StraightShift(p: int, k: int, a: int, b: int)
    ensures Straight(Blk(p, k), a, b) == Straight(p, k + a, k + b)
    decreases b - a
  {
    hide Blk, Straight;
    if a < b {
      var c := b - 1;
      StraightShift(p, k, a, c);
      BlkShift(p, k, c);
      StraightLast(Blk(p, k), a, c);
      StraightLast(p, k + a, k + c);
    } else {
      StraightNone(Blk(p, k), a, b);
      StraightNone(p, k + a, k + b);
    }
  }

  lemma StraightLast(p: int, a: int, c: int)
    requires a <= c
    ensures Straight(p, a, c + 1) == Straight(p, a, c) + multiset{Blk(p, c)}
  {
  }

  lemma StraightNone(p: int, a: int, b: int)
    requires b <= a
    ensures Straight(p, a, b) == multiset{}
  {
  }

  lemma BlkShift(p: int, k: int, i: int)
    ensures Blk(Blk(p, k), i) == Blk(p, k + i)
  {
  }

  /** What a run of the operations `ops`, whose code starts at `p`, is proved to do. */
  ghost predicate Performed(m: Mem, t: Tables, base: int, n: int, p: int, ops: seq<Op>)
    requires AllLegal(ops)
  {
    var k := TotalSize(ops);
    var s := Run(State(m, p), k);
    && s.cb == 0
    && Visits(State(m, p), k) == Straight(p, 0, k)
    && ProgramAt(s.mem, t, p, ops) && Ready(s.mem, t)
    && SameData(PerformAll(ops, m), s.mem, base, n)
    && SameButSrc(m, s.mem, base, n)
    && forall x :: InCode(base, n, x) && x < p ==> Get(s.mem, x) == Get(m, x)
  }

  /**
   Running a program halts after visiting each of its blocks exactly once, performs the integer
   operations in order on all memory outside the code, and leaves a program that does so again.
   */
  lemma {:induction false} ProgramRuns(t: Tables, m: Mem, base: int, n: nat, p: int, ops: seq<Op>)
    requires ops != [] && AllLegal(ops) && ProgramAt(m, t, p, ops) && Ready(m, t) && AllSafe(t, base, n, ops)
    requires base <= p && p + 32 * TotalSize(ops) == base + 32 * n && (p - base) % 32 == 0
    ensures Performed(m, t, base, n, p, ops)
    decreases ops
  {
    hide Code, SameCode, Completes, OnlyOwn, Run, Visits, Straight, Step, Ready, Located, Safe, Perform, Outcome, SameData, SameButSrc, Get,
      Blocks, Size, Legal, ToBytes, Bytes;
    var op, rest := ops[0], ops[1..];
    var k := Size(op);
    var q := Blk(p, k);
    var bs := Blocks(t, p, op, ExitOf(p, ops));
    SubLocated(t, base, n, p, k, op);
    OpRuns(t, m, p, op, ExitOf(p, ops));
    var s1 := Run(State(m, p), k);
    CompletesMeans(m, p, bs, ExitOf(p, ops), op.ret, ToBytes(Outcome(op, m), Width(op)));
    OpEffect(t, m, s1.mem, op, base, n, p, k);
    if rest == [] {
      assert TotalSize(ops) == k + TotalSize(rest) == k;
      CodeFrame(m, s1.mem, p, bs);
      assert PerformAll(ops, m) == PerformAll(rest, Perform(op, m)) == Perform(op, m);
      assert ProgramAt(s1.mem, t, q, rest);
      assert ProgramAt(s1.mem, t, p, ops);
    } else {
      ProgramFrame(m, s1.mem, t, q, rest);
      ProgramRuns(t, s1.mem, base, n, q, rest);
      Chain(t, m, s1, base, n, p, ops);
    }
  }

  lemma CompletesMeans(m: Mem, p: int, bs: seq<Block>, exit: int, ret: int, out: seq<byte>)
    requires Completes(m, p, bs, exit, ret, out)
    ensures var s := Run(State(m, p), |bs|);
            && s.cb == exit && Visits(State(m, p), |bs|) == Straight(p, 0, |bs|)
            && Bytes(s.mem, ret, |out|) == out
            && SameCode(m, s.mem, p, bs) && OnlyOwn(m, s.mem, p, |bs|, ret, |out|)
  {
  }

  /** First operation, then the rest. */
  lemma Chain(t: Tables, m: Mem, s1: State, base: int, n: nat, p: int, ops: seq<Op>)
    requires |ops| >= 2 && AllLegal(ops) && AllSafe(t, base, n, ops) && ProgramAt(m, t, p, ops)
    requires base <= p && p + 32 * TotalSize(ops) == base + 32 * n && (p - base) % 32 == 0
    requires var k := Size(ops[0]);
             && Run(State(m, p), k) == s1 && s1.cb == Blk(p, k) && Visits(State(m, p), k) == Straight(p, 0, k)
             && SameCode(m, s1.mem, p, Blocks(t, p, ops[0], ExitOf(p, ops)))
             && SameData(Perform(ops[0], m), s1.mem, base, n) && SameButSrc(m, s1.mem, base, n)
             && (forall x :: InCode(base, n, x) && !InCode(p, k, x) ==> Get(s1.mem, x) == Get(m, x))
             && Performed(s1.mem, t, base, n, Blk(p, k), ops[1..])
    ensures Performed(m, t, base, n, p, ops)
  {
    hide Code, SameCode, Completes, OnlyOwn, Run, Visits, Straight, Step, Ready, Located, Safe, Perform, Outcome, SameData, SameButSrc, Get,
      Blocks, Size, Legal, ToBytes, Bytes;
    var k, rest := Size(ops[0]), ops[1..];
    var s2 := Run(s1, TotalSize(rest));
    RunCompose(State(m, p), k, TotalSize(rest));
    StraightShift(p, k, 0, TotalSize(rest));
    StraightJoin(p, 0, k, k + TotalSize(rest));
    CodeFrame(m, s1.mem, p, Blocks(t, p, ops[0], ExitOf(p, ops)));
    SameBelow(s1.mem, s2.mem, p, Blocks(t, p, ops[0], ExitOf(p, ops)));
    CodeFrame(s1.mem, s2.mem, p, Blocks(t, p, ops[0], ExitOf(p, ops)));
    PerformAllAgrees(t, rest, Perform(ops[0], m), s1.mem, base, n);
    SameDataTrans(PerformAll(ops, m), PerformAll(rest, s1.mem), s2.mem, base, n);
    SameButSrcTrans(m, s1.mem, s2.mem, base, n);
  }

  lemma SameBelow(m: Mem, m': Mem, p: int, bs: seq<Block>)
    requires forall x :: InCode(p, |bs|, x) ==> Get(m', x) == Get(m, x)
    ensures SameCode(m, m', p, bs)
  {
  }

  lemma SameDataTrans(m: Mem, m1: Mem, m2: Mem, base: int, n: int)
    requires SameData(m, m1, base, n) && SameData(m1, m2, base, n)
    ensures SameData(m, m2, base, n)
  {
  }

  lemma SameButSrcTrans(m: Mem, m1: Mem, m2: Mem, base: int, n: int)
    requires SameButSrc(m, m1, base, n) && SameButSrc(m1, m2, base, n)
    ensures SameButSrc(m, m2, base, n)
  {
  }

  /** The same program runs again on fresh data: only the code and the tables must have been left alone. */
  lemma ProgramReruns(t: Tables, m: Mem, m': Mem, base: int, ops: seq<Op>)
    requires ops != [] && AllLegal(ops) && AllSafe(t, base, TotalSize(ops), ops)
    requires ProgramAt(m, t, base, ops) && Ready(m, t)
    requires var s := Run(State(m, base), TotalSize(ops));
             && (forall x :: InCode(base, TotalSize(ops), x) ==> Get(m', x) == Get(s.mem, x))
             && SameTables(s.mem, m', t)
    ensures Performed(m, t, base, TotalSize(ops), base, ops)
    ensures Performed(m', t, base, TotalSize(ops), base, ops)
  {
    hide Run, Code, Ready, Safe, Located, Get, Size, Legal, SameTables, SameData, SameButSrc, Visits, Straight;
    var s := Run(State(m, base), TotalSize(ops));
    ProgramRuns(t, m, base, TotalSize(ops), base, ops);
    ProgramFrame(s.mem, m', t, base, ops);
    LocatedIsPlaced(t, base, TotalSize(ops));
    ReadyFrame(s.mem, m', t);
    ProgramRuns(t, m', base, TotalSize(ops), base, ops);
  }
}
