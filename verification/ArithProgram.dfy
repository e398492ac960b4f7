/**
 Programs over the whole arithmetic library: the single chains, `Neg`, and the shifts, which allocate
 tables and buffers while they are emitted.
 */
module ArithProgram {
  import opened Memory
  import opened DmaMachine
  import opened Chains
  import opened Walks
  import opened Scatter
  import opened Numbers
  import opened Tables
  import opened Arith
  import opened ArithShift
  import opened DmaProgram
  import opened DmaCompound
  import opened Emit
  import opened EmitProgram
  import opened Arenas

  /** The calls a client makes. */
  datatype Instr =
    | Basic(op: Op)
    | Neg(w: nat, ret: int, inp: int)
    | Shift(kind: Kind, w: nat, ret: int, inp: int, shf: int)

  predicate LegalInstr(i: Instr) {
    match i
    case Basic(op) => Legal(op) && !op.Zero? && !op.SignFill? && !op.Pick?
    case Neg(w, _, _) => 1 <= w < 16 && w != 3
    case Shift(_, w, _, _, _) => 2 <= w < 128
  }

  ghost predicate AllLegalInstrs(prog: seq<Instr>) {
    forall k :: 0 <= k < |prog| ==> LegalInstr(prog[k])
  }

  /** What a call does to memory, as its documentation has it. */
  function Effect(i: Instr, m: Mem): Mem
    requires LegalInstr(i)
  {
    match i
    case Basic(op) => Perform(op, m)
    case Neg(w, ret, inp) => PutBytes(m, ret, ToBytes(0 - Num(m, inp, w), w))
    case Shift(kind, w, ret, inp, shf) => PutBytes(m, ret, ToBytes(Shifted(kind, Bytes(m, inp, w), Get(m, shf) % (8 * w)), w))
  }

  function Shifted(kind: Kind, s: seq<byte>, k: nat): int
    requires s != []
  {
    match kind
    case Sll => Value(s) * Pow(2, k)
    case Srl => Value(s) / Pow(2, k)
    case Sra => SignedValue(s) / Pow(2, k)
  }

  function EffectAll(prog: seq<Instr>, m: Mem): Mem
    requires AllLegalInstrs(prog)
  {
    if prog == [] then m else EffectAll(prog[1..], Effect(prog[0], m))
  }

  // ---------------------------------------------------------------------------------------------
  // Lowering

  /** The chains a call emits when the arena stands at `q`. */
  function Lower(i: Instr, q: int): (ops: seq<Op>)
    requires LegalInstr(i)
    ensures ops != [] && AllLegal(ops)
  {
    match i
    case Basic(op) => [op]
    case Neg(w, ret, inp) => NegProgram(w, ret, inp, NegBuffer(w, q))
    case Shift(kind, w, ret, inp, shf) =>
      ShiftProgramLegal(kind, w, ret, inp, shf, ShiftBuffer(q), ShiftTable(q));
      ShiftProgram(kind, w, ret, inp, shf, ShiftBuffer(q), ShiftTable(q))
  }

  /** Where the arena stands afterwards. */
  function After(i: Instr, q: int): (r: int)
    requires LegalInstr(i)
    ensures q <= r
  {
    match i
    case Basic(_) => q
    case Neg(w, _, _) => NegBuffer(w, q) + w
    case Shift(_, w, _, _, _) => ShiftBuffer(q) + 2 * w
  }

  /** The table a call makes. */
  function Made(i: Instr): Select
    requires i.Shift?
  {
    Select(i.w, i.kind.Sll?)
  }

  function TablesWith(i: Instr, t: Tables, q: int): Tables {
    if i.Shift? then WithSelect(t, ShiftTable(q), Made(i)) else t
  }

  function MemoryWith(i: Instr, m: Mem, q: int): Mem
    requires LegalInstr(i)
  {
    if i.Shift? then FillSelect(m, ShiftTable(q), Made(i), 256) else m
  }

  function LowerAll(prog: seq<Instr>, q: int): (ops: seq<Op>)
    requires AllLegalInstrs(prog)
    ensures AllLegal(ops) && (prog != [] ==> ops != [])
  {
    if prog == [] then [] else Lower(prog[0], q) + LowerAll(prog[1..], After(prog[0], q))
  }

  function AfterAll(prog: seq<Instr>, q: int): (r: int)
    requires AllLegalInstrs(prog)
    ensures q <= r
    decreases |prog|
  {
    if prog == [] then q else AfterAll(prog[1..], After(prog[0], q))
  }

  function TablesAfter(prog: seq<Instr>, t: Tables, q: int): Tables
    requires AllLegalInstrs(prog)
    decreases |prog|
  {
    if prog == [] then t else TablesAfter(prog[1..], TablesWith(prog[0], t, q), After(prog[0], q))
  }

  function MemoryAfter(prog: seq<Instr>, m: Mem, q: int): Mem
    requires AllLegalInstrs(prog)
    decreases |prog|
  {
    if prog == [] then m else MemoryAfter(prog[1..], MemoryWith(prog[0], m, q), After(prog[0], q))
  }

  // ---------------------------------------------------------------------------------------------
  // Lowered calls compute what they should

  /** The data a client sees: neither code nor arena. */
  predicate Visible(base: int, n: int, lo: int, hi: int, x: int) {
    !InCode(base, n, x) && !(lo <= x < hi)
  }

  ghost predicate SameVisible(m: Mem, m': Mem, base: int, n: int, lo: int, hi: int) {
    forall x :: Visible(base, n, lo, hi, x) ==> Get(m', x) == Get(m, x)
  }

  function Reads(i: Instr): seq<(int, int)> {
    match i
    case Basic(op) => Inputs(op)
    case Neg(w, _, inp) => [(inp, w)]
    case Shift(_, w, _, inp, shf) => [(inp, w), (shf, 1)]
  }

  function Ret(i: Instr): int {
    if i.Basic? then i.op.ret else i.ret
  }

  function RetWidth(i: Instr): nat {
    if i.Basic? then Width(i.op) else i.w
  }

  predicate ClientRange(base: int, n: int, lo: int, hi: int, a: int, w: int) {
    Operand(base, n, a, w) && Disjoint(a, w, lo, hi - lo)
  }

  /** Clients keep their operands out of the code and the arena, and their results out of the tables. */
  ghost predicate InstrSafe(t: Tables, base: int, n: int, lo: int, hi: int, i: Instr) {
    && ClientRange(base, n, lo, hi, Ret(i), RetWidth(i))
    && (forall x :: Ret(i) <= x < Ret(i) + RetWidth(i) ==> !InTables(t, x))
    && (forall k :: 0 <= k < |Reads(i)| ==> ClientRange(base, n, lo, hi, Reads(i)[k].0, Reads(i)[k].1))
  }

  lemma VisibleBytes(m: Mem, m': Mem, base: int, n: int, lo: int, hi: int, a: int, w: nat)
    requires SameVisible(m, m', base, n, lo, hi) && ClientRange(base, n, lo, hi, a, w) && lo <= hi
    ensures Bytes(m', a, w) == Bytes(m, a, w)
  {
    hide Get, Bytes;
    var x, y := Bytes(m', a, w), Bytes(m, a, w);
    forall i | 0 <= i < w ensures x[i] == y[i] {
      assert Visible(base, n, lo, hi, a + i);
    }
  }

  /** All inputs of a call read the same in both memories. */
  lemma ReadsAgree(t: Tables, i: Instr, m: Mem, m': Mem, base: int, n: int, lo: int, hi: int)
    requires LegalInstr(i) && InstrSafe(t, base, n, lo, hi, i) && SameVisible(m, m', base, n, lo, hi) && lo <= hi
    ensures forall k :: 0 <= k < |Reads(i)| ==>
              (Reads(i)[k].1 >= 0 && Bytes(m', Reads(i)[k].0, Reads(i)[k].1) == Bytes(m, Reads(i)[k].0, Reads(i)[k].1))
  {
    hide SameVisible, Bytes, InTables;
    forall k | 0 <= k < |Reads(i)|
      ensures Reads(i)[k].1 >= 0 && Bytes(m', Reads(i)[k].0, Reads(i)[k].1) == Bytes(m, Reads(i)[k].0, Reads(i)[k].1)
    {
      assert ClientRange(base, n, lo, hi, Reads(i)[k].0, Reads(i)[k].1);
      VisibleBytes(m, m', base, n, lo, hi, Reads(i)[k].0, Reads(i)[k].1);
    }
  }

  /** The memory `r` is `m` but for the bytes `out` at `ret` and scratch space in the arena. */
  ghost predicate Computed(m: Mem, r: Mem, lo: int, hi: int, ret: int, out: seq<byte>) {
    && Bytes(r, ret, |out|) == out
    && forall x :: !(lo <= x < hi) && !(ret <= x < ret + |out|) ==> Get(r, x) == Get(m, x)
  }

  lemma ComputedVisible(md: Mem, mc: Mem, r: Mem, base: int, n: int, lo: int, hi: int, q: int, q': int, ret: int, out: seq<byte>)
    requires Computed(mc, r, q, q', ret, out) && SameVisible(md, mc, base, n, lo, hi) && lo <= q <= q' <= hi
    requires ClientRange(base, n, lo, hi, ret, |out|)
    ensures SameVisible(PutBytes(md, ret, out), r, base, n, lo, hi)
    ensures forall x :: lo <= x < hi && !(q <= x < q') ==> Get(r, x) == Get(mc, x)
  {
    hide Get, Bytes, PutBytes;
    var m1 := PutBytes(md, ret, out);
    forall x | Visible(base, n, lo, hi, x) ensures Get(r, x) == Get(m1, x) {
      if ret <= x < ret + |out| {
        assert Bytes(r, ret, |out|)[x - ret] == Get(r, ret + (x - ret));
      }
    }
  }

  /** Performing operations leaves everything outside their results alone. */
  lemma {:induction false} PerformFrame(ops: seq<Op>, m: Mem, x: int)
    requires AllLegal(ops) && forall k :: 0 <= k < |ops| ==> !(ops[k].ret <= x < ops[k].ret + Width(ops[k]))
    ensures Get(PerformAll(ops, m), x) == Get(m, x)
    decreases |ops|
  {
    hide Get, Outcome, Legal, ToBytes, PutBytes, Width;
    if ops != [] {
      var m1 := Perform(ops[0], m);
      assert Get(m1, x) == Get(m, x);
      PerformFrame(ops[1..], m1, x);
    }
  }

  lemma NegComputed(m: Mem, w: nat, ret: int, inp: int, q: int)
    requires 1 <= w < 16 && w != 3
    ensures var i := Neg(w, ret, inp);
            Computed(m, PerformAll(Lower(i, q), m), q, After(i, q), ret, ToBytes(0 - Num(m, inp, w), w))
  {
    hide Get, Value, Bytes, PerformAll, ToBytes, AlignUp, NegAlign;
    var tmp := NegBuffer(w, q);
    NegComputes(m, w, ret, inp, tmp);
    var ops := NegProgram(w, ret, inp, tmp);
    forall x | !(q <= x < tmp + w) && !(ret <= x < ret + w) ensures Get(PerformAll(ops, m), x) == Get(m, x) {
      PerformFrame(ops, m, x);
    }
  }

  /** The bytes above the shifted number in the buffer of a logical right shift. */
  predicate UpperZero(m: Mem, w: nat, tmp: int) {
    Num(m, tmp + w, w) == 0
  }

  lemma ShiftBytes(m: Mem, kind: Kind, w: nat, ret: int, inp: int, shf: int, tmp: int, tbl: int)
    requires 2 <= w < 128 && ShiftApart(w, ret, inp, shf, tmp) && (kind.Srl? ==> UpperZero(m, w, tmp))
    ensures AllLegal(ShiftProgram(kind, w, ret, inp, shf, tmp, tbl))
    ensures Bytes(PerformAll(ShiftProgram(kind, w, ret, inp, shf, tmp, tbl), m), ret, w) ==
            ToBytes(Shifted(kind, Bytes(m, inp, w), Get(m, shf) % (8 * w)), w)
  {
    hide Get, Value, SignedValue, Bytes, PerformAll, ToBytes, Pow, SllProgram, SrlProgram, SraProgram, ShiftApart;
    match kind
    case Sll => SllComputes(m, w, ret, inp, shf, tmp, tbl);
    case Sra => SraComputes(m, w, ret, inp, shf, tmp, tbl);
    case Srl =>
      SrlCorrectIff(m, w, ret, inp, shf, tmp, tbl);
      MultipleMod(Pow(256, Get(m, shf) / 8 % w), 0);
      ToBytesOfValue(Bytes(PerformAll(SrlProgram(w, ret, inp, shf, tmp, tbl), m), ret, w));
  }

  lemma ShiftFrameOf(m: Mem, kind: Kind, w: nat, ret: int, inp: int, shf: int, tmp: int, tbl: int, x: int)
    requires 2 <= w < 128 && !(tmp <= x < tmp + 2 * w) && !(ret <= x < ret + w)
    ensures AllLegal(ShiftProgram(kind, w, ret, inp, shf, tmp, tbl))
    ensures Get(PerformAll(ShiftProgram(kind, w, ret, inp, shf, tmp, tbl), m), x) == Get(m, x)
  {
    hide Get, PerformAll;
    PerformFrame(ShiftProgram(kind, w, ret, inp, shf, tmp, tbl), m, x);
  }

  lemma ShiftComputed(m: Mem, kind: Kind, w: nat, ret: int, inp: int, shf: int, q: int)
    requires 2 <= w < 128 && ShiftApart(w, ret, inp, shf, ShiftBuffer(q)) && (kind.Srl? ==> UpperZero(m, w, ShiftBuffer(q)))
    ensures var i := Shift(kind, w, ret, inp, shf);
            Computed(m, PerformAll(Lower(i, q), m), q, After(i, q), ret, ToBytes(Shifted(kind, Bytes(m, inp, w), Get(m, shf) % (8 * w)), w))
  {
    hide Get, Bytes, PerformAll, ToBytes, ShiftProgram, Shifted, AlignUp, UpperZero, ShiftApart;
    var tmp, tbl := ShiftBuffer(q), ShiftTable(q);
    ShiftBytes(m, kind, w, ret, inp, shf, tmp, tbl);
    var ops := ShiftProgram(kind, w, ret, inp, shf, tmp, tbl);
    forall x | !(q <= x < tmp + 2 * w) && !(ret <= x < ret + w) ensures Get(PerformAll(ops, m), x) == Get(m, x) {
      ShiftFrameOf(m, kind, w, ret, inp, shf, tmp, tbl, x);
    }
  }

  lemma BasicComputed(op: Op, m: Mem, q: int)
    requires Legal(op) && LegalInstr(Basic(op))
    ensures Computed(m, PerformAll([op], m), q, q, op.ret, ToBytes(Outcome(op, m), Width(op)))
  {
    hide Get, Bytes, PutBytes, ToBytes, Outcome, Width, Legal;
    assert [op][1..] == [];
    assert PerformAll([op], m) == PerformAll([op][1..], Perform(op, m));
    StoredBytes(m, op.ret, ToBytes(Outcome(op, m), Width(op)));
  }

  /** `Srl` relies on a clear upper half of its buffer. */
  predicate Zeroed(m: Mem, i: Instr, q: int) {
    i.Shift? && i.kind.Srl? ==> UpperZero(m, i.w, ShiftBuffer(q))
  }

  /** `Srl` never writes the upper half. */
  lemma SrlKeepsUpper(m: Mem, w: nat, ret: int, inp: int, shf: int, q: int)
    requires 2 <= w < 128 && UpperZero(m, w, ShiftBuffer(q)) && Disjoint(ret, w, ShiftBuffer(q), 2 * w)
    ensures UpperZero(PerformAll(Lower(Shift(Srl, w, ret, inp, shf), q), m), w, ShiftBuffer(q))
  {
    hide Get, PerformAll, AlignUp, Bytes, Value;
    var ops := Lower(Shift(Srl, w, ret, inp, shf), q);
    var a := ShiftBuffer(q) + w;
    var m1 := PerformAll(ops, m);
    var x, y := Bytes(m1, a, w), Bytes(m, a, w);
    forall k | 0 <= k < w ensures x[k] == y[k] {
      PerformFrame(ops, m, a + k);
    }
    assert x == y;
  }

  /** The bytes a call stores. */
  function Stored(i: Instr, m: Mem): seq<byte>
    requires LegalInstr(i)
  {
    match i
    case Basic(op) => ToBytes(Outcome(op, m), Width(op))
    case Neg(w, ret, inp) => ToBytes(0 - Num(m, inp, w), w)
    case Shift(kind, w, ret, inp, shf) => ToBytes(Shifted(kind, Bytes(m, inp, w), Get(m, shf) % (8 * w)), w)
  }

  lemma BasicAgrees(op: Op, m: Mem, m': Mem)
    requires LegalInstr(Basic(op))
    requires var r := Reads(Basic(op));
             forall k :: 0 <= k < |r| ==> (r[k].1 >= 0 && Bytes(m', r[k].0, r[k].1) == Bytes(m, r[k].0, r[k].1))
    ensures Outcome(op, m') == Outcome(op, m)
  {
    hide Bytes, Outcome, Inputs;
    var r := Reads(Basic(op));
    forall k | 0 <= k < |Inputs(op)|
      ensures Inputs(op)[k].1 >= 0 && Bytes(m', Inputs(op)[k].0, Inputs(op)[k].1) == Bytes(m, Inputs(op)[k].0, Inputs(op)[k].1)
    {
      assert r[k] == Inputs(op)[k] && r[k].1 >= 0;
    }
    assert Legal(op) && !op.Pick?;
    InputsAgree(op, m, m');
  }

  lemma StoredAgrees(t: Tables, i: Instr, m: Mem, m': Mem, base: int, n: int, lo: int, hi: int)
    requires LegalInstr(i) && InstrSafe(t, base, n, lo, hi, i) && SameVisible(m, m', base, n, lo, hi) && lo <= hi
    ensures Stored(i, m') == Stored(i, m)
  {
    hide Get, Bytes, ToBytes, Outcome, Value, Shifted, SameVisible, InstrSafe, Legal;
    ReadsAgree(t, i, m, m', base, n, lo, hi);
    match i
    case Basic(op) => BasicAgrees(op, m, m');
    case Neg(w, ret, inp) => assert Reads(i)[0] == (inp, w);
    case Shift(kind, w, ret, inp, shf) =>
      assert Reads(i)[0] == (inp, w) && Reads(i)[1] == (shf, 1);
      assert Bytes(m', shf, 1)[0] == Get(m', shf + 0) && Bytes(m, shf, 1)[0] == Get(m, shf + 0);
  }

  lemma LoweredComputed(t: Tables, i: Instr, m: Mem, base: int, n: int, lo: int, hi: int, q: int)
    requires LegalInstr(i) && InstrSafe(t, base, n, lo, hi, i) && Zeroed(m, i, q)
    requires lo <= q && After(i, q) <= hi
    ensures Computed(m, PerformAll(Lower(i, q), m), q, After(i, q), Ret(i), Stored(i, m))
  {
    hide Get, Bytes, ToBytes, Outcome, PerformAll, Shifted, Computed, UpperZero, InTables, AlignUp;
    match i
    case Basic(op) => BasicComputed(op, m, q);
    case Neg(w, ret, inp) => NegComputed(m, w, ret, inp, q);
    case Shift(kind, w, ret, inp, shf) =>
      assert Reads(i)[0] == (inp, w) && Reads(i)[1] == (shf, 1);
      assert ClientRange(base, n, lo, hi, Reads(i)[0].0, Reads(i)[0].1) && ClientRange(base, n, lo, hi, Reads(i)[1].0, Reads(i)[1].1);
      ShiftComputed(m, kind, w, ret, inp, shf, q);
  }

  /** One lowered call, seen by the client. */
  lemma StepAgrees(t: Tables, i: Instr, md: Mem, mc: Mem, base: int, n: int, lo: int, hi: int, q: int)
    requires LegalInstr(i) && InstrSafe(t, base, n, lo, hi, i) && SameVisible(md, mc, base, n, lo, hi) && Zeroed(mc, i, q)
    requires lo <= q && After(i, q) <= hi
    ensures SameVisible(Effect(i, md), PerformAll(Lower(i, q), mc), base, n, lo, hi)
    ensures forall x :: lo <= x < hi && !(q <= x < After(i, q)) ==> Get(PerformAll(Lower(i, q), mc), x) == Get(mc, x)
    ensures Zeroed(PerformAll(Lower(i, q), mc), i, q)
  {
    hide Get, PerformAll, Lower, After, Zeroed, SameVisible, Stored, Shifted, Computed, ToBytes, Outcome, PutBytes, InTables, ClientRange;
    LoweredComputed(t, i, mc, base, n, lo, hi, q);
    StoredAgrees(t, i, md, mc, base, n, lo, hi);
    EffectStores(i, md);
    ZeroedAgain(t, i, mc, base, n, lo, hi, q);
    ComputedVisible(md, mc, PerformAll(Lower(i, q), mc), base, n, lo, hi, q, After(i, q), Ret(i), Stored(i, mc));
  }

  lemma ZeroedAgain(t: Tables, i: Instr, m: Mem, base: int, n: int, lo: int, hi: int, q: int)
    requires LegalInstr(i) && InstrSafe(t, base, n, lo, hi, i) && Zeroed(m, i, q) && lo <= q && After(i, q) <= hi
    ensures Zeroed(PerformAll(Lower(i, q), m), i, q)
  {
    hide PerformAll, Lower, UpperZero, AlignUp, InTables, Reads;
    if i.Shift? && i.kind.Srl? {
      assert q <= ShiftBuffer(q);
      SrlKeepsUpper(m, i.w, i.ret, i.inp, i.shf, q);
    }
  }

  lemma EffectStores(i: Instr, m: Mem)
    requires LegalInstr(i)
    ensures Effect(i, m) == PutBytes(m, Ret(i), Stored(i, m)) && |Stored(i, m)| == RetWidth(i)
  {
    hide PutBytes, Shifted, Outcome, Legal;
  }

  // ---------------------------------------------------------------------------------------------
  // Lists of calls

  /** The upper halves of the shift buffers are zero. */
  ghost predicate BuffersZero(m: Mem, prog: seq<Instr>, q: int)
    requires AllLegalInstrs(prog)
    decreases |prog|
  {
    prog == [] || (Zeroed(m, prog[0], q) && BuffersZero(m, prog[1..], After(prog[0], q)))
  }

  lemma ZeroedFrame(m: Mem, m': Mem, i: Instr, q: int, hi: int)
    requires LegalInstr(i) && Zeroed(m, i, q) && After(i, q) <= hi
    requires forall x :: q <= x < hi ==> Get(m', x) == Get(m, x)
    ensures Zeroed(m', i, q)
  {
    hide Get, Bytes, Value;
    if i.Shift? {
      var a := ShiftBuffer(q) + i.w;
      var x, y := Bytes(m, a, i.w), Bytes(m', a, i.w);
      forall k | 0 <= k < i.w ensures x[k] == y[k] {
        assert q <= a + k < hi;
      }
      assert x == y;
    }
  }

  lemma {:induction false} BuffersFrame(m: Mem, m': Mem, prog: seq<Instr>, q: int, hi: int)
    requires AllLegalInstrs(prog) && BuffersZero(m, prog, q) && AfterAll(prog, q) <= hi
    requires forall x :: q <= x < hi ==> Get(m', x) == Get(m, x)
    ensures BuffersZero(m', prog, q)
    decreases |prog|
  {
    hide Get, Zeroed, LegalInstr, After;
    if prog != [] {
      ZeroedFrame(m, m', prog[0], q, hi);
      BuffersFrame(m, m', prog[1..], After(prog[0], q), hi);
    }
  }

  lemma {:induction false} PerformConcat(a: seq<Op>, b: seq<Op>, m: Mem)
    requires AllLegal(a) && AllLegal(b)
    ensures AllLegal(a + b) && PerformAll(a + b, m) == PerformAll(b, PerformAll(a, m))
    decreases |a|
  {
    hide Perform, Legal;
    if a == [] {
      assert a + b == b;
    } else {
      PerformConcat(a[1..], b, Perform(a[0], m));
      assert (a + b)[1..] == a[1..] + b;
    }
  }

  /** All calls together, seen by the client. */
  lemma {:induction false} LoweredAgrees(t: Tables, prog: seq<Instr>, md: Mem, mc: Mem, base: int, n: int, lo: int, hi: int, q: int)
    requires AllLegalInstrs(prog) && (forall k :: 0 <= k < |prog| ==> InstrSafe(t, base, n, lo, hi, prog[k]))
    requires SameVisible(md, mc, base, n, lo, hi) && BuffersZero(mc, prog, q)
    requires lo <= q && AfterAll(prog, q) <= hi
    ensures SameVisible(EffectAll(prog, md), PerformAll(LowerAll(prog, q), mc), base, n, lo, hi)
    ensures BuffersZero(PerformAll(LowerAll(prog, q), mc), prog, q)
    ensures forall x :: lo <= x < q ==> Get(PerformAll(LowerAll(prog, q), mc), x) == Get(mc, x)
    decreases |prog|
  {
    hide Get, SameVisible, InstrSafe, LegalInstr, Effect, Lower, After, Zeroed, PerformAll;
    if prog == [] {
      assert PerformAll(LowerAll(prog, q), mc) == mc by { NothingPerformed(mc); }
    } else {
      var i, rest := prog[0], prog[1..];
      var q' := After(i, q);
      var m1 := PerformAll(Lower(i, q), mc);
      StepAgrees(t, i, md, mc, base, n, lo, hi, q);
      BuffersFrame(mc, m1, rest, q', hi);
      LoweredAgrees(t, rest, Effect(i, md), m1, base, n, lo, hi, q');
      PerformConcat(Lower(i, q), LowerAll(rest, q'), mc);
      ZeroedFrame(m1, PerformAll(LowerAll(rest, q'), m1), i, q, q');
    }
  }

  lemma NothingPerformed(m: Mem)
    ensures PerformAll([], m) == m
  {
  }
}
