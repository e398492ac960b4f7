/** What a program over the arithmetic library does when the engine runs it. */
module ArithRuns {
  import opened Memory
  import opened DmaMachine
  import opened Chains
  import opened Walks
  import opened Scatter
  import opened Numbers
  import opened Tables
  import opened Arith
  import opened ArithShift
  import opened DmaProgram
  import opened DmaCompound
  import opened Emit
  import opened EmitProgram
  import opened Arenas
  import opened ArithProgram
  import opened EmitArith

  /** The arena is free from `q` on: no table reaches into it. */
  ghost predicate Free(t: Tables, q: int, hi: int) {
    forall x :: q <= x < hi ==> !InTables(t, x)
  }

  lemma ShiftPlaces(i: Instr, q: int)
    requires LegalInstr(i) && i.Shift? && 0 < q
    ensures q <= ShiftTable(q) && ShiftTable(q) + 0x100 <= ShiftBuffer(q) && ShiftBuffer(q) + 2 * i.w == After(i, q)
    ensures ShiftTable(q) % 0x100 == 0 && ShiftBuffer(q) % 0x100 == 0
  {
  }

  /** One call keeps the tables ready and the rest of the arena free. */
  lemma ReadyWith(i: Instr, m: Mem, t: Tables, q: int, hi: int)
    requires LegalInstr(i) && Ready(m, t) && Placed(t) && Free(t, q, hi) && 0 < q && After(i, q) <= hi <= 0xFFFF_FF00
    ensures Ready(MemoryWith(i, m, q), TablesWith(i, t, q)) && Placed(TablesWith(i, t, q)) && Free(TablesWith(i, t, q), After(i, q), hi)
  {
    hide Ready, Placed, InTables, FillSelect, WithSelect, AlignUp;
    if i.Shift? {
      ShiftPlaces(i, q);
      var b := ShiftTable(q);
      SelectMade(m, t, b, Made(i));
      forall x | After(i, q) <= x < hi ensures !InTables(TablesWith(i, t, q), x) {
        InWithSelect(t, b, Made(i), x);
      }
    }
  }

  lemma {:induction false} ReadyAfter(prog: seq<Instr>, m: Mem, t: Tables, q: int, hi: int)
    requires AllLegalInstrs(prog) && Ready(m, t) && Placed(t) && Free(t, q, hi) && 0 < q && AfterAll(prog, q) <= hi <= 0xFFFF_FF00
    ensures Ready(MemoryAfter(prog, m, q), TablesAfter(prog, t, q)) && Placed(TablesAfter(prog, t, q))
    decreases |prog|
  {
    hide Ready, Placed, Free, LegalInstr, MemoryWith, TablesWith, After;
    if prog != [] {
      var i := prog[0];
      ReadyWith(i, m, t, q, hi);
      ReadyAfter(prog[1..], MemoryWith(i, m, q), TablesWith(i, t, q), After(i, q), hi);
    }
  }

  /** The new tables lie in the arena; the older ones stay. */
  lemma {:induction false} TablesGrow(prog: seq<Instr>, t: Tables, q: int, x: int)
    requires AllLegalInstrs(prog) && 0 < q
    ensures InTables(t, x) ==> InTables(TablesAfter(prog, t, q), x)
    ensures InTables(TablesAfter(prog, t, q), x) ==> InTables(t, x) || q <= x < AfterAll(prog, q)
    decreases |prog|
  {
    hide InTables, LegalInstr, WithSelect, AlignUp, After;
    if prog != [] {
      var i := prog[0];
      TablesGrow(prog[1..], TablesWith(i, t, q), After(i, q), x);
      if i.Shift? {
        ShiftPlaces(i, q);
        InWithSelect(t, ShiftTable(q), Made(i), x);
      }
    }
  }

  lemma {:induction false} SelectsStay(prog: seq<Instr>, t: Tables, q: int, b: int)
    requires AllLegalInstrs(prog) && 0 < q && b < q && b in t.shift.selects
    ensures b in TablesAfter(prog, t, q).shift.selects && TablesAfter(prog, t, q).shift.selects[b] == t.shift.selects[b]
    decreases |prog|
  {
    hide LegalInstr, AlignUp, After;
    if prog != [] {
      var i := prog[0];
      if i.Shift? {
        ShiftPlaces(i, q);
      }
      SelectsStay(prog[1..], TablesWith(i, t, q), After(i, q), b);
    }
  }

  // ---------------------------------------------------------------------------------------------
  // Safety of the lowered operations

  /** Everything about the layout: code, arena and tables are apart. */
  ghost predicate Layout(t: Tables, base: int, n: int, lo: int, hi: int) {
    && Located(t, base, n) && 0 < lo <= hi <= 0xFFFF_FF00
    && Disjoint(base, 32 * n, lo, hi - lo)
  }

  /** A piece of the arena that no table covers. */
  lemma ScratchResult(t: Tables, base: int, n: int, lo: int, hi: int, a: int, w: nat)
    requires 0 < lo <= a && a + w <= hi <= 0xFFFF_FF00 && Disjoint(base, 32 * n, lo, hi - lo)
    requires forall x :: a <= x < a + w ==> !InTables(t, x)
    ensures Operand(base, n, a, w) && Result(t, base, n, a, w)
  {
    hide InTables;
  }

  /** The tables that exist when everything has been emitted spare the buffers and the client's data. */
  ghost predicate Spares(t: Tables, base: int, n: int, lo: int, hi: int, i: Instr, q: int)
    requires LegalInstr(i)
  {
    && (forall x :: q <= x < After(i, q) && InTables(t, x) ==> i.Shift? && x < ShiftTable(q) + 0x100)
    && (forall x :: Ret(i) <= x < Ret(i) + RetWidth(i) ==> !InTables(t, x))
    && (i.Shift? ==> ShiftTable(q) in t.shift.selects && t.shift.selects[ShiftTable(q)] == Made(i))
  }

  lemma SafeOp(t: Tables, base: int, n: int, op: Op)
    requires Result(t, base, n, op.ret, Width(op)) && PickFits(t, op)
    requires |Inputs(op)| > 0 ==> Operand(base, n, Inputs(op)[0].0, Inputs(op)[0].1)
    requires |Inputs(op)| > 1 ==> Operand(base, n, Inputs(op)[1].0, Inputs(op)[1].1)
    ensures Safe(t, base, n, op)
  {
    hide Result, PickFits, Operand;
  }

  lemma BasicSafe(t: Tables, t0: Tables, base: int, n: int, lo: int, hi: int, op: Op, q: int)
    requires LegalInstr(Basic(op)) && InstrSafe(t0, base, n, lo, hi, Basic(op)) && Spares(t, base, n, lo, hi, Basic(op), q)
    ensures Safe(t, base, n, op)
  {
    hide InTables, Inputs, Legal;
    var i := Basic(op);
    forall k | 0 <= k < |Inputs(op)| ensures Operand(base, n, Inputs(op)[k].0, Inputs(op)[k].1) {
      assert ClientRange(base, n, lo, hi, Reads(i)[k].0, Reads(i)[k].1);
    }
  }

  lemma NegSafe(t: Tables, t0: Tables, base: int, n: int, lo: int, hi: int, w: nat, ret: int, inp: int, q: int)
    requires var i := Neg(w, ret, inp);
             LegalInstr(i) && InstrSafe(t0, base, n, lo, hi, i) && Spares(t, base, n, lo, hi, i, q) && lo <= q && After(i, q) <= hi
    requires Layout(t0, base, n, lo, hi)
    ensures Safe(t, base, n, Not(w, NegBuffer(w, q), inp)) && Safe(t, base, n, Inc(w, ret, NegBuffer(w, q)))
  {
    hide InTables, AlignUp, Located, Safe, NegAlign;
    var i := Neg(w, ret, inp);
    var tmp := NegBuffer(w, q);
    assert ClientRange(base, n, lo, hi, Reads(i)[0].0, Reads(i)[0].1);
    ScratchResult(t, base, n, lo, hi, tmp, w);
    SafeOp(t, base, n, Not(w, tmp, inp));
    SafeOp(t, base, n, Inc(w, ret, tmp));
  }

  lemma ShiftSafe(t: Tables, t0: Tables, base: int, n: int, lo: int, hi: int, kind: Kind, w: nat, ret: int, inp: int, shf: int, q: int)
    requires var i := Shift(kind, w, ret, inp, shf);
             LegalInstr(i) && InstrSafe(t0, base, n, lo, hi, i) && Spares(t, base, n, lo, hi, i, q) && lo <= q && After(i, q) <= hi
    requires Layout(t0, base, n, lo, hi)
    ensures forall k :: 0 <= k < 3 ==> Safe(t, base, n, ShiftProgram(kind, w, ret, inp, shf, ShiftBuffer(q), ShiftTable(q))[k])
  {
    hide InTables, AlignUp, Located, Safe;
    var i := Shift(kind, w, ret, inp, shf);
    var tmp, tbl := ShiftBuffer(q), ShiftTable(q);
    ShiftPlaces(i, q);
    assert ClientRange(base, n, lo, hi, Reads(i)[0].0, Reads(i)[0].1);
    assert ClientRange(base, n, lo, hi, Reads(i)[1].0, Reads(i)[1].1);
    ScratchResult(t, base, n, lo, hi, tmp, w);
    ScratchResult(t, base, n, lo, hi, tmp + w, w);
    ScratchResult(t, base, n, lo, hi, tmp, 2 * w);
    var ops := ShiftProgram(kind, w, ret, inp, shf, tmp, tbl);
    SafeOp(t, base, n, ops[0]);
    SafeOp(t, base, n, ops[1]);
    SafeOp(t, base, n, ops[2]);
  }

  lemma LowerSafe(t: Tables, t0: Tables, base: int, n: int, lo: int, hi: int, i: Instr, q: int)
    requires LegalInstr(i) && InstrSafe(t0, base, n, lo, hi, i) && Spares(t, base, n, lo, hi, i, q) && lo <= q && After(i, q) <= hi
    requires Layout(t0, base, n, lo, hi)
    ensures forall k :: 0 <= k < |Lower(i, q)| ==> Safe(t, base, n, Lower(i, q)[k])
  {
    hide InTables, AlignUp, Located, Safe, InstrSafe, Spares, Layout, ShiftProgram, NegBuffer, ShiftBuffer, ShiftTable;
    match i
    case Basic(op) => BasicSafe(t, t0, base, n, lo, hi, op, q);
    case Neg(w, ret, inp) => NegSafe(t, t0, base, n, lo, hi, w, ret, inp, q);
    case Shift(kind, w, ret, inp, shf) =>
      ShiftSafe(t, t0, base, n, lo, hi, kind, w, ret, inp, shf, q);
      ThreeOps(kind, w, ret, inp, shf, ShiftBuffer(q), ShiftTable(q));
  }

  lemma ThreeOps(kind: Kind, w: nat, ret: int, inp: int, shf: int, tmp: int, tbl: int)
    ensures |ShiftProgram(kind, w, ret, inp, shf, tmp, tbl)| == 3
  {
  }

  /** The final tables spare the first call of a program. */
  lemma FirstSpared(prog: seq<Instr>, t: Tables, base: int, n: int, lo: int, hi: int, q: int)
    requires prog != [] && AllLegalInstrs(prog) && 0 < lo <= q && AfterAll(prog, q) <= hi && Free(t, q, hi)
    requires ClientRange(base, n, lo, hi, Ret(prog[0]), RetWidth(prog[0]))
    requires forall x :: Ret(prog[0]) <= x < Ret(prog[0]) + RetWidth(prog[0]) ==> !InTables(t, x)
    ensures Spares(TablesAfter(prog, t, q), base, n, lo, hi, prog[0], q)
  {
    hide InTables, LegalInstr, AlignUp, After, ShiftTable, RetWidth, Ret, Operand, Made;
    var i, t' := prog[0], TablesAfter(prog, t, q);
    var q1, t1 := After(i, q), TablesWith(i, t, q);
    assert AfterAll(prog, q) == AfterAll(prog[1..], q1) && t' == TablesAfter(prog[1..], t1, q1);
    forall x | q <= x < q1 && InTables(t', x) ensures i.Shift? && x < ShiftTable(q) + 0x100 {
      TablesGrow(prog[1..], t1, q1, x);
      if i.Shift? {
        ShiftPlaces(i, q);
        InWithSelect(t, ShiftTable(q), Made(i), x);
      }
    }
    forall x | Ret(i) <= x < Ret(i) + RetWidth(i) ensures !InTables(t', x) {
      TablesGrow(prog, t, q, x);
    }
    if i.Shift? {
      ShiftPlaces(i, q);
      SelectsStay(prog[1..], t1, q1, ShiftTable(q));
    }
  }

  /** A table in front of the arena pointer says nothing about the client's results. */
  lemma InstrSafeWith(t: Tables, i: Instr, j: Instr, base: int, n: int, lo: int, hi: int, q: int)
    requires LegalInstr(i) && 0 < lo <= q && After(i, q) <= hi && InstrSafe(t, base, n, lo, hi, j)
    ensures InstrSafe(TablesWith(i, t, q), base, n, lo, hi, j)
  {
    hide InTables, LegalInstr, AlignUp, WithSelect, Operand, Reads;
    if i.Shift? {
      ShiftPlaces(i, q);
      forall x | Ret(j) <= x < Ret(j) + RetWidth(j) ensures !InTables(TablesWith(i, t, q), x) {
        InWithSelect(t, ShiftTable(q), Made(i), x);
      }
    }
  }

  lemma LayoutWith(t: Tables, i: Instr, base: int, n: int, lo: int, hi: int, q: int)
    requires LegalInstr(i) && lo <= q && After(i, q) <= hi && Layout(t, base, n, lo, hi)
    ensures Layout(TablesWith(i, t, q), base, n, lo, hi)
  {
    hide InTables, AlignUp, WithSelect, Placed, Legal;
    if i.Shift? {
      ShiftPlaces(i, q);
      var b := ShiftTable(q);
      PlacedWithSelect(t, b, Made(i));
      forall x | InCode(base, n, x) ensures !InTables(TablesWith(i, t, q), x) {
        InWithSelect(t, b, Made(i), x);
      }
    }
  }

  ghost predicate AllInstrSafe(t: Tables, base: int, n: int, lo: int, hi: int, prog: seq<Instr>) {
    forall k :: 0 <= k < |prog| ==> InstrSafe(t, base, n, lo, hi, prog[k])
  }

  lemma FreeWith(t: Tables, i: Instr, q: int, hi: int)
    requires LegalInstr(i) && 0 < q && Free(t, q, hi) && After(i, q) <= hi
    ensures Free(TablesWith(i, t, q), After(i, q), hi)
  {
    hide InTables, AlignUp, WithSelect, Legal;
    if i.Shift? {
      ShiftPlaces(i, q);
      forall x | After(i, q) <= x < hi ensures !InTables(TablesWith(i, t, q), x) {
        InWithSelect(t, ShiftTable(q), Made(i), x);
      }
    }
  }

  lemma {:induction false} ProgramSafe(prog: seq<Instr>, t: Tables, base: int, n: int, lo: int, hi: int, q: int)
    requires AllLegalInstrs(prog) && lo <= q && AfterAll(prog, q) <= hi && Free(t, q, hi)
    requires Layout(t, base, n, lo, hi) && AllInstrSafe(t, base, n, lo, hi, prog)
    ensures AllSafe(TablesAfter(prog, t, q), base, n, LowerAll(prog, q))
    decreases |prog|
  {
    hide LegalInstr, Located, Lower, After, Safe, Free, InstrSafe, TablesWith;
    if prog != [] {
      var i := prog[0];
      var q1, t1, t' := After(i, q), TablesWith(i, t, q), TablesAfter(prog, t, q);
      var a, b := Lower(i, q), LowerAll(prog[1..], q1);
      FirstSafe(prog, t, base, n, lo, hi, q);
      FreeWith(t, i, q, hi);
      LayoutWith(t, i, base, n, lo, hi, q);
      forall k | 0 <= k < |prog[1..]| ensures InstrSafe(t1, base, n, lo, hi, prog[1..][k]) {
        InstrSafeWith(t, i, prog[k + 1], base, n, lo, hi, q);
      }
      ProgramSafe(prog[1..], t1, base, n, lo, hi, q1);
      forall k | 0 <= k < |a + b| ensures Safe(t', base, n, (a + b)[k]) {
        if k >= |a| {
          assert (a + b)[k] == b[k - |a|];
        }
      }
    }
  }

  lemma FirstSafe(prog: seq<Instr>, t: Tables, base: int, n: int, lo: int, hi: int, q: int)
    requires prog != [] && AllLegalInstrs(prog) && lo <= q && AfterAll(prog, q) <= hi && Free(t, q, hi)
    requires Layout(t, base, n, lo, hi) && InstrSafe(t, base, n, lo, hi, prog[0])
    ensures var ops := Lower(prog[0], q);
            forall k :: 0 <= k < |ops| ==> Safe(TablesAfter(prog, t, q), base, n, ops[k])
  {
    hide LegalInstr, Located, Lower, After, Safe, Free, Spares, TablesAfter, Reads, InTables;
    FirstSpared(prog, t, base, n, lo, hi, q);
    LowerSafe(TablesAfter(prog, t, q), t, base, n, lo, hi, prog[0], q);
  }

  // ---------------------------------------------------------------------------------------------
  // The arena's buffers

  ghost predicate Clean(m: Mem, q: int, hi: int) {
    forall x :: q <= x < hi ==> Get(m, x) == 0
  }

  lemma {:induction false} ZeroValue(s: seq<byte>)
    requires forall k :: 0 <= k < |s| ==> s[k] == 0
    ensures Value(s) == 0
  {
    if s != [] {
      ZeroValue(s[1..]);
    }
  }

  lemma CleanZeroed(m: Mem, i: Instr, q: int, hi: int)
    requires LegalInstr(i) && 0 < q && After(i, q) <= hi && Clean(m, q, hi)
    ensures Zeroed(MemoryWith(i, m, q), i, q) && Clean(MemoryWith(i, m, q), After(i, q), hi)
    ensures forall x :: !(q <= x < After(i, q)) ==> Get(MemoryWith(i, m, q), x) == Get(m, x)
  {
    hide Get, FillSelect, SelectValue, AlignUp, Legal, Value, Bytes;
    if i.Shift? {
      ShiftPlaces(i, q);
      FillSelectReads(m, ShiftTable(q), Made(i), 256);
      var s := Bytes(MemoryWith(i, m, q), ShiftBuffer(q) + i.w, i.w);
      forall k | 0 <= k < |s| ensures s[k] == 0 {
        assert s[k] == Get(MemoryWith(i, m, q), ShiftBuffer(q) + i.w + k);
      }
      ZeroValue(s);
    }
  }

  /** Filling the tables leaves everything outside the arena alone, and the buffers clear. */
  lemma {:induction false} FillAllFrame(prog: seq<Instr>, m: Mem, q: int, hi: int)
    requires AllLegalInstrs(prog) && 0 < q && AfterAll(prog, q) <= hi && Clean(m, q, hi)
    ensures forall x :: !(q <= x < hi) ==> Get(MemoryAfter(prog, m, q), x) == Get(m, x)
    ensures BuffersZero(MemoryAfter(prog, m, q), prog, q)
    decreases |prog|
  {
    hide Get, LegalInstr, MemoryWith, After, Zeroed, Clean;
    if prog != [] {
      var i := prog[0];
      var q1, m1 := After(i, q), MemoryWith(i, m, q);
      CleanZeroed(m, i, q, hi);
      FillAllFrame(prog[1..], m1, q1, hi);
      ZeroedStays(m1, MemoryAfter(prog[1..], m1, q1), i, q);
    }
  }

  lemma ZeroedStays(m: Mem, m': Mem, i: Instr, q: int)
    requires LegalInstr(i) && Zeroed(m, i, q) && forall x :: q <= x < After(i, q) ==> Get(m', x) == Get(m, x)
    ensures Zeroed(m', i, q)
  {
    hide Get, After, LegalInstr, Zeroed;
    ZeroedFrame(m, m', i, q, After(i, q));
  }

  // ---------------------------------------------------------------------------------------------
  // The theorem

  /** The emitted memory before it runs. */
  function Image(prog: seq<Instr>, t: Tables, m: Mem, base: int, q: int): Mem
    requires AllLegalInstrs(prog)
  {
    PutBlocks(MemoryAfter(prog, m, q), base, Compile(TablesAfter(prog, t, q), base, LowerAll(prog, q), 0))
  }

  /** A memory that holds the program in working order. */
  ghost predicate Loaded(m: Mem, prog: seq<Instr>, t: Tables, base: int, q: int)
    requires AllLegalInstrs(prog)
  {
    && ProgramAt(m, TablesAfter(prog, t, q), base, LowerAll(prog, q)) && Ready(m, TablesAfter(prog, t, q))
    && BuffersZero(m, prog, q)
  }

  /** Where a program and its data may lie. */
  ghost predicate Sited(prog: seq<Instr>, t: Tables, base: int, lo: int, hi: int, q: int)
    requires AllLegalInstrs(prog)
  {
    && prog != [] && lo <= q && AfterAll(prog, q) <= hi && Free(t, q, hi)
    && Layout(t, base, ProgramSize(prog), lo, hi) && AllInstrSafe(t, base, ProgramSize(prog), lo, hi, prog)
  }

  /** Emission on top of ready tables and a zeroed arena leaves a program in working order. */
  lemma ImageLoaded(prog: seq<Instr>, t: Tables, m: Mem, base: int, lo: int, hi: int, q: int)
    requires AllLegalInstrs(prog) && Sited(prog, t, base, lo, hi, q) && Ready(m, t) && Clean(m, q, hi)
    ensures Loaded(Image(prog, t, m, base, q), prog, t, base, q)
    ensures SameVisible(m, Image(prog, t, m, base, q), base, ProgramSize(prog), lo, hi)
  {
    hide LegalInstr, Located, LowerAll, AfterAll, Safe, Free, InstrSafe, TablesAfter, MemoryAfter, Ready, Get, Clean, PutBlocks, Compile,
      BuffersZero, ProgramSize, TotalSize, Placed, Code;
    var n, img, ops, t', m1 := ProgramSize(prog), Image(prog, t, m, base, q), LowerAll(prog, q), TablesAfter(prog, t, q), MemoryAfter(prog, m, q);
    LoweredSize(prog, q);
    LocatedIsPlaced(t, base, n);
    ReadyAfter(prog, m, t, q, hi);
    ProgramSafe(prog, t, base, n, lo, hi, q);
    EmittedIsProgram(t', m1, base, ops);
    FillAllFrame(prog, m, q, hi);
    forall x | q <= x < hi ensures Get(img, x) == Get(m1, x) {
      assert !InCode(base, n, x);
    }
    BuffersFrame(m1, img, prog, q, hi);
    forall x | Visible(base, n, lo, hi, x) ensures Get(img, x) == Get(m, x) {
      assert Get(img, x) == Get(m1, x);
    }
  }

  /**
   Any sequence of library calls, emitted behind one another and ended: the engine halts after visiting
   each emitted block exactly once, to the client memory is as if the calls had been performed in order,
   and the program is again in working order.
   */
  lemma ArithmeticRuns(prog: seq<Instr>, t: Tables, m: Mem, base: int, lo: int, hi: int, q: int)
    requires AllLegalInstrs(prog) && Sited(prog, t, base, lo, hi, q) && Loaded(m, prog, t, base, q)
    ensures var n := ProgramSize(prog);
            var s := Run(State(m, base), n);
            && s.cb == 0 && Visits(State(m, base), n) == Straight(base, 0, n)
            && SameVisible(EffectAll(prog, m), s.mem, base, n, lo, hi)
            && Loaded(s.mem, prog, t, base, q)
  {
    hide LegalInstr, Located, LowerAll, AfterAll, Safe, Free, InstrSafe, TablesAfter, Ready, Get,
      BuffersZero, ProgramSize, TotalSize, Run, Visits, Straight, EffectAll, PerformAll, ProgramAt;
    var n, ops, t' := ProgramSize(prog), LowerAll(prog, q), TablesAfter(prog, t, q);
    LoweredSize(prog, q);
    ProgramSafe(prog, t, base, n, lo, hi, q);
    ProgramRuns(t', m, base, n, base, ops);
    assert SameVisible(m, m, base, n, lo, hi);
    LoweredAgrees(t, prog, m, m, base, n, lo, hi, q);
    var s, r := Run(State(m, base), n), PerformAll(ops, m);
    forall x | q <= x < hi ensures Get(s.mem, x) == Get(r, x) {
      assert !InCode(base, n, x);
    }
    BuffersFrame(r, s.mem, prog, q, hi);
  }

  /** A client that changes only its own data leaves the program in working order. */
  lemma LoadedStays(prog: seq<Instr>, t: Tables, m: Mem, m': Mem, base: int, lo: int, hi: int, q: int)
    requires AllLegalInstrs(prog) && Sited(prog, t, base, lo, hi, q) && Loaded(m, prog, t, base, q)
    requires forall x :: !Visible(base, ProgramSize(prog), lo, hi, x) || InTables(t, x) ==> Get(m', x) == Get(m, x)
    ensures Loaded(m', prog, t, base, q)
  {
    hide LegalInstr, Located, LowerAll, AfterAll, Safe, Free, InstrSafe, TablesAfter, Ready, Get, InTables, Placed,
      BuffersZero, ProgramSize, TotalSize, ProgramAt;
    var n, ops, t' := ProgramSize(prog), LowerAll(prog, q), TablesAfter(prog, t, q);
    LoweredSize(prog, q);
    ProgramSafe(prog, t, base, n, lo, hi, q);
    LocatedIsPlaced(t', base, n);
    ProgramFrame(m, m', t', base, ops);
    forall x | InTables(t', x) ensures Get(m', x) == Get(m, x) {
      TablesGrow(prog, t, q, x);
    }
    ReadyFrame(m, m', t');
    BuffersFrame(m, m', prog, q, hi);
  }
}
