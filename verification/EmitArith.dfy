/** Emission of whole programs over the arithmetic library, and the theorem about running them. */
module EmitArith {
  import opened Memory
  import opened DmaMachine
  import opened Chains
  import opened Walks
  import opened Scatter
  import opened Numbers
  import opened Tables
  import opened Arith
  import opened ArithBit
  import opened ArithInt
  import opened ArithCmp
  import opened ArithShift
  import opened ArithPick
  import opened DmaProgram
  import opened DmaCompound
  import opened Emit
  import opened EmitProgram
  import opened Arenas
  import opened ArithProgram

  // ---------------------------------------------------------------------------------------------
  // Code does not depend on which byte-shift tables exist

  lemma BlocksIgnoreSelects(t: Tables, b: int, sel: Select, p: int, op: Op, exit: int)
    requires Legal(op)
    ensures Blocks(WithSelect(t, b, sel), p, op, exit) == Blocks(t, p, op, exit)
  {
    hide NotBlocks, BitBlocks, IncBlocks, AddBlocks, CmpBlocks, ShiftBlocks;
    var t' := WithSelect(t, b, sel);
    match op
    case Not(w, ret, inp) => assert NotBlocks(t', p, w, ret, inp, exit) == NotBlocks(t, p, w, ret, inp, exit) by { NotSame(t, b, sel, p, w, ret, inp, exit); }
    case And(w, ret, lhs, rhs) => BitSame(t, b, sel, p, w, ret, lhs, rhs, AndOp, exit);
    case Or(w, ret, lhs, rhs) => BitSame(t, b, sel, p, w, ret, lhs, rhs, OrOp, exit);
    case Xor(w, ret, lhs, rhs) => BitSame(t, b, sel, p, w, ret, lhs, rhs, XorOp, exit);
    case Inc(w, ret, inp) => IncSame(t, b, sel, p, w, ret, inp, exit);
    case Add(w, ret, lhs, rhs) => AddSame(t, b, sel, p, w, ret, lhs, rhs, 1, exit);
    case Sub(w, ret, lhs, rhs) => AddSame(t, b, sel, p, w, ret, lhs, rhs, -1, exit);
    case Geu(w, ret, lhs, rhs, f) => CmpSame(t, b, sel, p, w, ret, lhs, rhs, GeuCmp, f, exit);
    case Equ(w, ret, lhs, rhs, f) => CmpSame(t, b, sel, p, w, ret, lhs, rhs, EquCmp, f, exit);
    case Ges(w, ret, lhs, rhs, f) => CmpSame(t, b, sel, p, w, ret, lhs, rhs, GesCmp, f, exit);
    case Shift8(w, ret, inp, shf, kind) => ShiftSame(t, b, sel, p, w, ret, inp, shf, kind, exit);
    case Zero(w, ret) =>
    case SignFill(w, ret, inp) =>
    case Pick(w, ret, tmp, shf, tbl, _) =>
  }

  lemma NotSame(t: Tables, b: int, sel: Select, p: int, w: nat, ret: int, inp: int, exit: int)
    ensures NotBlocks(WithSelect(t, b, sel), p, w, ret, inp, exit) == NotBlocks(t, p, w, ret, inp, exit)
  {
    var x, y := NotBlocks(WithSelect(t, b, sel), p, w, ret, inp, exit), NotBlocks(t, p, w, ret, inp, exit);
    forall k | 0 <= k < |x| ensures x[k] == y[k] {
      if k >= 1 {
        assert x[k] == NotLookup(WithSelect(t, b, sel), p, w, ret, exit, k - 1) && y[k] == NotLookup(t, p, w, ret, exit, k - 1);
      }
    }
  }

  lemma BitSame(t: Tables, b: int, sel: Select, p: int, w: nat, ret: int, lhs: int, rhs: int, op: BitOp, exit: int)
    ensures BitBlocks(WithSelect(t, b, sel), p, w, ret, lhs, rhs, op, exit) == BitBlocks(t, p, w, ret, lhs, rhs, op, exit)
  {
    hide BitColumn;
    var x, y := BitBlocks(WithSelect(t, b, sel), p, w, ret, lhs, rhs, op, exit), BitBlocks(t, p, w, ret, lhs, rhs, op, exit);
    forall k | 0 <= k < |x| ensures x[k] == y[k] {
      if k >= 2 {
        assert x[k] == BitLookup(WithSelect(t, b, sel), p, w, ret, op, exit, k - 2) && y[k] == BitLookup(t, p, w, ret, op, exit, k - 2);
      }
    }
  }

  lemma IncSame(t: Tables, b: int, sel: Select, p: int, w: nat, ret: int, inp: int, exit: int)
    requires w >= 1
    ensures IncBlocks(WithSelect(t, b, sel), p, w, ret, inp, exit) == IncBlocks(t, p, w, ret, inp, exit)
  {
    hide RippleTail;
  }

  lemma AddSame(t: Tables, b: int, sel: Select, p: int, w: nat, ret: int, lhs: int, rhs: int, sg: int, exit: int)
    requires w >= 1
    ensures AddBlocks(WithSelect(t, b, sel), p, w, ret, lhs, rhs, sg, exit) == AddBlocks(t, p, w, ret, lhs, rhs, sg, exit)
  {
    hide RippleTail;
  }

  lemma CmpSame(t: Tables, b: int, sel: Select, p: int, w: nat, ret: int, lhs: int, rhs: int, cmp: Cmp, f: Flags, exit: int)
    requires w >= 1
    ensures CmpBlocks(WithSelect(t, b, sel), p, w, ret, lhs, rhs, cmp, f, exit) == CmpBlocks(t, p, w, ret, lhs, rhs, cmp, f, exit)
  {
    hide CmpBlocks;
    var x, y := CmpBlocks(WithSelect(t, b, sel), p, w, ret, lhs, rhs, cmp, f, exit), CmpBlocks(t, p, w, ret, lhs, rhs, cmp, f, exit);
    forall k | 0 <= k < |x| ensures x[k] == y[k] {
      if 2 <= k < w + 2 {
        assert x[k] == CmpLookup(WithSelect(t, b, sel), p, w, cmp, k - 2) && y[k] == CmpLookup(t, p, w, cmp, k - 2);
      }
    }
  }

  lemma ShiftSame(t: Tables, b: int, sel: Select, p: int, w: nat, ret: int, inp: int, shf: int, kind: Kind, exit: int)
    requires w >= 2
    ensures ShiftBlocks(WithSelect(t, b, sel), p, w, ret, inp, shf, kind, exit) == ShiftBlocks(t, p, w, ret, inp, shf, kind, exit)
  {
    hide ShiftBlocks;
    var x, y := ShiftBlocks(WithSelect(t, b, sel), p, w, ret, inp, shf, kind, exit), ShiftBlocks(t, p, w, ret, inp, shf, kind, exit);
    forall k | 0 <= k < |x| ensures x[k] == y[k] {
      if k >= 5 {
        assert x[k] == PairLookup(WithSelect(t, b, sel), p, w, ret, kind, exit, k - 5) && y[k] == PairLookup(t, p, w, ret, kind, exit, k - 5);
      }
    }
  }

  lemma {:induction false} CompileIgnoresSelects(t: Tables, b: int, sel: Select, p: int, ops: seq<Op>, exit: int)
    requires AllLegal(ops)
    ensures Compile(WithSelect(t, b, sel), p, ops, exit) == Compile(t, p, ops, exit)
    decreases |ops|
  {
    hide Legal, Blocks, Size, WithSelect;
    if ops != [] {
      var q := Blk(p, Size(ops[0]));
      BlocksIgnoreSelects(t, b, sel, p, ops[0], if |ops| == 1 then exit else q);
      CompileIgnoresSelects(t, b, sel, q, ops[1..], exit);
    }
  }

  lemma {:induction false} CompileConcat(t: Tables, p: int, a: seq<Op>, b: seq<Op>, exit: int)
    requires AllLegal(a) && AllLegal(b) && b != []
    ensures AllLegal(a + b) && TotalSize(a + b) == TotalSize(a) + TotalSize(b)
    ensures var q := Blk(p, TotalSize(a));
            Compile(t, p, a + b, exit) == Compile(t, p, a, q) + Compile(t, q, b, exit)
    decreases |a|
  {
    hide Legal, Blocks, Size;
    if a == [] {
      assert a + b == b;
    } else {
      var q := Blk(p, TotalSize(a));
      var p1 := Blk(p, Size(a[0]));
      CompileConcat(t, p1, a[1..], b, exit);
      assert (a + b)[1..] == a[1..] + b;
      assert Blk(p1, TotalSize(a[1..])) == q;
      if |a| == 1 {
        assert a[1..] == [] && q == p1;
      }
    }
  }

  // ---------------------------------------------------------------------------------------------
  // Tables and code are written to different places, so the order of writing does not matter

  lemma PutWordCommutes(m: Mem, a: int, w: int, x: int, v: byte)
    requires !(a <= x < a + 4)
    ensures PutWord(Put(m, x, v), a, w) == Put(PutWord(m, a, w), x, v)
  {
    hide ByteOf;
  }

  lemma PutBlockCommutes(m: Mem, a: int, b: Block, x: int, v: byte)
    requires !(a <= x < a + 32)
    ensures PutBlock(Put(m, x, v), a, b) == Put(PutBlock(m, a, b), x, v)
  {
    hide PutWord, Put;
    PutWordCommutes(m, a + 28, 0, x, v);
    var m0 := PutWord(m, a + 28, 0);
    PutWordCommutes(m0, a + 24, 0, x, v);
    var m1 := PutWord(m0, a + 24, 0);
    PutWordCommutes(m1, a, b.ti, x, v);
    var m2 := PutWord(m1, a, b.ti);
    PutWordCommutes(m2, a + 8, b.dst, x, v);
    var m3 := PutWord(m2, a + 8, b.dst);
    PutWordCommutes(m3, a + 4, b.src, x, v);
    var m4 := PutWord(m3, a + 4, b.src);
    PutWordCommutes(m4, a + 12, b.len, x, v);
    var m5 := PutWord(m4, a + 12, b.len);
    PutWordCommutes(m5, a + 16, b.stride, x, v);
    PutWordCommutes(PutWord(m5, a + 16, b.stride), a + 20, b.next, x, v);
  }

  lemma {:induction false} PutBlocksCommute(m: Mem, p: int, bs: seq<Block>, x: int, v: byte)
    requires !InCode(p, |bs|, x)
    ensures PutBlocks(Put(m, x, v), p, bs) == Put(PutBlocks(m, p, bs), x, v)
    decreases |bs|
  {
    hide PutBlock, Put;
    if bs != [] {
      var n := |bs| - 1;
      PutBlocksCommute(m, p, bs[..n], x, v);
      PutBlockCommutes(PutBlocks(m, p, bs[..n]), Blk(p, n), bs[n], x, v);
    }
  }

  lemma {:induction false} FillCommutes(m: Mem, p: int, bs: seq<Block>, b: int, sel: Select, n: nat)
    requires 1 <= sel.width < 128 && Disjoint(p, 32 * |bs|, b, n)
    ensures FillSelect(PutBlocks(m, p, bs), b, sel, n) == PutBlocks(FillSelect(m, b, sel, n), p, bs)
    decreases n
  {
    hide PutBlocks, Put, SelectValue;
    if n != 0 {
      FillCommutes(m, p, bs, b, sel, n - 1);
      PutBlocksCommute(FillSelect(m, b, sel, n - 1), p, bs, b + n - 1, SelectValue(sel, n - 1));
    }
  }

  // ---------------------------------------------------------------------------------------------
  // Emission

  function InstrSize(i: Instr): nat
    requires LegalInstr(i)
  {
    match i
    case Basic(op) => Size(op)
    case Neg(w, _, _) => 3 * w + 1
    case Shift(kind, w, _, _, _) => ShiftSize(kind, w)
  }

  lemma LowerSize(i: Instr, q: int)
    requires LegalInstr(i)
    ensures TotalSize(Lower(i, q)) == InstrSize(i)
  {
    hide TotalSize, AlignUp, Legal;
    var zero := Tables(0, 0, 0, 0, 0, 0, 0, ShiftTables(0, 0, 0, 0, 0, 0, map[]));
    match i
    case Basic(op) => OneOp(zero, 0, op, 0);
    case Neg(w, ret, inp) => NegSize(w, ret, inp, NegBuffer(w, q));
    case Shift(kind, w, ret, inp, shf) => ShiftProgramLegal(kind, w, ret, inp, shf, ShiftBuffer(q), ShiftTable(q));
  }

  lemma NegSize(w: nat, ret: int, inp: int, tmp: int)
    requires 1 <= w < 16
    ensures var ops := NegProgram(w, ret, inp, tmp); AllLegal(ops) && TotalSize(ops) == 3 * w + 1
  {
    hide TotalSize;
    Sizes(Not(w, tmp, inp), Inc(w, ret, tmp), Inc(w, ret, tmp));
  }

  /** A call that allocates needs room in the arena. */
  predicate Allocates(i: Instr, q: int, end: int)
    requires LegalInstr(i)
  {
    !i.Basic? ==> After(i, q) < end
  }

  method EmitInstr(ctx: EmitCtx, arena: Arena, t: Tables, i: Instr) returns (t': Tables)
    requires ctx.Valid() && arena.Valid() && LegalInstr(i) && ctx.Room(InstrSize(i)) && Allocates(i, arena.p, arena.end)
    modifies ctx, ctx.ram, arena
    ensures ctx.Valid() && ctx.p == Blk(old(ctx.p), InstrSize(i))
    ensures arena.Valid() && arena.p == After(i, old(arena.p))
    ensures t' == TablesWith(i, t, old(arena.p))
    ensures ctx.ram.cells == PutBlocks(MemoryWith(i, old(ctx.ram.cells), old(arena.p)), old(ctx.p),
                                       Compile(t', old(ctx.p), Lower(i, old(arena.p)), ctx.p))
  {
    hide PutBlocks, Compile, Blocks, FillSelect, AlignUp, Legal, Size;
    t' := t;
    match i {
      case Basic(op) =>
        OneOp(t, ctx.p, op, Blk(ctx.p, Size(op)));
        EmitOp(ctx, t, op);
      case Neg(w, ret, inp) =>
        EmitNeg(ctx, arena, t, w, ret, inp);
      case Shift(kind, w, ret, inp, shf) =>
        t' := EmitShift(ctx, arena, t, kind, w, ret, inp, shf);
    }
  }

  ghost predicate AllAllocate(prog: seq<Instr>, q: int, end: int)
    requires AllLegalInstrs(prog)
    decreases |prog|
  {
    prog == [] || (Allocates(prog[0], q, end) && AllAllocate(prog[1..], After(prog[0], q), end))
  }

  lemma {:induction false} SnocAfter(prog: seq<Instr>, i: Instr, q: int)
    requires AllLegalInstrs(prog) && LegalInstr(i)
    ensures AllLegalInstrs(prog + [i]) && AfterAll(prog + [i], q) == After(i, AfterAll(prog, q))
    decreases |prog|
  {
    hide LegalInstr, After;
    var more := prog + [i];
    if prog == [] {
      assert more == [i] && more[1..] == [];
      assert AfterAll(more, q) == AfterAll(more[1..], After(i, q));
    } else {
      var j := prog[0];
      SnocAfter(prog[1..], i, After(j, q));
      assert more[0] == j && more[1..] == prog[1..] + [i];
    }
  }

  lemma Associative(a: seq<Op>, b: seq<Op>, c: seq<Op>)
    ensures a + (b + c) == (a + b) + c
  {
  }

  lemma {:induction false} SnocLower(prog: seq<Instr>, i: Instr, q: int)
    requires AllLegalInstrs(prog) && LegalInstr(i)
    ensures AllLegalInstrs(prog + [i]) && LowerAll(prog + [i], q) == LowerAll(prog, q) + Lower(i, AfterAll(prog, q))
    decreases |prog|
  {
    hide LegalInstr, After, Lower, AllLegal;
    var more := prog + [i];
    if prog == [] {
      assert more == [i] && more[1..] == [];
      assert LowerAll(more, q) == Lower(i, q) + LowerAll(more[1..], After(i, q)) == Lower(i, q) + [];
    } else {
      var j, rest := prog[0], prog[1..];
      var q1 := After(j, q);
      SnocLower(rest, i, q1);
      assert more[0] == j && more[1..] == rest + [i];
      var a, b, c := Lower(j, q), LowerAll(rest, q1), Lower(i, AfterAll(rest, q1));
      assert LowerAll(more, q) == a + (b + c) && LowerAll(prog, q) == a + b && AfterAll(prog, q) == AfterAll(rest, q1);
      Associative(a, b, c);
    }
  }

  lemma {:induction false} SnocTables(prog: seq<Instr>, i: Instr, t: Tables, q: int)
    requires AllLegalInstrs(prog) && LegalInstr(i)
    ensures AllLegalInstrs(prog + [i]) && TablesAfter(prog + [i], t, q) == TablesWith(i, TablesAfter(prog, t, q), AfterAll(prog, q))
    decreases |prog|
  {
    hide LegalInstr, After, TablesWith;
    var more := prog + [i];
    if prog == [] {
      assert more == [i] && more[1..] == [];
      assert TablesAfter(more, t, q) == TablesAfter(more[1..], TablesWith(i, t, q), After(i, q));
    } else {
      var j := prog[0];
      SnocTables(prog[1..], i, TablesWith(j, t, q), After(j, q));
      assert more[0] == j && more[1..] == prog[1..] + [i];
    }
  }

  lemma {:induction false} SnocMemory(prog: seq<Instr>, i: Instr, m: Mem, q: int)
    requires AllLegalInstrs(prog) && LegalInstr(i)
    ensures AllLegalInstrs(prog + [i]) && MemoryAfter(prog + [i], m, q) == MemoryWith(i, MemoryAfter(prog, m, q), AfterAll(prog, q))
    decreases |prog|
  {
    hide LegalInstr, After, MemoryWith;
    var more := prog + [i];
    if prog == [] {
      assert more == [i] && more[1..] == [];
      assert MemoryAfter(more, m, q) == MemoryAfter(more[1..], MemoryWith(i, m, q), After(i, q));
    } else {
      var j := prog[0];
      SnocMemory(prog[1..], i, MemoryWith(j, m, q), After(j, q));
      assert more[0] == j && more[1..] == prog[1..] + [i];
    }
  }

  /** One more call at the end of a program. */
  lemma Snoc(prog: seq<Instr>, i: Instr, t: Tables, m: Mem, q: int)
    requires AllLegalInstrs(prog) && LegalInstr(i)
    ensures AllLegalInstrs(prog + [i])
    ensures var q' := AfterAll(prog, q);
            && LowerAll(prog + [i], q) == LowerAll(prog, q) + Lower(i, q')
            && AfterAll(prog + [i], q) == After(i, q')
            && TablesAfter(prog + [i], t, q) == TablesWith(i, TablesAfter(prog, t, q), q')
            && MemoryAfter(prog + [i], m, q) == MemoryWith(i, MemoryAfter(prog, m, q), q')
  {
    hide LegalInstr, Lower, After, TablesWith, MemoryWith, LowerAll, AfterAll, TablesAfter, MemoryAfter;
    SnocAfter(prog, i, q);
    SnocLower(prog, i, q);
    SnocTables(prog, i, t, q);
    SnocMemory(prog, i, m, q);
  }

  lemma {:induction false} AllocatesAt(prog: seq<Instr>, q: int, end: int, k: nat)
    requires AllLegalInstrs(prog) && AllAllocate(prog, q, end) && k < |prog|
    ensures Allocates(prog[k], AfterAll(prog[..k], q), end)
    decreases |prog|
  {
    hide LegalInstr, After, Allocates;
    if k == 0 {
      assert prog[..0] == [];
    } else {
      AllocatesAt(prog[1..], After(prog[0], q), end, k - 1);
      assert prog[..k][1..] == prog[1..][..k - 1];
    }
  }

  /** The blocks a list of calls needs. */
  function ProgramSize(prog: seq<Instr>): nat
    requires AllLegalInstrs(prog)
  {
    if prog == [] then 0 else InstrSize(prog[0]) + ProgramSize(prog[1..])
  }

  lemma {:induction false} SizeUpTo(prog: seq<Instr>, k: nat)
    requires AllLegalInstrs(prog) && k < |prog|
    ensures ProgramSize(prog[..k]) + InstrSize(prog[k]) <= ProgramSize(prog)
    decreases |prog|
  {
    hide LegalInstr, InstrSize;
    if k == 0 {
      assert prog[..0] == [];
    } else {
      SizeUpTo(prog[1..], k - 1);
      assert prog[..k][1..] == prog[1..][..k - 1];
    }
  }

  lemma {:induction false} SizeSnoc(prog: seq<Instr>, i: Instr)
    requires AllLegalInstrs(prog) && LegalInstr(i)
    ensures AllLegalInstrs(prog + [i]) && ProgramSize(prog + [i]) == ProgramSize(prog) + InstrSize(i)
    decreases |prog|
  {
    hide LegalInstr, InstrSize;
    var more := prog + [i];
    if prog == [] {
      assert more == [i] && more[1..] == [];
      assert ProgramSize(more) == InstrSize(i) + ProgramSize(more[1..]);
    } else {
      SizeSnoc(prog[1..], i);
      assert more[1..] == prog[1..] + [i];
    }
  }

  /** Emitting one more call behind emitted code. */
  lemma EmitOneMore(m: Mem, start: int, bs: seq<Block>, i: Instr, q: int, bs': seq<Block>)
    requires LegalInstr(i) && (i.Shift? ==> Disjoint(start, 32 * |bs|, ShiftTable(q), 0x100))
    ensures PutBlocks(MemoryWith(i, PutBlocks(m, start, bs), q), Blk(start, |bs|), bs') ==
            PutBlocks(MemoryWith(i, m, q), start, bs + bs')
  {
    hide PutBlocks, FillSelect, AlignUp;
    if i.Shift? {
      FillCommutes(m, start, bs, ShiftTable(q), Made(i), 256);
    }
    PutBlocksConcat(MemoryWith(i, m, q), start, bs, bs');
  }

  /** The state of emission: the tables made so far, and behind them the code. */
  ghost predicate Emitted(cells: Mem, m: Mem, start: int, t: Tables, prog: seq<Instr>, q: int, exit: int)
    requires AllLegalInstrs(prog)
  {
    cells == PutBlocks(MemoryAfter(prog, m, q), start, Compile(TablesAfter(prog, t, q), start, LowerAll(prog, q), exit))
  }

  lemma EmittedMore(cells: Mem, cells': Mem, m: Mem, start: int, t: Tables, prog: seq<Instr>, i: Instr, q: int, exit: int)
    requires AllLegalInstrs(prog) && LegalInstr(i)
    requires var p := Blk(start, TotalSize(LowerAll(prog, q)));
             var q' := AfterAll(prog, q);
             && Emitted(cells, m, start, t, prog, q, p)
             && (i.Shift? ==> Disjoint(start, p - start, ShiftTable(q'), 0x100))
             && cells' == PutBlocks(MemoryWith(i, cells, q'), p, Compile(TablesWith(i, TablesAfter(prog, t, q), q'), p, Lower(i, q'), exit))
    ensures AllLegalInstrs(prog + [i]) && Emitted(cells', m, start, t, prog + [i], q, exit)
  {
    hide PutBlocks, Compile, Lower, LowerAll, MemoryWith, MemoryAfter, TablesAfter, LegalInstr, TotalSize, AlignUp, AfterAll;
    var ops := LowerAll(prog, q);
    var p := Blk(start, TotalSize(ops));
    var q' := AfterAll(prog, q);
    var t1 := TablesAfter(prog, t, q);
    var t2 := TablesWith(i, t1, q');
    Snoc(prog, i, t, m, q);
    if i.Shift? {
      CompileIgnoresSelects(t1, ShiftTable(q'), Made(i), start, ops, p);
    }
    var bs, bs' := Compile(t2, start, ops, p), Compile(t2, p, Lower(i, q'), exit);
    assert bs == Compile(t1, start, ops, p);
    EmitOneMore(MemoryAfter(prog, m, q), start, bs, i, q', bs');
    CompileConcat(t2, start, ops, Lower(i, q'), exit);
  }

  lemma EmittedNone(m: Mem, start: int, t: Tables, q: int)
    ensures AllLegalInstrs([]) && Emitted(m, m, start, t, [], q, start) && TotalSize(LowerAll([], q)) == 0 && ProgramSize([]) == 0
    ensures AfterAll([], q) == q && TablesAfter([], t, q) == t
  {
  }

  lemma {:induction false} LoweredSize(prog: seq<Instr>, q: int)
    requires AllLegalInstrs(prog)
    ensures TotalSize(LowerAll(prog, q)) == ProgramSize(prog)
    decreases |prog|
  {
    hide LegalInstr, InstrSize, Lower, After;
    if prog != [] {
      var q' := After(prog[0], q);
      LowerSize(prog[0], q);
      LoweredSize(prog[1..], q');
      SizeConcat(Lower(prog[0], q), LowerAll(prog[1..], q'));
    }
  }

  lemma {:induction false} SizeConcat(a: seq<Op>, b: seq<Op>)
    requires AllLegal(a) && AllLegal(b)
    ensures AllLegal(a + b) && TotalSize(a + b) == TotalSize(a) + TotalSize(b)
    decreases |a|
  {
    hide Legal, Size;
    if a == [] {
      assert a + b == b;
    } else {
      SizeConcat(a[1..], b);
      assert (a + b)[1..] == a[1..] + b;
    }
  }

  /** A client that makes the calls `prog` one after the other, and then ends the chain. */
  method EmitProgramOf(ctx: EmitCtx, arena: Arena, t: Tables, prog: seq<Instr>) returns (t': Tables)
    requires ctx.Valid() && arena.Valid() && prog != [] && AllLegalInstrs(prog)
    requires ctx.Room(ProgramSize(prog)) && AllAllocate(prog, arena.p, arena.end)
    requires Disjoint(ctx.base, 32 * ctx.cap, arena.start, arena.end - arena.start)
    modifies ctx, ctx.ram, arena
    ensures ctx.Valid() && ctx.p == Blk(old(ctx.p), ProgramSize(prog))
    ensures arena.Valid() && arena.p == AfterAll(prog, old(arena.p))
    ensures t' == TablesAfter(prog, t, old(arena.p))
    ensures Emitted(ctx.ram.cells, old(ctx.ram.cells), old(ctx.p), t, prog, old(arena.p), 0)
  {
    hide Emitted, LegalInstr, Lower, LowerAll, AfterAll, After, TablesAfter, TablesWith, MemoryWith, InstrSize, ProgramSize, Allocates,
      AllAllocate, PutBlocks, Compile, TotalSize, PutWord, AlignUp;
    ghost var m0 := ctx.ram.cells;
    ghost var start, q0 := ctx.p, arena.p;
    t' := t;
    EmittedNone(m0, start, t, q0);
    for k := 0 to |prog|
      invariant ctx.Valid() && arena.Valid() && AllLegalInstrs(prog[..k])
      invariant ctx.p == Blk(start, ProgramSize(prog[..k])) && arena.p == AfterAll(prog[..k], q0)
      invariant t' == TablesAfter(prog[..k], t, q0)
      invariant Emitted(ctx.ram.cells, m0, start, t, prog[..k], q0, ctx.p)
    {
      ghost var cells, p, q := ctx.ram.cells, ctx.p, arena.p;
      AllocatesAt(prog, q0, arena.end, k);
      SizeUpTo(prog, k);
      SizeSnoc(prog[..k], prog[k]);
      Snoc(prog[..k], prog[k], t, m0, q0);
      LoweredSize(prog[..k], q0);
      TableInArena(prog[k], q, arena.end);
      assert prog[..k + 1] == prog[..k] + [prog[k]];
      t' := EmitInstr(ctx, arena, t', prog[k]);
      EmittedMore(cells, ctx.ram.cells, m0, start, t, prog[..k], prog[k], q0, ctx.p);
    }
    assert prog[..|prog|] == prog;
    EndEmitted(ctx.ram.cells, m0, start, t, prog, q0);
    ctx.End();
  }

  lemma TableInArena(i: Instr, q: int, end: int)
    requires LegalInstr(i) && Allocates(i, q, end)
    ensures i.Shift? ==> q <= ShiftTable(q) && ShiftTable(q) + 0x100 <= end
  {
  }

  lemma EndEmitted(cells: Mem, m: Mem, start: int, t: Tables, prog: seq<Instr>, q: int)
    requires prog != [] && AllLegalInstrs(prog) && Emitted(cells, m, start, t, prog, q, Blk(start, ProgramSize(prog)))
    ensures ProgramSize(prog) >= 1
    ensures Emitted(PutWord(cells, Blk(start, ProgramSize(prog) - 1) + 20, 0), m, start, t, prog, q, 0)
  {
    hide LegalInstr, LowerAll, MemoryAfter, TablesAfter, ProgramSize, PutBlocks, Compile, PutWord, TotalSize;
    var ops, t1 := LowerAll(prog, q), TablesAfter(prog, t, q);
    var p := Blk(start, ProgramSize(prog));
    LoweredSize(prog, q);
    CompileExit(t1, start, ops, p, 0);
    RebranchLast(MemoryAfter(prog, m, q), start, Compile(t1, start, ops, p), 0);
  }
}
