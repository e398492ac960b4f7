/** Emitting a whole program, and what the engine makes of the emitted memory. */
module EmitProgram {
  import opened Memory
  import opened DmaMachine
  import opened Chains
  import opened Walks
  import opened Scatter
  import opened Numbers
  import opened Tables
  import opened Arith
  import opened ArithBit
  import opened ArithInt
  import opened ArithCmp
  import opened ArithShift
  import opened ArithPick
  import opened DmaProgram
  import opened Emit
  import opened Emitters

  method EmitOp(ctx: EmitCtx, t: Tables, op: Op)
    requires ctx.Valid() && Legal(op) && ctx.Room(Size(op))
    modifies ctx, ctx.ram
    ensures ctx.Valid() && ctx.p == Blk(old(ctx.p), Size(op))
    ensures ctx.ram.cells == PutBlocks(old(ctx.ram.cells), old(ctx.p), Blocks(t, old(ctx.p), op, ctx.p))
  {
    hide PutBlocks, NotBlocks, BitBlocks, IncBlocks, AddBlocks, CmpBlocks, ShiftBlocks, ZeroBlocks, SignFillBlocks, PickBlocks;
    match op {
      case Not(w, ret, inp) => EmitNot(ctx, t, w, ret, inp);
      case And(w, ret, lhs, rhs) => EmitBitwise(ctx, t, w, ret, lhs, rhs, AndOp);
      case Or(w, ret, lhs, rhs) => EmitBitwise(ctx, t, w, ret, lhs, rhs, OrOp);
      case Xor(w, ret, lhs, rhs) => EmitBitwise(ctx, t, w, ret, lhs, rhs, XorOp);
      case Inc(w, ret, inp) => EmitInc(ctx, t, w, ret, inp);
      case Add(w, ret, lhs, rhs) => EmitAddSub(ctx, t, w, ret, lhs, rhs, 1);
      case Sub(w, ret, lhs, rhs) => EmitAddSub(ctx, t, w, ret, lhs, rhs, -1);
      case Geu(w, ret, lhs, rhs, f) => EmitForward(ctx, t, w, ret, lhs, rhs, GeuCmp, f);
      case Equ(w, ret, lhs, rhs, f) => EmitForward(ctx, t, w, ret, lhs, rhs, EquCmp, f);
      case Ges(w, ret, lhs, rhs, f) => EmitGes(ctx, t, w, ret, lhs, rhs, f);
      case Shift8(w, ret, inp, shf, kind) => EmitShift8(ctx, t, w, ret, inp, shf, kind);
      case Zero(w, ret) => EmitZero(ctx, t, w, ret);
      case SignFill(w, ret, inp) => EmitSignFill(ctx, t, w, ret, inp);
      case Pick(w, ret, tmp, shf, tbl, _) => EmitPick(ctx, t, w, ret, tmp, shf, tbl);
    }
  }

  /** The blocks of a program whose last operation leaves through `exit`. */
  function Compile(t: Tables, p: int, ops: seq<Op>, exit: int): (bs: seq<Block>)
    requires AllLegal(ops)
    ensures |bs| == TotalSize(ops)
    decreases |ops|
  {
    if ops == [] then []
    else
      var q := Blk(p, Size(ops[0]));
      Blocks(t, p, ops[0], if |ops| == 1 then exit else q) + Compile(t, q, ops[1..], exit)
  }

  lemma {:induction false} TotalSizeSnoc(ops: seq<Op>, op: Op)
    requires AllLegal(ops) && Legal(op)
    ensures AllLegal(ops + [op]) && TotalSize(ops + [op]) == TotalSize(ops) + Size(op)
  {
    hide Size, Legal;
    if ops == [] {
      assert ([] + [op])[1..] == [];
      assert TotalSize([op]) == Size(op) + TotalSize([op][1..]);
    } else {
      TotalSizeSnoc(ops[1..], op);
      assert (ops + [op])[1..] == ops[1..] + [op];
    }
  }

  /** Operations are compiled one after the other. */
  lemma {:induction false} CompileSnoc(t: Tables, p: int, ops: seq<Op>, op: Op, exit: int)
    requires AllLegal(ops) && Legal(op)
    ensures AllLegal(ops + [op])
    ensures var q := Blk(p, TotalSize(ops));
            Compile(t, p, ops + [op], exit) == Compile(t, p, ops, q) + Blocks(t, q, op, exit)
    decreases |ops|
  {
    hide Size, Legal, Blocks;
    TotalSizeSnoc(ops, op);
    if ops == [] {
      assert [] + [op] == [op] && [op][1..] == [];
      assert Compile(t, p, [op], exit) == Blocks(t, p, op, exit) + Compile(t, Blk(p, Size(op)), [op][1..], exit);
    } else {
      var p1 := Blk(p, Size(ops[0]));
      var q := Blk(p, TotalSize(ops));
      CompileSnoc(t, p1, ops[1..], op, exit);
      assert (ops + [op])[1..] == ops[1..] + [op];
      assert Blk(p1, TotalSize(ops[1..])) == q;
      var b := Blocks(t, p, ops[0], p1);
      assert Compile(t, p, ops + [op], exit) == b + Compile(t, p1, ops[1..] + [op], exit);
      if |ops| == 1 {
        assert TotalSize(ops[1..]) == 0 && q == p1;
      }
      assert Compile(t, p, ops, q) == b + Compile(t, p1, ops[1..], q);
    }
  }

  lemma {:induction false} PutBlocksConcat(m: Mem, p: int, a: seq<Block>, b: seq<Block>)
    ensures PutBlocks(m, p, a + b) == PutBlocks(PutBlocks(m, p, a), Blk(p, |a|), b)
    decreases |b|
  {
    hide PutBlock;
    if b == [] {
      assert a + b == a;
    } else {
      var n := |b| - 1;
      PutBlocksConcat(m, p, a, b[..n]);
      assert (a + b)[..|a + b| - 1] == a + b[..n];
      assert Blk(Blk(p, |a|), n) == Blk(p, |a + b| - 1);
    }
  }

  /** The exit of a chain is the successor of its last block, and nothing else. */
  lemma ExitIsLast(t: Tables, p: int, op: Op, e: int, exit: int)
    requires Legal(op)
    ensures Blocks(t, p, op, e) != [] && Retarget(Blocks(t, p, op, e), exit) == Blocks(t, p, op, exit)
  {
    hide NotBlocks, BitBlocks, IncBlocks, AddBlocks, CmpBlocks, ShiftBlocks, RippleTail, TruthTable;
    match op
    case Not(w, ret, inp) => NotExit(t, p, w, ret, inp, e, exit);
    case And(w, ret, lhs, rhs) => BitExit(t, p, w, ret, lhs, rhs, AndOp, e, exit);
    case Or(w, ret, lhs, rhs) => BitExit(t, p, w, ret, lhs, rhs, OrOp, e, exit);
    case Xor(w, ret, lhs, rhs) => BitExit(t, p, w, ret, lhs, rhs, XorOp, e, exit);
    case Inc(w, ret, inp) => IncExit(t, p, w, ret, inp, e, exit);
    case Add(w, ret, lhs, rhs) => AddExit(t, p, w, ret, lhs, rhs, 1, e, exit);
    case Sub(w, ret, lhs, rhs) => AddExit(t, p, w, ret, lhs, rhs, -1, e, exit);
    case Geu(w, ret, lhs, rhs, f) => CmpExit(t, p, w, ret, lhs, rhs, GeuCmp, f, e, exit);
    case Equ(w, ret, lhs, rhs, f) => CmpExit(t, p, w, ret, lhs, rhs, EquCmp, f, e, exit);
    case Ges(w, ret, lhs, rhs, f) => CmpExit(t, p, w, ret, lhs, rhs, GesCmp, f, e, exit);
    case Shift8(w, ret, inp, shf, kind) => ShiftExit(t, p, w, ret, inp, shf, kind, e, exit);
    case Zero(w, ret) =>
    case SignFill(w, ret, inp) =>
    case Pick(w, ret, tmp, shf, tbl, _) =>
  }

  lemma NotExit(t: Tables, p: int, w: nat, ret: int, inp: int, e: int, exit: int)
    requires w >= 1
    ensures Retarget(NotBlocks(t, p, w, ret, inp, e), exit) == NotBlocks(t, p, w, ret, inp, exit)
  {
    var a, b := Retarget(NotBlocks(t, p, w, ret, inp, e), exit), NotBlocks(t, p, w, ret, inp, exit);
    forall k | 0 <= k < |b| ensures a[k] == b[k] {
      if k >= 1 {
        assert NotBlocks(t, p, w, ret, inp, e)[k] == NotLookup(t, p, w, ret, e, k - 1) && b[k] == NotLookup(t, p, w, ret, exit, k - 1);
      }
    }
  }

  lemma BitExit(t: Tables, p: int, w: nat, ret: int, lhs: int, rhs: int, op: BitOp, e: int, exit: int)
    requires w >= 1
    ensures Retarget(BitBlocks(t, p, w, ret, lhs, rhs, op, e), exit) == BitBlocks(t, p, w, ret, lhs, rhs, op, exit)
  {
    hide BitColumn;
    var a, b := Retarget(BitBlocks(t, p, w, ret, lhs, rhs, op, e), exit), BitBlocks(t, p, w, ret, lhs, rhs, op, exit);
    forall k | 0 <= k < |b| ensures a[k] == b[k] {
      if k >= 2 {
        assert BitBlocks(t, p, w, ret, lhs, rhs, op, e)[k] == BitLookup(t, p, w, ret, op, e, k - 2)
               && b[k] == BitLookup(t, p, w, ret, op, exit, k - 2);
      }
    }
  }

  lemma IncExit(t: Tables, p: int, w: nat, ret: int, inp: int, e: int, exit: int)
    requires w >= 1
    ensures Retarget(IncBlocks(t, p, w, ret, inp, e), exit) == IncBlocks(t, p, w, ret, inp, exit)
  {
    hide IncBlocks, RippleTail;
    var a, b := IncBlocks(t, p, w, ret, inp, e), IncBlocks(t, p, w, ret, inp, exit);
    assert a[..1] == [a[0]] && b[..1] == [b[0]];
    RippleExit(a, b, p, 1, w, ret, t.super + SUPER_INC + 2, t.super + SUPER_INC + 2, false, e, exit);
  }

  lemma AddExit(t: Tables, p: int, w: nat, ret: int, lhs: int, rhs: int, sg: int, e: int, exit: int)
    requires w >= 1
    ensures Retarget(AddBlocks(t, p, w, ret, lhs, rhs, sg, e), exit) == AddBlocks(t, p, w, ret, lhs, rhs, sg, exit)
  {
    hide AddBlocks, RippleTail;
    var a, b := AddBlocks(t, p, w, ret, lhs, rhs, sg, e), AddBlocks(t, p, w, ret, lhs, rhs, sg, exit);
    assert a[..2] == [a[0], a[1]] && b[..2] == [b[0], b[1]];
    RippleExit(a, b, p, 2, w, ret, t.hyper + AddColumn(sg), t.hyper, true, e, exit);
  }

  lemma CmpExit(t: Tables, p: int, w: nat, ret: int, lhs: int, rhs: int, cmp: Cmp, f: Flags, e: int, exit: int)
    requires w >= 1
    ensures Retarget(CmpBlocks(t, p, w, ret, lhs, rhs, cmp, f, e), exit) == CmpBlocks(t, p, w, ret, lhs, rhs, cmp, f, exit)
  {
    hide CmpBlocks, CmpLookup, TruthTable;
    var a, b := Retarget(CmpBlocks(t, p, w, ret, lhs, rhs, cmp, f, e), exit), CmpBlocks(t, p, w, ret, lhs, rhs, cmp, f, exit);
    forall k | 0 <= k < |b| ensures a[k] == b[k] {
      if 2 <= k < w + 2 {
        assert CmpBlocks(t, p, w, ret, lhs, rhs, cmp, f, e)[k] == b[k];
      }
    }
  }

  lemma RippleExit(a: seq<Block>, b: seq<Block>, p: int, c: nat, w: nat, ret: int, first: int, later: int, hyper: bool, e: int, exit: int)
    requires w >= 1 && |a| == |b| == c + 2 * w - 1 && a[..c] == b[..c]
    requires a[c..] == RippleTail(p, c, w, ret, first, later, hyper, e) && b[c..] == RippleTail(p, c, w, ret, first, later, hyper, exit)
    ensures Retarget(a, exit) == b
  {
    hide RippleTail;
    var r := Retarget(a, exit);
    forall k | 0 <= k < |b| ensures r[k] == b[k] {
      if k < c {
        assert a[k] == a[..c][k] && b[k] == b[..c][k];
      } else {
        assert a[k] == a[c..][k - c] && b[k] == b[c..][k - c];
        TailExit(p, c, w, ret, first, later, hyper, e, exit, k - c);
      }
    }
  }

  lemma TailExit(p: int, c: nat, w: nat, ret: int, first: int, later: int, hyper: bool, e: int, exit: int, i: nat)
    requires w >= 1 && i < 2 * w - 1
    ensures var x, y := TailBlock(p, c, w, ret, first, later, hyper, e, i), TailBlock(p, c, w, ret, first, later, hyper, exit, i);
            if i == 2 * w - 2 then y == x.(next := exit) else x == y
  {
  }

  lemma ShiftExit(t: Tables, p: int, w: nat, ret: int, inp: int, shf: int, kind: Kind, e: int, exit: int)
    requires w >= 2
    ensures Retarget(ShiftBlocks(t, p, w, ret, inp, shf, kind, e), exit) == ShiftBlocks(t, p, w, ret, inp, shf, kind, exit)
  {
    hide ShiftBlocks;
    var a, b := ShiftBlocks(t, p, w, ret, inp, shf, kind, e), ShiftBlocks(t, p, w, ret, inp, shf, kind, exit);
    var r := Retarget(a, exit);
    forall k | 0 <= k < |b| ensures r[k] == b[k] {
      if k >= 5 {
        assert a[k] == PairLookup(t, p, w, ret, kind, e, k - 5) && b[k] == PairLookup(t, p, w, ret, kind, exit, k - 5);
      }
    }
  }

  lemma {:induction false} CompileExit(t: Tables, p: int, ops: seq<Op>, e: int, exit: int)
    requires AllLegal(ops) && ops != []
    ensures Compile(t, p, ops, e) != [] && Retarget(Compile(t, p, ops, e), exit) == Compile(t, p, ops, exit)
    decreases |ops|
  {
    hide Size, Legal, Blocks;
    var q := Blk(p, Size(ops[0]));
    if |ops| == 1 {
      assert ops[1..] == [];
      ExitIsLast(t, p, ops[0], e, exit);
    } else {
      CompileExit(t, q, ops[1..], e, exit);
      RetargetConcat(Blocks(t, p, ops[0], q), Compile(t, q, ops[1..], e), exit);
    }
  }

  lemma RetargetConcat(a: seq<Block>, b: seq<Block>, exit: int)
    requires b != []
    ensures Retarget(a + b, exit) == a + Retarget(b, exit)
  {
  }

  /** Compiled code is a program. */
  lemma {:induction false} CompileIsProgram(m: Mem, t: Tables, p: int, ops: seq<Op>)
    requires AllLegal(ops) && Code(m, p, Compile(t, p, ops, 0))
    ensures ProgramAt(m, t, p, ops)
    decreases |ops|
  {
    hide Size, Legal, Blocks, Matches;
    if ops != [] {
      var q := Blk(p, Size(ops[0]));
      var b, c := Blocks(t, p, ops[0], ExitOf(p, ops)), Compile(t, q, ops[1..], 0);
      assert Compile(t, p, ops, 0) == b + c;
      CodeSplit(m, p, b, c);
      CompileIsProgram(m, t, q, ops[1..]);
    }
  }

  lemma CodeSplit(m: Mem, p: int, b: seq<Block>, c: seq<Block>)
    requires Code(m, p, b + c)
    ensures Code(m, p, b) && Code(m, Blk(p, |b|), c)
  {
    hide Matches;
    forall k | 0 <= k < |b| ensures Matches(m, Blk(p, k), b[k]) {
      assert (b + c)[k] == b[k];
    }
    forall k | 0 <= k < |c| ensures Matches(m, Blk(Blk(p, |b|), k), c[k]) {
      assert (b + c)[|b| + k] == c[k] && Blk(Blk(p, |b|), k) == Blk(p, |b| + k);
    }
  }

  // ---------------------------------------------------------------------------------------------
  // Encodability

  lemma OpEncodable(t: Tables, p: int, op: Op, exit: int)
    requires Legal(op) && Located(t, p, Size(op)) && Safe(t, p, Size(op), op) && IsWord(exit)
    ensures AllEncodable(Blocks(t, p, op, exit))
  {
    hide NotBlocks, BitBlocks, IncBlocks, AddBlocks, CmpBlocks, ShiftBlocks, ZeroBlocks, SignFillBlocks, PickBlocks, InTables, Located,
      Placed, Encodable;
    LocatedIsPlaced(t, p, Size(op));
    LocatedInWord(t, p, Size(op));
    assert |Inputs(op)| > 0 ==> Operand(p, Size(op), Inputs(op)[0].0, Inputs(op)[0].1);
    assert |Inputs(op)| > 1 ==> Operand(p, Size(op), Inputs(op)[1].0, Inputs(op)[1].1);
    match op
    case Not(w, ret, inp) => NotEncodable(t, p, w, ret, inp, exit);
    case And(w, ret, lhs, rhs) => BitEncodable(t, p, w, ret, lhs, rhs, AndOp, exit);
    case Or(w, ret, lhs, rhs) => BitEncodable(t, p, w, ret, lhs, rhs, OrOp, exit);
    case Xor(w, ret, lhs, rhs) => BitEncodable(t, p, w, ret, lhs, rhs, XorOp, exit);
    case Inc(w, ret, inp) => IncEncodable(t, p, w, ret, inp, exit);
    case Add(w, ret, lhs, rhs) => AddEncodable(t, p, w, ret, lhs, rhs, 1, exit);
    case Sub(w, ret, lhs, rhs) => AddEncodable(t, p, w, ret, lhs, rhs, -1, exit);
    case Geu(w, ret, lhs, rhs, f) => CmpEncodable(t, p, w, ret, lhs, rhs, GeuCmp, f, exit);
    case Equ(w, ret, lhs, rhs, f) => CmpEncodable(t, p, w, ret, lhs, rhs, EquCmp, f, exit);
    case Ges(w, ret, lhs, rhs, f) => CmpEncodable(t, p, w, ret, lhs, rhs, GesCmp, f, exit);
    case Shift8(w, ret, inp, shf, kind) => ShiftEncodable(t, p, w, ret, inp, shf, kind, exit);
    case Zero(w, ret) => ZeroEncodable(t, p, w, ret, exit);
    case SignFill(w, ret, inp) => SignFillEncodable(t, p, w, ret, inp, exit);
    case Pick(w, ret, tmp, shf, tbl, _) => PickEncodable(t, p, w, ret, tmp, shf, tbl, exit);
  }

  /** An address range inside the 32-bit space. */
  predicate Span(a: int, n: int) {
    0 <= a && a + n <= 0x1_0000_0000
  }

  predicate Chunk(p: int, n: int, exit: int) {
    p > 0 && p + 32 * n <= 0x1_0000_0000 && IsWord(exit)
  }

  lemma NotEncodable(t: Tables, p: int, w: nat, ret: int, inp: int, exit: int)
    requires 1 <= w <= 0x4000 && Placed(t) && Chunk(p, w + 1, exit) && Span(ret, w) && Span(inp, w)
    ensures AllEncodable(NotBlocks(t, p, w, ret, inp, exit))
  {
    hide ShiftPlaced;
    var bs := NotBlocks(t, p, w, ret, inp, exit);
    forall k | 0 <= k < |bs| ensures Encodable(bs[k]) {
      if k >= 1 {
        assert bs[k] == NotLookup(t, p, w, ret, exit, k - 1);
      }
    }
  }

  lemma BitEncodable(t: Tables, p: int, w: nat, ret: int, lhs: int, rhs: int, op: BitOp, exit: int)
    requires 1 <= w <= 0x4000 && Placed(t) && Chunk(p, w + 2, exit) && Span(ret, w) && Span(lhs, w) && Span(rhs, w)
    ensures AllEncodable(BitBlocks(t, p, w, ret, lhs, rhs, op, exit))
  {
    hide ShiftPlaced;
    var bs := BitBlocks(t, p, w, ret, lhs, rhs, op, exit);
    forall k | 0 <= k < |bs| ensures Encodable(bs[k]) {
      if k >= 2 {
        assert bs[k] == BitLookup(t, p, w, ret, op, exit, k - 2);
      }
    }
  }

  lemma IncEncodable(t: Tables, p: int, w: nat, ret: int, inp: int, exit: int)
    requires 1 <= w <= 0x4000 && Placed(t) && Chunk(p, 2 * w, exit) && Span(ret, w) && Span(inp, w)
    ensures AllEncodable(IncBlocks(t, p, w, ret, inp, exit))
  {
    hide ShiftPlaced, IncBlocks, RippleTail;
    TailEncodable(IncBlocks(t, p, w, ret, inp, exit), p, 1, w, ret, t.super + SUPER_INC + 2, t.super + SUPER_INC + 2, false, exit);
  }

  lemma AddEncodable(t: Tables, p: int, w: nat, ret: int, lhs: int, rhs: int, sg: int, exit: int)
    requires 1 <= w <= 0x4000 && Placed(t) && Chunk(p, 2 * w + 1, exit) && Span(ret, w) && Span(lhs, w) && Span(rhs, w)
    ensures AllEncodable(AddBlocks(t, p, w, ret, lhs, rhs, sg, exit))
  {
    hide ShiftPlaced, AddBlocks, RippleTail;
    TailEncodable(AddBlocks(t, p, w, ret, lhs, rhs, sg, exit), p, 2, w, ret, t.hyper + AddColumn(sg), t.hyper, true, exit);
  }

  lemma CmpEncodable(t: Tables, p: int, w: nat, ret: int, lhs: int, rhs: int, cmp: Cmp, f: Flags, exit: int)
    requires 1 <= w <= 0x4000 && Placed(t) && Chunk(p, w + 3, exit) && Span(ret, 1) && Span(lhs, w) && Span(rhs, w)
    ensures AllEncodable(CmpBlocks(t, p, w, ret, lhs, rhs, cmp, f, exit))
  {
    hide ShiftPlaced, CmpBlocks;
    var bs := CmpBlocks(t, p, w, ret, lhs, rhs, cmp, f, exit);
    forall k | 0 <= k < |bs| ensures Encodable(bs[k]) {
      if 2 <= k < w + 2 {
        assert bs[k] == CmpLookup(t, p, w, cmp, k - 2);
      }
    }
  }

  lemma ShiftEncodable(t: Tables, p: int, w: nat, ret: int, inp: int, shf: int, kind: Kind, exit: int)
    requires 2 <= w <= 0x4000 && Placed(t) && Chunk(p, w + 4, exit) && Span(ret, w) && Span(inp, w) && Span(shf, 1)
    ensures AllEncodable(ShiftBlocks(t, p, w, ret, inp, shf, kind, exit))
  {
    hide ShiftBlocks;
    var bs := ShiftBlocks(t, p, w, ret, inp, shf, kind, exit);
    forall k | 0 <= k < |bs| ensures Encodable(bs[k]) {
      if k >= 5 {
        assert bs[k] == PairLookup(t, p, w, ret, kind, exit, k - 5);
      }
    }
  }

  lemma ZeroEncodable(t: Tables, p: int, w: nat, ret: int, exit: int)
    requires 1 <= w <= 0x4000 && Placed(t) && Chunk(p, 1, exit) && Span(ret, w)
    ensures AllEncodable(ZeroBlocks(t, p, w, ret, exit))
  {
    assert ShiftPlaced(t.shift);
  }

  lemma SignFillEncodable(t: Tables, p: int, w: nat, ret: int, inp: int, exit: int)
    requires 1 <= w <= 0x4000 && Placed(t) && Chunk(p, 3, exit) && Span(ret, w) && Span(inp, w)
    ensures AllEncodable(SignFillBlocks(t, p, w, ret, inp, exit))
  {
    assert ShiftPlaced(t.shift);
  }

  lemma PickEncodable(t: Tables, p: int, w: nat, ret: int, tmp: int, shf: int, tbl: int, exit: int)
    requires 1 <= w <= 0x4000 && Placed(t) && Chunk(p, 3, exit) && Span(ret, w) && Span(tmp, w) && Span(shf, 1) && tbl in t.shift.selects
    ensures AllEncodable(PickBlocks(t, p, w, ret, tmp, shf, tbl, exit))
  {
    assert ShiftPlaced(t.shift);
    assert Page(tbl);
  }

  lemma TailBlockEncodable(p: int, c: nat, w: nat, ret: int, first: int, later: int, hyper: bool, exit: int, i: nat)
    requires w >= 1 && i < 2 * w - 1 && Chunk(p, c + 2 * w - 1, exit) && Span(ret, w) && IsWord(first) && IsWord(later)
    ensures Encodable(TailBlock(p, c, w, ret, first, later, hyper, exit, i))
  {
    if i % 2 == 0 {
      assert i == 2 * (i / 2);
    } else {
      assert i == 2 * (i / 2) + 1;
    }
  }

  lemma TailEncodable(bs: seq<Block>, p: int, c: nat, w: nat, ret: int, first: int, later: int, hyper: bool, exit: int)
    requires w >= 1 && |bs| == c + 2 * w - 1 && (forall k :: 0 <= k < c ==> Encodable(bs[k]))
    requires bs[c..] == RippleTail(p, c, w, ret, first, later, hyper, exit)
    requires Chunk(p, |bs|, exit) && Span(ret, w) && IsWord(first) && IsWord(later)
    ensures AllEncodable(bs)
  {
    hide RippleTail, TailBlock, Encodable, Chunk, Span, IsWord;
    forall k | 0 <= k < |bs| ensures Encodable(bs[k]) {
      if k >= c {
        assert bs[k] == bs[c..][k - c] == TailBlock(p, c, w, ret, first, later, hyper, exit, k - c);
        TailBlockEncodable(p, c, w, ret, first, later, hyper, exit, k - c);
      }
    }
  }

  lemma {:induction false} CompileEncodable(t: Tables, base: int, n: nat, p: int, ops: seq<Op>, exit: int)
    requires AllLegal(ops) && AllSafe(t, base, n, ops) && IsWord(exit)
    requires base <= p && p + 32 * TotalSize(ops) <= base + 32 * n && (p - base) % 32 == 0
    ensures AllEncodable(Compile(t, p, ops, exit))
    decreases |ops|
  {
    hide Size, Legal, Blocks, Located, Safe, Encodable;
    if ops != [] {
      var k := Size(ops[0]);
      var q := Blk(p, k);
      LocatedInWord(t, base, n);
      SubLocated(t, base, n, p, k, ops[0]);
      if |ops| > 1 {
        SizePositive(ops[1]);
        assert TotalSize(ops[1..]) >= Size(ops[1]);
      }
      var e := if |ops| == 1 then exit else q;
      OpEncodable(t, p, ops[0], e);
      CompileEncodable(t, base, n, q, ops[1..], exit);
      var b, c := Blocks(t, p, ops[0], e), Compile(t, q, ops[1..], exit);
      forall i | 0 <= i < |b + c| ensures Encodable((b + c)[i]) {
        assert (b + c)[i] == if i < |b| then b[i] else c[i - |b|];
      }
    }
  }

  lemma SizePositive(op: Op)
    requires Legal(op)
    ensures Size(op) >= 1
  {
  }

  lemma LocatedInWord(t: Tables, base: int, n: nat)
    requires Located(t, base, n)
    ensures base > 0 && base + 32 * n <= 0x1_0000_0000
  {
  }

  // ---------------------------------------------------------------------------------------------
  // Emission

  /** Emits a list of operations and closes it with `End`. */
  method EmitAll(ctx: EmitCtx, t: Tables, ops: seq<Op>)
    requires ctx.Valid() && ops != [] && AllLegal(ops) && ctx.Room(TotalSize(ops))
    modifies ctx, ctx.ram
    ensures ctx.Valid() && ctx.p == Blk(old(ctx.p), TotalSize(ops))
    ensures ctx.ram.cells == PutBlocks(old(ctx.ram.cells), old(ctx.p), Compile(t, old(ctx.p), ops, 0))
  {
    hide PutBlocks, PutWord, Compile, Size, Legal, Blocks, TotalSize;
    ghost var m0 := ctx.ram.cells;
    ghost var start := ctx.p;
    EmptyProgram(m0, t, start, ops);
    for i := 0 to |ops|
      invariant ctx.Valid() && AllLegal(ops[..i]) && ctx.p == Blk(start, TotalSize(ops[..i]))
      invariant ctx.ram.cells == PutBlocks(m0, start, Compile(t, start, ops[..i], ctx.p))
    {
      ghost var q := ctx.p;
      ghost var next := Blk(q, Size(ops[i]));
      Fits(ops, i);
      assert ops[..i + 1] == ops[..i] + [ops[i]];
      TotalSizeSnoc(ops[..i], ops[i]);
      CompileSnoc(t, start, ops[..i], ops[i], next);
      PutBlocksConcat(m0, start, Compile(t, start, ops[..i], q), Blocks(t, q, ops[i], next));
      EmitOp(ctx, t, ops[i]);
    }
    assert ops[..|ops|] == ops;
    CompileExit(t, start, ops, ctx.p, 0);
    RebranchLast(m0, start, Compile(t, start, ops, ctx.p), 0);
    ctx.End();
  }

  lemma EmptyProgram(m: Mem, t: Tables, p: int, ops: seq<Op>)
    requires AllLegal(ops)
    ensures AllLegal(ops[..0]) && TotalSize(ops[..0]) == 0 && Compile(t, p, ops[..0], p) == [] && PutBlocks(m, p, []) == m
  {
  }

  lemma {:induction false} Fits(ops: seq<Op>, i: nat)
    requires AllLegal(ops) && i < |ops|
    ensures TotalSize(ops[..i]) + Size(ops[i]) <= TotalSize(ops)
    decreases |ops|
  {
    hide Size, Legal;
    if i == 0 {
      assert ops[..0] == [];
    } else {
      Fits(ops[1..], i - 1);
      assert ops[..i][1..] == ops[1..][..i - 1];
    }
  }

  /** The emitted memory is a program, whatever lay there before; nothing else moved. */
  lemma EmittedIsProgram(t: Tables, m: Mem, base: int, ops: seq<Op>)
    requires ops != [] && AllLegal(ops) && AllSafe(t, base, TotalSize(ops), ops) && Ready(m, t)
    ensures var m1 := PutBlocks(m, base, Compile(t, base, ops, 0));
            ProgramAt(m1, t, base, ops) && Ready(m1, t) && SameData(m, m1, base, TotalSize(ops))
  {
    hide Size, Legal, Blocks, Safe, Code, Compile, PutBlocks, Ready, InTables, Get, Placed;
    var n := TotalSize(ops);
    var bs := Compile(t, base, ops, 0);
    var m1 := PutBlocks(m, base, bs);
    CompileEncodable(t, base, n, base, ops, 0);
    PutBlocksIsCode(m, base, bs);
    CompileIsProgram(m1, t, base, ops);
    assert SameTables(m, m1, t);
    ReadyFrame(m, m1, t);
  }

  /** From emission to execution: running the emitted memory performs the operations. */
  lemma EmittedRuns(t: Tables, m: Mem, base: int, ops: seq<Op>)
    requires ops != [] && AllLegal(ops) && AllSafe(t, base, TotalSize(ops), ops) && Ready(m, t)
    ensures Performed(PutBlocks(m, base, Compile(t, base, ops, 0)), t, base, TotalSize(ops), base, ops)
    ensures SameData(m, PutBlocks(m, base, Compile(t, base, ops, 0)), base, TotalSize(ops))
  {
    hide Size, Legal, Blocks, Safe, Performed, Code, Compile, PutBlocks, Ready, InTables, Get, Placed;
    EmittedIsProgram(t, m, base, ops);
    ProgramRuns(t, PutBlocks(m, base, Compile(t, base, ops, 0)), base, TotalSize(ops), base, ops);
  }
}
