/** The buffer arena, the byte-shift tables made in it, and the emitters that allocate from it. */
module Arenas {
  import opened Memory
  import opened DmaMachine
  import opened Chains
  import opened Walks
  import opened Numbers
  import opened Tables
  import opened Arith
  import opened ArithShift
  import opened DmaProgram
  import opened DmaCompound
  import opened Emit
  import opened Emitters
  import opened EmitProgram

  // ---------------------------------------------------------------------------------------------
  // Allocation

  predicate PowerOfTwo(a: int) {
    a == 1 || (a > 1 && a % 2 == 0 && PowerOfTwo(a / 2))
  }

  /** The least multiple of `a` from `q` on. */
  function AlignUp(q: int, a: int): (r: int)
    requires a >= 1
    ensures q <= r < q + a && r % a == 0
  {
    var x := q + a - 1;
    assert x == a * (x / a) + x % a;
    MultipleMod(a, x / a);
    x - x % a
  }

  lemma MultipleMod(a: int, k: int)
    requires a >= 1
    ensures a * k % a == 0
  {
    DivModUnique(a * k, a, k, 0);
  }

  /** Clearing the low bits with the negated alignment rounds down. */
  lemma {:induction false} MaskRoundsDown(x: nat, a: int, n: nat)
    requires PowerOfTwo(a) && a <= Pow(2, n) && x < Pow(2, n)
    ensures Bitwise(AndOp, x, Pow(2, n) - a) == x - x % a
    decreases n
  {
    if a == 1 {
      FullMask(x, n);
    } else {
      var b := a / 2;
      var q := Pow(2, n - 1);
      assert Pow(2, n) == 2 * q && a == 2 * b;
      MaskRoundsDown(x / 2, b, n - 1);
      assert x % a == x % 2 + 2 * (x / 2 % b) by { HalvedMod(x, b); }
      if x != 0 || Pow(2, n) - a != 0 {
        assert (2 * q - 2 * b) / 2 == q - b && (2 * q - 2 * b) % 2 == 0;
        assert Bitwise(AndOp, x, 2 * q - 2 * b) == Bit(AndOp, x % 2, 0) + 2 * Bitwise(AndOp, x / 2, q - b);
      }
    }
  }

  lemma HalvedMod(x: nat, b: int)
    requires b >= 1
    ensures x % (2 * b) == x % 2 + 2 * (x / 2 % b)
  {
    var h := x / 2;
    assert h == b * (h / b) + h % b;
    assert x == 2 * b * (h / b) + (x % 2 + 2 * (h % b));
    DivModUnique(x, 2 * b, h / b, x % 2 + 2 * (h % b));
  }

  lemma {:induction false} FullMask(x: nat, n: nat)
    requires x < Pow(2, n)
    ensures Bitwise(AndOp, x, Pow(2, n) - 1) == x
    decreases n
  {
    if n != 0 {
      var q := Pow(2, n - 1);
      FullMask(x / 2, n - 1);
      assert (2 * q - 1) / 2 == q - 1 && (2 * q - 1) % 2 == 1;
    }
  }

  lemma Pow2to32()
    ensures Pow(2, 32) == 0x1_0000_0000
  {
    PowTwo8();
    PowAdd(2, 8, 8);
    PowAdd(2, 16, 16);
  }

  class Arena {
    const start: int
    const end: int
    var p: int
    var util: nat

    predicate Valid()
      reads this
    {
      0 < start <= p <= end <= 0xFFFF_FF00
    }

    /** Without this the allocation panics. */
    predicate Fits(size: nat, align: int)
      requires align >= 1
      reads this
    {
      AlignUp(p, align) + size < end
    }

    constructor (start: int, end: int)
      requires 0 < start <= end <= 0xFFFF_FF00
      ensures Valid() && this.start == start && this.end == end && p == start && util == 0
    {
      this.start, this.end, this.p, this.util := start, end, start, 0;
    }

    /** Hands out an aligned piece that no earlier piece overlaps: pieces lie below `p`, this one from `p` on. */
    method Alloc(size: nat, align: int) returns (q: int)
      requires Valid() && align <= 0x100 && PowerOfTwo(align) && Fits(size, align)
      modifies this
      ensures Valid() && q == AlignUp(old(p), align) && p == q + size && util == old(util) + size
    {
      Pow2to32();
      MaskRoundsDown(p + align - 1, align, 32);
      q := Bitwise(AndOp, p + align - 1, 0x1_0000_0000 - align);
      p := q + size;
      util := util + size;
    }
  }

  // ---------------------------------------------------------------------------------------------
  // Byte-shift tables

  /** Memory with the first `n` entries of a byte-shift table filled in. */
  function FillSelect(m: Mem, b: int, sel: Select, n: nat): Mem
    requires 1 <= sel.width < 128
  {
    if n == 0 then m else Put(FillSelect(m, b, sel, n - 1), b + n - 1, SelectValue(sel, n - 1))
  }

  lemma {:induction false} FillSelectReads(m: Mem, b: int, sel: Select, n: nat)
    requires 1 <= sel.width < 128
    ensures forall x :: Get(FillSelect(m, b, sel, n), x) == if b <= x < b + n then SelectValue(sel, x - b) else Get(m, x)
  {
    hide Get, SelectValue, Put;
    if n != 0 {
      FillSelectReads(m, b, sel, n - 1);
      PutReads(FillSelect(m, b, sel, n - 1), b + n - 1, SelectValue(sel, n - 1));
    }
  }

  method MakeSelect(ram: Ram, b: int, sel: Select)
    requires 1 <= sel.width < 128
    modifies ram
    ensures ram.cells == FillSelect(old(ram.cells), b, sel, 256)
  {
    for i := 0 to 256
      invariant ram.cells == FillSelect(old(ram.cells), b, sel, i)
    {
      ram.Store(b + i, if sel.left then sel.width - i / 8 % sel.width else i / 8 % sel.width);
    }
  }

  /** The tables together with one more byte-shift table. */
  function WithSelect(t: Tables, b: int, sel: Select): Tables {
    t.(shift := t.shift.(selects := t.shift.selects[b := sel]))
  }

  lemma InWithSelect(t: Tables, b: int, sel: Select, a: int)
    requires b % 0x100 == 0
    ensures InTables(WithSelect(t, b, sel), a) <==> InTables(t, a) || InRange(b, 0x100, a)
  {
    assert InRange(b, 0x100, a) <==> a - a % 0x100 == b;
  }

  lemma PlacedWithSelect(t: Tables, b: int, sel: Select)
    requires Placed(t) && Page(b) && 1 <= sel.width < 128
    ensures Placed(WithSelect(t, b, sel))
  {
    hide Page;
  }

  /** A freshly made table joins the tables that the chains rely on. */
  lemma SelectMade(m: Mem, t: Tables, b: int, sel: Select)
    requires Ready(m, t) && Placed(t) && Page(b) && 1 <= sel.width < 128
    requires forall a :: InRange(b, 0x100, a) ==> !InTables(t, a)
    ensures Ready(FillSelect(m, b, sel, 256), WithSelect(t, b, sel)) && Placed(WithSelect(t, b, sel))
  {
    hide Placed, InTables, SelectValue, FillSelect, Get, RippleTable, IncTable, NotTable, BitTable, CmpTable, TruthTables, ShiftReady;
    var m', t' := FillSelect(m, b, sel, 256), WithSelect(t, b, sel);
    PlacedWithSelect(t, b, sel);
    FillSelectReads(m, b, sel, 256);
    assert SameTables(m, m', t);
    ReadyFrame(m, m', t);
    OtherTables(m', t, b, sel);
    ShiftWithSelect(m', t, b, sel);
  }

  lemma OtherTables(m: Mem, t: Tables, b: int, sel: Select)
    requires Ready(m, t)
    ensures var t' := WithSelect(t, b, sel);
            && RippleTable(m, t', HYPER_ADD, 1) && RippleTable(m, t', HYPER_SUB, -1) && IncTable(m, t') && NotTable(m, t')
            && (forall op: BitOp :: BitTable(m, t', op))
            && (forall cmp: Cmp :: CmpTable(m, t', cmp) && TruthTables(m, t', cmp))
  {
    hide RippleEntry, NotEntry, BitEntry, CmpEntry, ShiftReady, Get, TruthValue;
    var t' := WithSelect(t, b, sel);
    SameRows(t, b, sel);
    forall op: BitOp ensures BitTable(m, t', op) { assert BitTable(m, t, op); }
    forall cmp: Cmp ensures CmpTable(m, t', cmp) && TruthTables(m, t', cmp) {
      assert CmpTable(m, t, cmp) && TruthTables(m, t, cmp);
      forall f: Flags, st | 0 <= st < CmpStates(cmp) ensures TruthEntry(m, t', cmp, f, st) {
        assert TruthEntry(m, t, cmp, f, st);
      }
    }
  }

  lemma SameRows(t: Tables, b: int, sel: Select)
    ensures var t' := WithSelect(t, b, sel);
            (forall i, j :: HyperRow(t', i, j) == HyperRow(t, i, j)) && (forall i :: SuperRow(t', i) == SuperRow(t, i))
  {
  }

  lemma ShiftWithSelect(m: Mem, t: Tables, b: int, sel: Select)
    requires ShiftReady(m, t) && 1 <= sel.width < 128
    requires forall x :: b <= x < b + 256 ==> Get(m, x) == SelectValue(sel, x - b)
    ensures ShiftReady(m, WithSelect(t, b, sel))
  {
    hide SllEntry, SrlEntry, Get, SelectValue;
    var t' := WithSelect(t, b, sel);
    SameRows(t, b, sel);
    forall i: byte, j: byte ensures SraEntry(m, t'.shift, i, j) { assert SraEntry(m, t.shift, i, j); }
    forall i: byte ensures ShiftPageEntry(m, t'.shift, i) { assert ShiftPageEntry(m, t.shift, i); }
    forall c, i: byte | c in t'.shift.selects && t'.shift.selects[c].width >= 1 ensures SelectEntry(m, c, t'.shift.selects[c], i) {
      if c == b {
        assert b <= b + i < b + 256 && b + i - b == i;
      } else {
        assert SelectEntry(m, c, t.shift.selects[c], i);
      }
    }
  }

  // ---------------------------------------------------------------------------------------------
  // Emitters that allocate

  /** Appending an operation to emitted code is emitting the longer program. */
  lemma EmitMore(m: Mem, t: Tables, p: int, ops: seq<Op>, op: Op, exit: int)
    requires AllLegal(ops) && Legal(op)
    ensures AllLegal(ops + [op])
    ensures var q := Blk(p, TotalSize(ops));
            PutBlocks(PutBlocks(m, p, Compile(t, p, ops, q)), q, Blocks(t, q, op, exit)) == PutBlocks(m, p, Compile(t, p, ops + [op], exit))
  {
    hide PutBlocks, Compile, Blocks, Legal, TotalSize, Size;
    var q := Blk(p, TotalSize(ops));
    CompileSnoc(t, p, ops, op, exit);
    PutBlocksConcat(m, p, Compile(t, p, ops, q), Blocks(t, q, op, exit));
  }

  lemma OneOp(t: Tables, p: int, op: Op, exit: int)
    requires Legal(op)
    ensures AllLegal([op]) && TotalSize([op]) == Size(op) && Compile(t, p, [op], exit) == Blocks(t, p, op, exit)
  {
    hide Legal, Size, Blocks;
    assert [op][1..] == [];
    assert Compile(t, p, [op], exit) == Blocks(t, p, op, exit) + Compile(t, Blk(p, Size(op)), [op][1..], exit);
  }

  lemma Sizes(a: Op, b: Op, c: Op)
    requires Legal(a) && Legal(b) && Legal(c)
    ensures AllLegal([a, b]) && TotalSize([a, b]) == Size(a) + Size(b)
    ensures AllLegal([a, b, c]) && TotalSize([a, b, c]) == Size(a) + Size(b) + Size(c)
  {
    hide Legal, Size;
    OneOp(Tables(0, 0, 0, 0, 0, 0, 0, ShiftTables(0, 0, 0, 0, 0, 0, map[])), 0, a, 0);
    TotalSizeSnoc([a], b);
    TotalSizeSnoc([a, b], c);
    assert [a] + [b] == [a, b] && [a, b] + [c] == [a, b, c];
  }

  method EmitTwo(ctx: EmitCtx, t: Tables, a: Op, b: Op)
    requires ctx.Valid() && Legal(a) && Legal(b) && ctx.Room(Size(a) + Size(b))
    modifies ctx, ctx.ram
    ensures ctx.Valid() && ctx.p == Blk(old(ctx.p), Size(a) + Size(b)) && AllLegal([a, b])
    ensures ctx.ram.cells == PutBlocks(old(ctx.ram.cells), old(ctx.p), Compile(t, old(ctx.p), [a, b], ctx.p))
  {
    hide PutBlocks, Compile, Blocks, Legal, Size, TotalSize;
    ghost var m0, p0 := ctx.ram.cells, ctx.p;
    EmitOp(ctx, t, a);
    OneOp(t, p0, a, ctx.p);
    EmitMore(m0, t, p0, [a], b, Blk(ctx.p, Size(b)));
    assert [a] + [b] == [a, b];
    EmitOp(ctx, t, b);
  }

  method EmitThree(ctx: EmitCtx, t: Tables, a: Op, b: Op, c: Op)
    requires ctx.Valid() && Legal(a) && Legal(b) && Legal(c) && ctx.Room(Size(a) + Size(b) + Size(c))
    modifies ctx, ctx.ram
    ensures ctx.Valid() && ctx.p == Blk(old(ctx.p), Size(a) + Size(b) + Size(c)) && AllLegal([a, b, c])
    ensures ctx.ram.cells == PutBlocks(old(ctx.ram.cells), old(ctx.p), Compile(t, old(ctx.p), [a, b, c], ctx.p))
  {
    hide PutBlocks, Compile, Blocks, Legal, Size, TotalSize;
    ghost var m0, p0 := ctx.ram.cells, ctx.p;
    EmitTwo(ctx, t, a, b);
    Sizes(a, b, c);
    EmitMore(m0, t, p0, [a, b], c, Blk(ctx.p, Size(c)));
    assert [a, b] + [c] == [a, b, c];
    EmitOp(ctx, t, c);
  }

  function ShiftProgram(kind: Kind, w: nat, ret: int, inp: int, shf: int, tmp: int, tbl: int): seq<Op> {
    match kind
    case Sll => SllProgram(w, ret, inp, shf, tmp, tbl)
    case Srl => SrlProgram(w, ret, inp, shf, tmp, tbl)
    case Sra => SraProgram(w, ret, inp, shf, tmp, tbl)
  }

  lemma ShiftProgramLegal(kind: Kind, w: nat, ret: int, inp: int, shf: int, tmp: int, tbl: int)
    requires 2 <= w < 128
    ensures var ops := ShiftProgram(kind, w, ret, inp, shf, tmp, tbl);
            AllLegal(ops) && TotalSize(ops) == ShiftSize(kind, w)
  {
    hide TotalSize;
    var ops := ShiftProgram(kind, w, ret, inp, shf, tmp, tbl);
    Sizes(ops[0], ops[1], ops[2]);
  }

  function ShiftSize(kind: Kind, w: nat): nat {
    if kind.Sra? then w + 10 else w + 8
  }

  /** Where a shift puts its byte-shift table and its double-width buffer when the arena stands at `q`. */
  function ShiftTable(q: int): int {
    AlignUp(q, 0x100)
  }

  function ShiftBuffer(q: int): int {
    AlignUp(ShiftTable(q) + 0x100, 0x100)
  }

  /** `Sll`, `Srl` and `Sra`: a table, a buffer, and three operations on them. */
  method EmitShift(ctx: EmitCtx, arena: Arena, t: Tables, kind: Kind, w: nat, ret: int, inp: int, shf: int) returns (t': Tables)
    requires ctx.Valid() && arena.Valid() && 2 <= w < 128 && ctx.Room(ShiftSize(kind, w))
    requires ShiftBuffer(arena.p) + 2 * w < arena.end
    modifies ctx, ctx.ram, arena
    ensures ctx.Valid() && ctx.p == Blk(old(ctx.p), ShiftSize(kind, w))
    ensures arena.Valid() && arena.p == ShiftBuffer(old(arena.p)) + 2 * w
    ensures t' == WithSelect(t, ShiftTable(old(arena.p)), Select(w, kind.Sll?))
    ensures var tbl, tmp := ShiftTable(old(arena.p)), ShiftBuffer(old(arena.p));
            var ops := ShiftProgram(kind, w, ret, inp, shf, tmp, tbl);
            && AllLegal(ops)
            && ctx.ram.cells == PutBlocks(FillSelect(old(ctx.ram.cells), tbl, Select(w, kind.Sll?), 256), old(ctx.p),
                                          Compile(t', old(ctx.p), ops, ctx.p))
  {
    hide PutBlocks, Compile, Blocks, FillSelect;
    var sel := Select(w, kind.Sll?);
    var tbl := arena.Alloc(256, 256);
    MakeSelect(ctx.ram, tbl, sel);
    t' := WithSelect(t, tbl, sel);
    var tmp := arena.Alloc(2 * w, 256);
    match kind {
      case Sll => EmitThree(ctx, t', Zero(w, tmp), Shift8(w, tmp + w, inp, shf, Sll), Pick(w, ret, tmp, shf, tbl, true));
      case Srl => EmitThree(ctx, t', Zero(w, tmp), Shift8(w, tmp, inp, shf, Srl), Pick(w, ret, tmp, shf, tbl, false));
      case Sra => EmitThree(ctx, t', SignFill(w, tmp + w, inp), Shift8(w, tmp, inp, shf, Sra), Pick(w, ret, tmp, shf, tbl, false));
    }
  }

  function NegAlign(w: nat): nat {
    if w < 4 then w else 4
  }

  /** `Neg` cannot place its buffer for width 3: the alignment it asks for is no power of two. */
  lemma NegWidths(w: nat)
    requires 1 <= w < 16
    ensures PowerOfTwo(NegAlign(w)) <==> w != 3
  {
    assert PowerOfTwo(1);
    assert PowerOfTwo(2);
    assert PowerOfTwo(4);
  }

  function NegBuffer(w: nat, q: int): int
    requires w >= 1
  {
    AlignUp(q, NegAlign(w))
  }

  /** `Neg`: the complement into a buffer, and its increment into the result. */
  method EmitNeg(ctx: EmitCtx, arena: Arena, t: Tables, w: nat, ret: int, inp: int)
    requires ctx.Valid() && arena.Valid() && 1 <= w < 16 && w != 3 && ctx.Room(3 * w + 1)
    requires NegBuffer(w, arena.p) + w < arena.end
    modifies ctx, ctx.ram, arena
    ensures ctx.Valid() && ctx.p == Blk(old(ctx.p), 3 * w + 1)
    ensures arena.Valid() && arena.p == NegBuffer(w, old(arena.p)) + w
    ensures var ops := NegProgram(w, ret, inp, NegBuffer(w, old(arena.p)));
            AllLegal(ops) && ctx.ram.cells == PutBlocks(old(ctx.ram.cells), old(ctx.p), Compile(t, old(ctx.p), ops, ctx.p))
  {
    hide PutBlocks, Compile, Blocks;
    NegWidths(w);
    var tmp := arena.Alloc(w, NegAlign(w));
    EmitTwo(ctx, t, Not(w, tmp, inp), Inc(w, ret, tmp));
  }
}
