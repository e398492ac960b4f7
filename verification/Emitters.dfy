/** The emitters of the DMA arithmetic library, each proved to append exactly the blocks of its chain. */
module Emitters {
  import opened Memory
  import opened DmaMachine
  import opened Chains
  import opened Walks
  import opened Scatter
  import opened Numbers
  import opened Tables
  import opened ArithBit
  import opened ArithInt
  import opened ArithCmp
  import opened ArithShift
  import opened ArithPick
  import opened Emit

  method EmitNot(ctx: EmitCtx, t: Tables, w: nat, ret: int, inp: int)
    requires ctx.Valid() && 1 <= w < 16 && ctx.Room(w + 1)
    modifies ctx, ctx.ram
    ensures ctx.Valid() && ctx.p == old(ctx.p) + 32 * (w + 1)
    ensures ctx.ram.cells == PutBlocks(old(ctx.ram.cells), old(ctx.p), NotBlocks(t, old(ctx.p), w, ret, inp, ctx.p))
  {
    hide PutBlock, PutBlocks;
    ghost var m0 := ctx.ram.cells;
    var start := ctx.p;
    ghost var bs := NotBlocks(t, start, w, ret, inp, start + 32 * (w + 1));
    PutNone(m0, start, bs);
    ctx.EmitStrided(SrcAt(start, 1, 0), inp, w, 1, 31, 0);
    Append(m0, ctx.ram.cells, start, bs, 0, Plain(bs[0]));
    for i := 0 to w
      invariant ctx.Valid() && ctx.p == Blk(start, 1 + i)
      invariant ctx.ram.cells == PutBlocks(m0, start, bs[..1 + i])
    {
      assert bs[1 + i] == NotLookup(t, start, w, ret, start + 32 * (w + 1), i);
      ctx.Emit(ret + i, t.not, 1);
      Append(m0, ctx.ram.cells, start, bs, 1 + i, Plain(bs[1 + i]));
    }
    assert bs[..w + 1] == bs;
  }

  lemma PutNone(m: Mem, p: int, bs: seq<Block>)
    ensures PutBlocks(m, p, bs[..0]) == m && Blk(p, 0) == p
  {
  }

  /** `And`, `Or` and `Xor`, which differ in the table column only. */
  method EmitBitwise(ctx: EmitCtx, t: Tables, w: nat, ret: int, lhs: int, rhs: int, op: BitOp)
    requires ctx.Valid() && 1 <= w <= 0x4000 && ctx.Room(w + 2)
    modifies ctx, ctx.ram
    ensures ctx.Valid() && ctx.p == old(ctx.p) + 32 * (w + 2)
    ensures ctx.ram.cells == PutBlocks(old(ctx.ram.cells), old(ctx.p), BitBlocks(t, old(ctx.p), w, ret, lhs, rhs, op, ctx.p))
  {
    hide PutBlock, PutBlocks;
    ghost var m0 := ctx.ram.cells;
    var start := ctx.p;
    ghost var bs := BitBlocks(t, start, w, ret, lhs, rhs, op, start + 32 * (w + 2));
    PutNone(m0, start, bs);
    ctx.EmitStrided(SrcAt(start, 2, 1), lhs, w, 1, 31, 0);
    Append(m0, ctx.ram.cells, start, bs, 0, Plain(bs[0]));
    ctx.EmitStrided(SrcAt(start, 2, 2), rhs, w, 1, 31, 0);
    Append(m0, ctx.ram.cells, start, bs, 1, Plain(bs[1]));
    for i := 0 to w
      invariant ctx.Valid() && ctx.p == Blk(start, 2 + i)
      invariant ctx.ram.cells == PutBlocks(m0, start, bs[..2 + i])
    {
      assert bs[2 + i] == BitLookup(t, start, w, ret, op, start + 32 * (w + 2), i);
      ctx.Emit(ret + i, t.hyper + BitColumn(op), 1);
      Append(m0, ctx.ram.cells, start, bs, 2 + i, Plain(bs[2 + i]));
    }
    assert bs[..w + 2] == bs;
  }

  method EmitInc(ctx: EmitCtx, t: Tables, w: nat, ret: int, inp: int)
    requires ctx.Valid() && 1 <= w <= 0x4000 && ctx.Room(2 * w)
    modifies ctx, ctx.ram
    ensures ctx.Valid() && ctx.p == old(ctx.p) + 32 * (2 * w)
    ensures ctx.ram.cells == PutBlocks(old(ctx.ram.cells), old(ctx.p), IncBlocks(t, old(ctx.p), w, ret, inp, ctx.p))
  {
    hide PutBlock, PutBlocks, RippleTail, IncBlocks;
    ghost var m0 := ctx.ram.cells;
    var start := ctx.p;
    ghost var exit := start + 32 * (2 * w);
    ghost var bs := IncBlocks(t, start, w, ret, inp, exit);
    PutNone(m0, start, bs);
    ctx.EmitStrided(SrcAt(start, 1, 1), inp, w, 1, 63, 0);
    Append(m0, ctx.ram.cells, start, bs, 0, Plain(bs[0]));
    for i := 0 to w
      invariant ctx.Valid() && ctx.p == Blk(start, if i == w then 2 * w else 1 + 2 * i)
      invariant ctx.ram.cells == PutBlocks(m0, start, bs[..if i == w then 2 * w else 1 + 2 * i])
    {
      IncLookup(t, start, w, ret, inp, exit, i);
      ctx.Emit(ret + i, t.super + SUPER_INC + 2, if i < w - 1 then 2 else 1);
      Append(m0, ctx.ram.cells, start, bs, 1 + 2 * i, Plain(bs[1 + 2 * i]));
      if i < w - 1 {
        IncCarry(t, start, w, ret, inp, exit, i + 1);
        ctx.Emit(SrcAt(start, 1 + 2 * i + 2, 0), ret + i + 1, 1);
        Append(m0, ctx.ram.cells, start, bs, 2 + 2 * i, Plain(bs[2 + 2 * i]));
      }
    }
    assert bs[..2 * w] == bs;
  }

  lemma IncCarry(t: Tables, p: int, w: nat, ret: int, inp: int, exit: int, k: nat)
    requires 1 <= k < w
    ensures IncBlocks(t, p, w, ret, inp, exit)[2 * k] == CarryBlock(p, 1, ret, k)
  {
    hide IncBlocks, RippleTail;
    var bs := IncBlocks(t, p, w, ret, inp, exit);
    assert bs[2 * k] == bs[1..][2 * k - 1];
    assert (2 * k - 1) % 2 == 1 && (2 * k) / 2 == k;
  }

  /** The blocks of a chain for byte `i` of a sum: the carry moves on, and the next byte is looked up. */
  method EmitCarry(ctx: EmitCtx, t: Tables, start: int, w: nat, ret: int, lhs: int, rhs: int, sg: int, ghost exit: int, i: nat, ghost m0: Mem)
    requires ctx.Valid() && 2 <= w <= 0x4000 && 1 <= i < w && ctx.p == Blk(start, 1 + 2 * i) && ctx.Room(2) && (sg == 1 || sg == -1)
    requires exit == start + 32 * (2 * w + 1)
    requires ctx.ram.cells == PutBlocks(m0, start, AddBlocks(t, start, w, ret, lhs, rhs, sg, exit)[..1 + 2 * i])
    modifies ctx, ctx.ram
    ensures ctx.Valid() && ctx.p == Blk(start, 3 + 2 * i)
    ensures ctx.ram.cells == PutBlocks(m0, start, AddBlocks(t, start, w, ret, lhs, rhs, sg, exit)[..3 + 2 * i])
  {
    hide PutBlock, PutBlocks, RippleTail, AddBlocks;
    ghost var bs := AddBlocks(t, start, w, ret, lhs, rhs, sg, exit);
    AddCarry(t, start, w, ret, lhs, rhs, sg, exit, i);
    ctx.Emit(SrcAt(start, 1 + 2 * i + 1, 0), ret + i, 1);
    Append(m0, ctx.ram.cells, start, bs, 1 + 2 * i, Plain(bs[1 + 2 * i]));
    AddLookup(t, start, w, ret, lhs, rhs, sg, exit, i);
    ctx.Emit(ret + i, t.hyper, if i < w - 1 then 2 else 1);
    Append(m0, ctx.ram.cells, start, bs, 2 + 2 * i, Plain(bs[2 + 2 * i]));
  }

  /** `Add` (sg == 1) and `Sub` (sg == -1). */
  method EmitAddSub(ctx: EmitCtx, t: Tables, w: nat, ret: int, lhs: int, rhs: int, sg: int)
    requires ctx.Valid() && 1 <= w <= 0x4000 && ctx.Room(2 * w + 1) && (sg == 1 || sg == -1)
    modifies ctx, ctx.ram
    ensures ctx.Valid() && ctx.p == old(ctx.p) + 32 * (2 * w + 1)
    ensures ctx.ram.cells == PutBlocks(old(ctx.ram.cells), old(ctx.p), AddChain(t, old(ctx.p), w, ret, lhs, rhs, sg, ctx.p))
  {
    hide PutBlock, PutBlocks, RippleTail, AddBlocks;
    ghost var m0 := ctx.ram.cells;
    var start := ctx.p;
    ghost var exit := start + 32 * (2 * w + 1);
    ghost var bs := AddChain(t, start, w, ret, lhs, rhs, sg, exit);
    PutNone(m0, start, bs);
    ctx.EmitStrided(SrcAt(start, 2, 1), rhs, w, 1, 63, 0);
    Append(m0, ctx.ram.cells, start, bs, 0, Plain(bs[0]));
    ctx.EmitStrided(SrcAt(start, 2, 2), lhs, w, 1, 63, 0);
    Append(m0, ctx.ram.cells, start, bs, 1, Plain(bs[1]));
    if w > 1 {
      AddLookup(t, start, w, ret, lhs, rhs, sg, exit, 0);
    }
    ctx.Emit(ret, t.hyper + AddColumn(sg), 2);
    Append(m0, ctx.ram.cells, start, bs, 2, Plain(bs[2]));
    for i := 1 to w
      invariant ctx.Valid() && ctx.p == Blk(start, 1 + 2 * i)
      invariant ctx.ram.cells == PutBlocks(m0, start, bs[..1 + 2 * i])
    {
      EmitCarry(ctx, t, start, w, ret, lhs, rhs, sg, exit, i, m0);
    }
    assert bs[..2 * w + 1] == bs;
  }

  lemma AddCarry(t: Tables, p: int, w: nat, ret: int, lhs: int, rhs: int, sg: int, exit: int, k: nat)
    requires 1 <= k < w
    ensures AddBlocks(t, p, w, ret, lhs, rhs, sg, exit)[1 + 2 * k] == CarryBlock(p, 2, ret, k)
  {
    hide AddBlocks, RippleTail;
    var bs := AddBlocks(t, p, w, ret, lhs, rhs, sg, exit);
    assert bs[1 + 2 * k] == bs[2..][2 * k - 1];
    assert (2 * k - 1) % 2 == 1 && (2 * k) / 2 == k;
  }

  /** `Geu` and `Equ`. */
  method EmitForward(ctx: EmitCtx, t: Tables, w: nat, ret: int, lhs: int, rhs: int, cmp: Cmp, f: Flags)
    requires ctx.Valid() && 1 <= w <= 0x4000 && ctx.Room(w + 3) && !cmp.GesCmp?
    modifies ctx, ctx.ram
    ensures ctx.Valid() && ctx.p == old(ctx.p) + 32 * (w + 3)
    ensures ctx.ram.cells == PutBlocks(old(ctx.ram.cells), old(ctx.p), CmpBlocks(t, old(ctx.p), w, ret, lhs, rhs, cmp, f, ctx.p))
  {
    hide PutBlock, PutBlocks, CmpBlocks;
    ghost var m0 := ctx.ram.cells;
    var start := ctx.p;
    ghost var exit := start + 32 * (w + 3);
    ghost var bs := CmpBlocks(t, start, w, ret, lhs, rhs, cmp, f, exit);
    PutNone(m0, start, bs);
    ctx.EmitStrided(SrcAt(start, 2, 1), rhs, w, 1, 31, 0);
    Append(m0, ctx.ram.cells, start, bs, 0, Plain(bs[0]));
    ctx.EmitStrided(SrcAt(start, 2, 2), lhs, w, 1, 31, 0);
    Append(m0, ctx.ram.cells, start, bs, 1, Plain(bs[1]));
    for i := 0 to w
      invariant ctx.Valid() && ctx.p == Blk(start, 2 + i)
      invariant ctx.ram.cells == PutBlocks(m0, start, bs[..2 + i])
    {
      assert bs[2 + i] == CmpLookup(t, start, w, cmp, i);
      ctx.Emit(SrcAt(start, 2 + i + 1, 0), t.hyper + CmpColumn(cmp) + CmpInit(cmp), 1);
      Append(m0, ctx.ram.cells, start, bs, 2 + i, Plain(bs[2 + i]));
    }
    ctx.Emit(ret, TruthTable(t, f), 1);
    Append(m0, ctx.ram.cells, start, bs, w + 2, Plain(bs[w + 2]));
    assert bs[..w + 3] == bs;
  }

  /** Appending a block and redirecting it is appending the redirected block. */
  lemma AppendBranch(m: Mem, m1: Mem, m': Mem, p: int, bs: seq<Block>, k: nat, b: Block)
    requires k < |bs| && Plain(bs[k]) == b.(next := bs[k].next)
    requires m1 == PutBlock(PutBlocks(m, p, bs[..k]), Blk(p, k), b) && m' == PutWord(m1, Blk(p, k) + 20, bs[k].next)
    ensures m' == PutBlocks(m, p, bs[..k + 1])
  {
    hide PutBlock, PutBlocks, PutWord;
    Rebranch(PutBlocks(m, p, bs[..k]), Blk(p, k), b, bs[k].next);
    Append(m, m', p, bs, k, Plain(bs[k]));
  }

  /** `Ges`, whose lookups run from high to low through explicit branches. */
  method EmitGes(ctx: EmitCtx, t: Tables, w: nat, ret: int, lhs: int, rhs: int, f: Flags)
    requires ctx.Valid() && 1 <= w <= 0x4000 && ctx.Room(w + 3)
    modifies ctx, ctx.ram
    ensures ctx.Valid() && ctx.p == old(ctx.p) + 32 * (w + 3)
    ensures ctx.ram.cells == PutBlocks(old(ctx.ram.cells), old(ctx.p), CmpBlocks(t, old(ctx.p), w, ret, lhs, rhs, GesCmp, f, ctx.p))
  {
    hide PutBlock, PutBlocks, CmpBlocks, PutWord;
    ghost var m0 := ctx.ram.cells;
    var start := ctx.p;
    ghost var exit := start + 32 * (w + 3);
    ghost var bs := CmpBlocks(t, start, w, ret, lhs, rhs, GesCmp, f, exit);
    PutNone(m0, start, bs);
    ctx.EmitStrided(SrcAt(start, 2, 1), rhs, w, 1, 31, 0);
    Append(m0, ctx.ram.cells, start, bs, 0, Plain(bs[0]));
    ctx.EmitStrided(SrcAt(start, 2, 2), lhs, w, 1, 31, 0);
    ghost var m1 := ctx.ram.cells;
    ctx.Branch(Blk(start, w + 1));
    AppendBranch(m0, m1, ctx.ram.cells, start, bs, 1, Plain(bs[1]).(next := ctx.p));
    for i := 0 to w
      invariant ctx.Valid() && ctx.p == Blk(start, 2 + i)
      invariant ctx.ram.cells == PutBlocks(m0, start, bs[..2 + i])
    {
      assert bs[2 + i] == CmpLookup(t, start, w, GesCmp, i);
      var next := if i != 0 then 2 + i - 1 else 2 + w;
      ctx.Emit(SrcAt(start, next, 0), t.hyper + HYPER_GES, 1);
      m1 := ctx.ram.cells;
      ctx.Branch(Blk(start, next));
      AppendBranch(m0, m1, ctx.ram.cells, start, bs, 2 + i, Plain(bs[2 + i]).(next := ctx.p));
    }
    ctx.Emit(ret, TruthTable(t, f), 1);
    Append(m0, ctx.ram.cells, start, bs, w + 2, Plain(bs[w + 2]));
    assert bs[..w + 3] == bs;
  }

  /** `Sll8`, `Srl8` and `Sra8`. */
  method EmitShift8(ctx: EmitCtx, t: Tables, w: nat, ret: int, inp: int, shf: int, kind: Kind)
    requires ctx.Valid() && 2 <= w <= 0x4000 && ctx.Room(w + 4)
    modifies ctx, ctx.ram
    ensures ctx.Valid() && ctx.p == old(ctx.p) + 32 * (w + 4)
    ensures ctx.ram.cells == PutBlocks(old(ctx.ram.cells), old(ctx.p), ShiftBlocks(t, old(ctx.p), w, ret, inp, shf, kind, ctx.p))
  {
    hide PutBlock, PutBlocks, ShiftBlocks;
    ghost var m0 := ctx.ram.cells;
    var start := ctx.p;
    ghost var exit := start + 32 * (w + 4);
    ghost var bs := ShiftBlocks(t, start, w, ret, inp, shf, kind, exit);
    PutNone(m0, start, bs);
    ctx.EmitStrided(SrcAt(start, 5, 1), inp, w - 1, 2, 30, -1);
    Append(m0, ctx.ram.cells, start, bs, 0, Plain(bs[0]));
    if kind.Sra? {
      ctx.EmitStridedWith(TI_FILL_2D, SrcAt(start, 2, 0), shf, 2, 1, 63, 0);
      Append(m0, ctx.ram.cells, start, bs, 1, Plain(bs[1]));
      ctx.EmitStridedWith(TI_FILL_2D, SrcAt(start, 5, 0), t.shift.srlSelect, w - 1, 1, 31, 0);
    } else {
      ctx.Emit(SrcAt(start, 2, 0), shf, 1);
      Append(m0, ctx.ram.cells, start, bs, 1, Plain(bs[1]));
      ctx.EmitStridedWith(TI_FILL_2D, SrcAt(start, 4, 0), SelectPage(t, kind), w, 1, 31, 0);
    }
    Append(m0, ctx.ram.cells, start, bs, 2, Plain(bs[2]));
    ctx.Emit(SrcAt(start, 4, EndSlot(kind)), inp + EndByte(kind, w), 1);
    Append(m0, ctx.ram.cells, start, bs, 3, Plain(bs[3]));
    ctx.Emit(ret + EndByte(kind, w), if kind.Sra? then t.shift.sraHi else t.hyper, 1);
    Append(m0, ctx.ram.cells, start, bs, 4, Plain(bs[4]));
    for i := 0 to w - 1
      invariant ctx.Valid() && ctx.p == Blk(start, 5 + i)
      invariant ctx.ram.cells == PutBlocks(m0, start, bs[..5 + i])
    {
      assert bs[5 + i] == PairLookup(t, start, w, ret, kind, exit, i);
      ctx.Emit(if kind.Sll? then ret + 1 + i else ret + i, t.hyper, 1);
      Append(m0, ctx.ram.cells, start, bs, 5 + i, Plain(bs[5 + i]));
    }
    assert bs[..w + 4] == bs;
  }

  method EmitZero(ctx: EmitCtx, t: Tables, w: nat, ret: int)
    requires ctx.Valid() && ctx.Room(1)
    modifies ctx, ctx.ram
    ensures ctx.Valid() && ctx.p == old(ctx.p) + 32
    ensures ctx.ram.cells == PutBlocks(old(ctx.ram.cells), old(ctx.p), ZeroBlocks(t, old(ctx.p), w, ret, ctx.p))
  {
    hide PutBlock, PutBlocks;
    ghost var m0 := ctx.ram.cells;
    var start := ctx.p;
    ghost var bs := ZeroBlocks(t, start, w, ret, start + 32);
    PutNone(m0, start, bs);
    ctx.Emit(ret, t.shift.zero, w);
    Append(m0, ctx.ram.cells, start, bs, 0, Plain(bs[0]));
    assert bs[..1] == bs;
  }

  method EmitSignFill(ctx: EmitCtx, t: Tables, w: nat, ret: int, inp: int)
    requires ctx.Valid() && ctx.Room(3)
    modifies ctx, ctx.ram
    ensures ctx.Valid() && ctx.p == old(ctx.p) + 32 * 3
    ensures ctx.ram.cells == PutBlocks(old(ctx.ram.cells), old(ctx.p), SignFillBlocks(t, old(ctx.p), w, ret, inp, ctx.p))
  {
    hide PutBlock, PutBlocks;
    ghost var m0 := ctx.ram.cells;
    var start := ctx.p;
    ghost var bs := SignFillBlocks(t, start, w, ret, inp, start + 32 * 3);
    PutNone(m0, start, bs);
    ctx.Emit(SrcAt(start, 1, 0), inp + w - 1, 1);
    Append(m0, ctx.ram.cells, start, bs, 0, Plain(bs[0]));
    ctx.Emit(SrcAt(start, 2, 0), t.shift.sextWhich, 1);
    Append(m0, ctx.ram.cells, start, bs, 1, Plain(bs[1]));
    ctx.EmitWith(TI_DST_INC, ret, t.shift.sextBufs, w);
    Append(m0, ctx.ram.cells, start, bs, 2, Plain(bs[2]));
    assert bs[..3] == bs;
  }

  method EmitPick(ctx: EmitCtx, t: Tables, w: nat, ret: int, tmp: int, shf: int, tbl: int)
    requires ctx.Valid() && ctx.Room(3)
    modifies ctx, ctx.ram
    ensures ctx.Valid() && ctx.p == old(ctx.p) + 32 * 3
    ensures ctx.ram.cells == PutBlocks(old(ctx.ram.cells), old(ctx.p), PickBlocks(t, old(ctx.p), w, ret, tmp, shf, tbl, ctx.p))
  {
    hide PutBlock, PutBlocks;
    ghost var m0 := ctx.ram.cells;
    var start := ctx.p;
    ghost var bs := PickBlocks(t, start, w, ret, tmp, shf, tbl, start + 32 * 3);
    PutNone(m0, start, bs);
    ctx.Emit(SrcAt(start, 1, 0), shf, 1);
    Append(m0, ctx.ram.cells, start, bs, 0, Plain(bs[0]));
    ctx.Emit(SrcAt(start, 2, 0), tbl, 1);
    Append(m0, ctx.ram.cells, start, bs, 1, Plain(bs[1]));
    ctx.Emit(ret, tmp, w);
    Append(m0, ctx.ram.cells, start, bs, 2, Plain(bs[2]));
    assert bs[..3] == bs;
  }
}
