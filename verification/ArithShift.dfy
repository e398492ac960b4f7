/** The chains of the shifts: shifts within a byte, sign filling, and the byte-wise pick. */
module ArithShift {
  import opened Memory
  import opened DmaMachine
  import opened Chains
  import opened Walks
  import opened Scatter
  import opened Numbers
  import opened Tables
  import opened Arith

  // ---------------------------------------------------------------------------------------------
  // Two more transfer shapes

  const TI_FILL_2D := TI_DST_INC + TI_2DMODE

  /** A block that repeats one source byte over rows of one column. */
  function FillBlock(dst: int, src: int, rows: int, pitch: int, next: int, open0: bool): Block {
    Block(TI_FILL_2D, src, dst, (rows - 1) * 0x1_0000 + 1, (pitch - 1) * 0x1_0000, next, open0, false, false)
  }

  /** A block that moves overlapping pairs of source bytes into SRC bytes 1 and 2 of consecutive blocks. */
  function PairBlock(dst: int, src: int, rows: int, next: int): Block {
    Block(TI_COPY_2D, src, dst, (rows - 1) * 0x1_0000 + 2, 30 * 0x1_0000 + 0xFFFF, next, false, false, false)
  }

  lemma StepFill(s: State, b: Block, rows: int, pitch: int)
    requires s.cb != 0 && Matches(s.mem, s.cb, b)
    requires b.ti == TI_FILL_2D && 1 <= rows <= 0x4000 && b.len == (rows - 1) * 0x1_0000 + 1
    requires 1 <= pitch <= 0x8000 && b.stride == (pitch - 1) * 0x1_0000
    ensures Step(s) == State(Grid(s.mem, b.dst, Word(s.mem, s.cb + 4), rows, 1, pitch, 0, true, false), b.next)
  {
    hide Row, Grid;
  }

  lemma StepPair(s: State, b: Block, rows: int)
    requires s.cb != 0 && Matches(s.mem, s.cb, b)
    requires b.ti == TI_COPY_2D && 1 <= rows <= 0x4000 && b.len == (rows - 1) * 0x1_0000 + 2
    requires b.stride == 30 * 0x1_0000 + 0xFFFF
    ensures Step(s) == State(Grid(s.mem, b.dst, Word(s.mem, s.cb + 4), rows, 2, 32, 1, true, true), b.next)
  {
    hide Row, Grid;
  }

  lemma FillUnfold(m: Mem, dst: int, src: int, n: nat, pitch: int)
    requires n >= 1
    ensures var g := Grid(m, dst, src, n - 1, 1, pitch, 0, true, false);
            Grid(m, dst, src, n, 1, pitch, 0, true, false) == Put(g, Slot(dst, pitch, n - 1), Get(g, src))
  {
    hide Get, Put;
    var g := Grid(m, dst, src, n - 1, 1, pitch, 0, true, false);
    assert Row(g, Slot(dst, pitch, n - 1), src, 0, true, false) == g;
  }

  /** The address is not one of the first `n` slots. */
  predicate OffSlots(dst: int, pitch: int, n: int, a: int)
    requires pitch > 0
  {
    a < dst || Slot(dst, pitch, n - 1) < a || (a - dst) % pitch != 0
  }

  lemma OffSlotsStep(dst: int, pitch: int, n: nat, a: int)
    requires (pitch == 32 || pitch == 64) && OffSlots(dst, pitch, n, a) && n >= 1
    ensures OffSlots(dst, pitch, n - 1, a) && a != Slot(dst, pitch, n - 1)
  {
    if (a - dst) % pitch != 0 {
      OffGrid(dst, pitch, n - 1, a);
    }
  }

  lemma {:induction false} FillSpec(m: Mem, dst: int, src: int, n: nat, pitch: int)
    requires (pitch == 32 || pitch == 64) && OffSlots(dst, pitch, n, src)
    ensures var g := Grid(m, dst, src, n, 1, pitch, 0, true, false);
            && (forall i :: 0 <= i < n ==> Get(g, Slot(dst, pitch, i)) == Get(m, src))
            && (forall a :: OffSlots(dst, pitch, n, a) ==> Get(g, a) == Get(m, a))
  {
    hide Grid, OffSlots;
    if n == 0 {
      assert Grid(m, dst, src, 0, 1, pitch, 0, true, false) == m by { GridNone(m, dst, src, 1, pitch, 0, true, false); }
    } else {
      OffSlotsStep(dst, pitch, n, src);
      FillSpec(m, dst, src, n - 1, pitch);
      FillUnfold(m, dst, src, n, pitch);
      forall a | OffSlots(dst, pitch, n, a)
        ensures Get(Grid(m, dst, src, n, 1, pitch, 0, true, false), a) == Get(m, a)
      {
        OffSlotsStep(dst, pitch, n, a);
      }
      assert forall i :: 0 <= i < n - 1 ==> Slot(dst, pitch, i) != Slot(dst, pitch, n - 1);
    }
  }

  lemma GridNone(m: Mem, dst: int, src: int, cols: nat, dp: int, sp: int, dinc: bool, sinc: bool)
    ensures Grid(m, dst, src, 0, cols, dp, sp, dinc, sinc) == m
  {
  }

  lemma PairUnfold(m: Mem, dst: int, src: int, n: nat)
    requires n >= 1 && Slot(dst, 32, n - 1) != src + n
    ensures var g := Grid(m, dst, src, n - 1, 2, 32, 1, true, true);
            var d, x := Slot(dst, 32, n - 1), src + n - 1;
            Grid(m, dst, src, n, 2, 32, 1, true, true) == Put(Put(g, d, Get(g, x)), d + 1, Get(g, x + 1))
  {
    var g := Grid(m, dst, src, n - 1, 2, 32, 1, true, true);
    var d, x := Slot(dst, 32, n - 1), src + n - 1;
    assert Row(g, d, x, 0, true, true) == g;
    assert Row(g, d, x, 1, true, true) == Put(g, d, Get(g, x));
  }

  lemma {:induction false} PairSpec(m: Mem, dst: int, src: int, n: nat)
    requires src + n + 1 <= dst || Slot(dst, 32, n - 1) + 1 < src
    ensures var g := Grid(m, dst, src, n, 2, 32, 1, true, true);
            && (forall i :: 0 <= i < n ==> Get(g, Slot(dst, 32, i)) == Get(m, src + i) && Get(g, Slot(dst, 32, i) + 1) == Get(m, src + i + 1))
            && (forall a :: a < dst || Slot(dst, 32, n - 1) + 1 < a || (a - dst) % 32 > 1 ==> Get(g, a) == Get(m, a))
  {
    hide Grid;
    if n == 0 {
      GridNone(m, dst, src, 2, 32, 1, true, true);
    } else {
      PairSpec(m, dst, src, n - 1);
      PairUnfold(m, dst, src, n);
      var g' := Grid(m, dst, src, n - 1, 2, 32, 1, true, true);
      assert Get(g', src + n - 1) == Get(m, src + n - 1) && Get(g', src + n) == Get(m, src + n);
    }
  }

  // ---------------------------------------------------------------------------------------------
  // Shifts within a byte

  datatype Kind = Sll | Srl | Sra

  /** The table page that turns a shift byte into a HYPER column. */
  function SelectPage(t: Tables, kind: Kind): int {
    if kind.Sll? then t.shift.sllSelect else t.shift.srlSelect
  }

  /** The block that handles the end byte without a neighbour. */
  function EndByte(kind: Kind, w: int): int {
    if kind.Sll? then 0 else w - 1
  }

  /** SRC byte that receives the end byte. */
  function EndSlot(kind: Kind): int {
    if kind.Sll? then 2 else 1
  }

  function EndBlock(t: Tables, p: int, w: int, ret: int, kind: Kind): Block {
    CopyBlock(ret + EndByte(kind, w), if kind.Sra? then t.shift.sraHi else t.hyper, 1, Blk(p, 5), true, !kind.Sll?, kind.Sll?)
  }

  /** Lookup of the byte that block `5 + k` produces. */
  function PairLookup(t: Tables, p: int, w: int, ret: int, kind: Kind, exit: int, k: int): Block {
    CopyBlock(if kind.Sll? then ret + 1 + k else ret + k, t.hyper, 1, NextOf(p, 5 + k, w + 4, exit), true, true, true)
  }

  /** The blocks of `Sll8`, `Srl8` and `Sra8`. */
  function ShiftBlocks(t: Tables, p: int, w: nat, ret: int, inp: int, shf: int, kind: Kind, exit: int): (bs: seq<Block>)
    requires w >= 2
    ensures |bs| == w + 4
    ensures bs[0] == PairBlock(SrcAt(p, 5, 1), inp, w - 1, Blk(p, 1))
    ensures bs[1] == (if kind.Sra? then FillBlock(SrcAt(p, 2, 0), shf, 2, 64, Blk(p, 2), false)
                      else CopyBlock(SrcAt(p, 2, 0), shf, 1, Blk(p, 2), false, false, false))
    ensures bs[2] == (if kind.Sra? then FillBlock(SrcAt(p, 5, 0), SelectPage(t, kind), w - 1, 32, Blk(p, 3), true)
                      else FillBlock(SrcAt(p, 4, 0), SelectPage(t, kind), w, 32, Blk(p, 3), true))
    ensures bs[3] == CopyBlock(SrcAt(p, 4, EndSlot(kind)), inp + EndByte(kind, w), 1, Blk(p, 4), false, false, false)
    ensures bs[4] == EndBlock(t, p, w, ret, kind)
    ensures forall k :: 5 <= k < w + 4 ==> bs[k] == PairLookup(t, p, w, ret, kind, exit, k - 5)
  {
    [PairBlock(SrcAt(p, 5, 1), inp, w - 1, Blk(p, 1)),
     if kind.Sra? then FillBlock(SrcAt(p, 2, 0), shf, 2, 64, Blk(p, 2), false)
     else CopyBlock(SrcAt(p, 2, 0), shf, 1, Blk(p, 2), false, false, false),
     if kind.Sra? then FillBlock(SrcAt(p, 5, 0), SelectPage(t, kind), w - 1, 32, Blk(p, 3), true)
     else FillBlock(SrcAt(p, 4, 0), SelectPage(t, kind), w, 32, Blk(p, 3), true),
     CopyBlock(SrcAt(p, 4, EndSlot(kind)), inp + EndByte(kind, w), 1, Blk(p, 4), false, false, false),
     EndBlock(t, p, w, ret, kind)]
    + seq(w - 1, k => PairLookup(t, p, w, ret, kind, exit, k))
  }

  /** A step that changes nothing but open SRC bytes of its own chain. */
  ghost predicate Quiet(m: Mem, s: State, p: int, bs: seq<Block>, k: int) {
    s.cb == Blk(p, k) && Prepared(m, s.mem, p, bs) && Code(s.mem, p, bs)
  }

  lemma QuietTrans(m: Mem, m1: Mem, s: State, p: int, bs: seq<Block>, k: int)
    requires Prepared(m, m1, p, bs) && Quiet(m1, s, p, bs, k)
    ensures Quiet(m, s, p, bs, k)
  {
    hide SameCode, OnlyOwn, Code;
    OnlyOwnTrans(m, m1, s.mem, p, bs, 0, 0);
  }

  /** Everything that differs is an open SRC byte. */
  lemma QuietIfOpen(m: Mem, s: State, p: int, bs: seq<Block>, k: int)
    requires Code(m, p, bs) && s.cb == Blk(p, k)
    requires forall x :: !Open(p, bs, x) ==> Get(s.mem, x) == Get(m, x)
    ensures Quiet(m, s, p, bs, k)
  {
    hide Code, Get;
    assert SameCode(m, s.mem, p, bs);
    forall x | !(InCode(p, |bs|, x) && 4 <= (x - p) % 32 < 7) ensures Get(s.mem, x) == Get(m, x) {
      assert !Open(p, bs, x);
    }
    CodeFrame(m, s.mem, p, bs);
  }

  lemma SrcIsOpen(p: int, bs: seq<Block>, k: int, j: int)
    requires 0 <= k < |bs| && 0 <= j < 3 && OpenByte(bs[k], 4 + j)
    ensures Open(p, bs, SrcAt(p, k, j))
  {
    SrcOffset(p, k, j);
  }

  /** A one-byte copy into an open SRC byte. */
  lemma PokeStep(s: State, p: int, bs: seq<Block>, k: nat, k': nat, j: int, src: int, v: byte)
    requires p > 0 && Code(s.mem, p, bs) && k < |bs| && k' < |bs| && s.cb == Blk(p, k) && 0 <= j < 3
    requires IsCopy(bs[k], SrcAt(p, k', j), 1, Blk(p, k + 1)) && OpenByte(bs[k'], 4 + j)
    requires Word(s.mem, Blk(p, k) + 4) == src && Get(s.mem, src) == v
    ensures Quiet(s.mem, Step(s), p, bs, k + 1) && Step(s).mem == Put(s.mem, SrcAt(p, k', j), v)
  {
    hide Step, Code, Word, Open;
    CopyOne(s, p, bs, k, SrcAt(p, k', j), Blk(p, k + 1)) by { BlkPositive(p, k); }
    SrcIsOpen(p, bs, k', j);
    QuietIfOpen(s.mem, Step(s), p, bs, k + 1);
  }

  /** A fill of SRC byte 0 of several blocks. */
  lemma FillStep(s: State, p: int, bs: seq<Block>, k: nat, c: nat, pitch: int, rows: nat, src: int)
    requires p > 0 && Code(s.mem, p, bs) && k < |bs| && s.cb == Blk(p, k)
    requires (pitch == 32 || pitch == 64) && 1 <= rows <= 0x4000
    requires bs[k].ti == TI_FILL_2D && bs[k].dst == SrcAt(p, c, 0) && bs[k].len == (rows - 1) * 0x1_0000 + 1
    requires bs[k].stride == (pitch - 1) * 0x1_0000 && bs[k].next == Blk(p, k + 1)
    requires ScatterTarget(bs, c, pitch, 0, rows)
    requires Word(s.mem, Blk(p, k) + 4) == src && !InCode(p, |bs|, src)
    ensures Quiet(s.mem, Step(s), p, bs, k + 1) && OnlySrcByte(s.mem, Step(s).mem, p, |bs|, 0)
    ensures forall i :: 0 <= i < rows ==> Get(Step(s).mem, SrcAt(p, Idx(c, pitch, i), 0)) == Get(s.mem, src)
    ensures forall x :: x < SrcAt(p, c, 0) || SrcAt(p, Idx(c, pitch, rows - 1), 0) < x ==> Get(Step(s).mem, x) == Get(s.mem, x)
  {
    hide Step, Matches, Grid, Word, Get, Open, Code;
    var dst := SrcAt(p, c, 0);
    assert Matches(s.mem, Blk(p, k), bs[k]) by { CodeAt(s.mem, p, bs, k); }
    BlkPositive(p, k);
    StepFill(s, bs[k], rows, pitch);
    assert 0 <= Idx(c, pitch, 0) < |bs| && 0 <= Idx(c, pitch, rows - 1) < |bs|;
    assert Slot(dst, pitch, rows - 1) == SrcAt(p, Idx(c, pitch, rows - 1), 0) by { SlotIsSrc(p, c, pitch, 0, rows - 1); }
    assert OffSlots(dst, pitch, rows, src) by { assert InCode(p, |bs|, dst) && InCode(p, |bs|, Slot(dst, pitch, rows - 1)); }
    FillSpec(s.mem, dst, src, rows, pitch);
    var g := Step(s).mem;
    forall i | 0 <= i < rows ensures Get(g, SrcAt(p, Idx(c, pitch, i), 0)) == Get(s.mem, src) {
      SlotIsSrc(p, c, pitch, 0, i);
    }
    forall x ensures (!(InCode(p, |bs|, x) && (x - p) % 32 == 4) || !Open(p, bs, x)) ==> Get(g, x) == Get(s.mem, x) {
      if dst <= x <= Slot(dst, pitch, rows - 1) && (x - dst) % pitch == 0 {
        ScatterHits(p, bs, c, pitch, 0, rows, x);
      }
    }
    QuietIfOpen(s.mem, Step(s), p, bs, k + 1);
  }

  lemma CodeAt(m: Mem, p: int, bs: seq<Block>, k: int)
    requires Code(m, p, bs) && 0 <= k < |bs|
    ensures Matches(m, Blk(p, k), bs[k])
  {
  }

  /** The pairs of neighbouring bytes go to SRC bytes 1 and 2 of blocks 5 and up. */
  lemma PairStep(s: State, p: int, bs: seq<Block>, inp: int, n: nat)
    requires p > 0 && Code(s.mem, p, bs) && s.cb == p && 1 <= n <= 0x4000 && |bs| == n + 5
    requires 0 <= inp && inp + n + 1 <= 0x1_0000_0000 && Apart(p, |bs|, inp, n + 1)
    requires bs[0] == PairBlock(SrcAt(p, 5, 1), inp, n, Blk(p, 1))
    requires ScatterTarget(bs, 5, 32, 1, n) && ScatterTarget(bs, 5, 32, 2, n)
    ensures Quiet(s.mem, Step(s), p, bs, 1)
    ensures forall i :: 0 <= i < n ==> Get(Step(s).mem, SrcAt(p, Idx(5, 32, i), 1)) == Get(s.mem, inp + i)
    ensures forall i :: 0 <= i < n ==> Get(Step(s).mem, SrcAt(p, Idx(5, 32, i), 2)) == Get(s.mem, inp + i + 1)
  {
    hide Step, Matches, Grid, Word, Get, Open, Code;
    var dst := SrcAt(p, 5, 1);
    assert Blk(p, 0) == p;
    assert Matches(s.mem, Blk(p, 0), bs[0]) by { CodeAt(s.mem, p, bs, 0); }
    FixedSource(s.mem, p, bs, 0);
    StepPair(s, bs[0], n);
    PairSpec(s.mem, dst, inp, n);
    var g := Step(s).mem;
    forall i | 0 <= i < n
      ensures Get(g, SrcAt(p, Idx(5, 32, i), 1)) == Get(s.mem, inp + i) && Get(g, SrcAt(p, Idx(5, 32, i), 2)) == Get(s.mem, inp + i + 1)
    {
      assert Slot(dst, 32, i) == SrcAt(p, 5 + i, 1) && Slot(dst, 32, i) + 1 == SrcAt(p, 5 + i, 2);
    }
    forall x | !Open(p, bs, x) ensures Get(g, x) == Get(s.mem, x) {
      if dst <= x <= Slot(dst, 32, n - 1) + 1 && (x - dst) % 32 <= 1 {
        PairHits(p, bs, n, x);
      }
    }
    QuietIfOpen(s.mem, Step(s), p, bs, 1);
  }

  lemma PairHits(p: int, bs: seq<Block>, n: nat, x: int)
    requires n >= 1 && |bs| == n + 5 && ScatterTarget(bs, 5, 32, 1, n) && ScatterTarget(bs, 5, 32, 2, n)
    requires SrcAt(p, 5, 1) <= x <= SrcAt(p, 4 + n, 2) && (x - SrcAt(p, 5, 1)) % 32 <= 1
    ensures Open(p, bs, x)
  {
    var k := (x - SrcAt(p, 5, 1)) / 32;
    assert 0 <= k < n;
    assert Idx(5, 32, k) == 5 + k;
    if (x - SrcAt(p, 5, 1)) % 32 == 0 {
      assert x == SrcAt(p, 5 + k, 1);
      SrcIsOpen(p, bs, 5 + k, 1);
    } else {
      assert x == SrcAt(p, 5 + k, 2);
      SrcIsOpen(p, bs, 5 + k, 2);
    }
  }

  // ---------------------------------------------------------------------------------------------
  // The prologue of a shift

  /** The chain, its operands and the tables do not get into each other's way. */
  ghost predicate ShiftSafe(t: Tables, p: int, n: int, w: int, ret: int, inp: int, shf: int) {
    && Located(t, p, n) && Operand(p, n, inp, w) && Operand(p, n, shf, 1) && Result(t, p, n, ret, w)
  }

  ghost predicate Pairs(m: Mem, m': Mem, p: int, w: int, inp: int) {
    && (forall i :: 0 <= i < w - 1 ==> Get(m', SrcAt(p, Idx(5, 32, i), 1)) == Get(m, inp + i))
    && (forall i :: 0 <= i < w - 1 ==> Get(m', SrcAt(p, Idx(5, 32, i), 2)) == Get(m, inp + i + 1))
  }

  lemma PairsStay(m: Mem, m1: Mem, m2: Mem, p: int, n: int, w: int, inp: int)
    requires Pairs(m, m1, p, w, inp) && OnlySrcByte(m1, m2, p, n, 0)
    ensures Pairs(m, m2, p, w, inp)
  {
    hide Get;
    forall i | 0 <= i < w - 1
      ensures Get(m2, SrcAt(p, Idx(5, 32, i), 1)) == Get(m, inp + i) && Get(m2, SrcAt(p, Idx(5, 32, i), 2)) == Get(m, inp + i + 1)
    {
      SrcOffset(p, Idx(5, 32, i), 1);
      SrcOffset(p, Idx(5, 32, i), 2);
    }
  }

  lemma ShiftTargets(t: Tables, p: int, w: nat, ret: int, inp: int, shf: int, kind: Kind, exit: int)
    requires w >= 2
    ensures var bs := ShiftBlocks(t, p, w, ret, inp, shf, kind, exit);
            && ScatterTarget(bs, 5, 32, 0, w - 1) && ScatterTarget(bs, 5, 32, 1, w - 1) && ScatterTarget(bs, 5, 32, 2, w - 1)
            && ScatterTarget(bs, 4, 32, 0, w) && ScatterTarget(bs, 2, 64, 0, 2)
  {
    hide ShiftBlocks, SelectPage;
    var bs := ShiftBlocks(t, p, w, ret, inp, shf, kind, exit);
    forall k | 0 <= k < w - 1
      ensures 0 <= Idx(5, 32, k) < |bs| && OpenByte(bs[Idx(5, 32, k)], 4) && OpenByte(bs[Idx(5, 32, k)], 5) && OpenByte(bs[Idx(5, 32, k)], 6)
    {
      assert bs[5 + k] == PairLookup(t, p, w, ret, kind, exit, k);
    }
    forall k | 0 <= k < w ensures 0 <= Idx(4, 32, k) < |bs| && OpenByte(bs[Idx(4, 32, k)], 4) {
      if k > 0 {
        assert bs[4 + k] == PairLookup(t, p, w, ret, kind, exit, k - 1);
      }
    }
  }

  lemma PutIsSrcByte(m: Mem, p: int, n: int, k: nat, j: int, v: byte)
    requires k < n && 0 <= j < 3
    ensures OnlySrcByte(m, Put(m, SrcAt(p, k, j), v), p, n, j)
  {
    SrcOffset(p, k, j);
  }

  /** After the first two blocks: the neighbour pairs and the shift byte are in place. */
  lemma PrologueA(t: Tables, m: Mem, p: int, w: nat, ret: int, inp: int, shf: int, kind: Kind, exit: int)
    requires 2 <= w <= 0x4000 && ShiftSafe(t, p, w + 4, w, ret, inp, shf)
    requires Code(m, p, ShiftBlocks(t, p, w, ret, inp, shf, kind, exit))
    ensures var bs := ShiftBlocks(t, p, w, ret, inp, shf, kind, exit);
            var s := Run(State(m, p), 2);
            && Quiet(m, s, p, bs, 2) && Pairs(m, s.mem, p, w, inp)
            && Get(s.mem, SrcAt(p, 2, 0)) == Get(m, shf)
            && (kind.Sra? ==> Get(s.mem, SrcAt(p, 4, 0)) == Get(m, shf))
    ensures Run(State(m, p), 1).cb == Blk(p, 1)
  {
    hide Step, Code, SameCode, Prepared, Get, ShiftBlocks, SelectPage, OnlySrcByte, ScatterTarget, Located, Result, Word, Open;
    var bs := ShiftBlocks(t, p, w, ret, inp, shf, kind, exit);
    var s0 := State(m, p);
    assert Run(s0, 0) == s0 && Run(s0, 1) == Step(s0) && Run(s0, 2) == Step(Run(s0, 1));
    ShiftTargets(t, p, w, ret, inp, shf, kind, exit);
    LocatedIsPositive(t, p, w + 4);
    PairStep(s0, p, bs, inp, w - 1);
    var s1 := Step(s0);
    var v := Get(m, shf);
    assert !InCode(p, |bs|, shf);
    SourceStays(m, s1.mem, p, bs, shf);
    FixedSource(s1.mem, p, bs, 1);
    if kind.Sra? {
      FillStep(s1, p, bs, 1, 2, 64, 2, shf);
      assert Idx(2, 64, 0) == 2 && Idx(2, 64, 1) == 4;
    } else {
      PokeStep(s1, p, bs, 1, 2, 0, shf, v);
      PutIsSrcByte(s1.mem, p, |bs|, 2, 0, v);
      PutReads(s1.mem, SrcAt(p, 2, 0), v);
    }
    PairsStay(m, s1.mem, Step(s1).mem, p, |bs|, w, inp);
    QuietTrans(m, s1.mem, Step(s1), p, bs, 2);
  }

  /** What the lookups of a shift are about to read. */
  ghost predicate ShiftLoaded(m: Mem, m': Mem, p: int, w: int, inp: int, kind: Kind, sel: byte, first: byte) {
    && Pairs(m, m', p, w, inp)
    && (forall i :: 0 <= i < w - 1 ==> Get(m', SrcAt(p, Idx(5, 32, i), 0)) == sel)
    && Get(m', SrcAt(p, 4, 0)) == first
    && Get(m', SrcAt(p, 4, EndSlot(kind))) == Get(m, inp + EndByte(kind, w))
  }

  function ShiftColumn(kind: Kind, shift: byte): byte {
    (if kind.Sll? then HYPER_SLL else HYPER_SRL) + shift % 8
  }

  lemma SelectPageEntry(m: Mem, t: Tables, kind: Kind, i: byte)
    requires Ready(m, t)
    ensures Get(m, SelectPage(t, kind) + i) == ShiftColumn(kind, i)
  {
    hide Get;
    assert ShiftPageEntry(m, t.shift, i);
  }

  lemma TablesOutside(t: Tables, p: int, n: int, a: int)
    requires Located(t, p, n) && InTables(t, a)
    ensures !InCode(p, n, a)
  {
    hide Placed, InTables;
  }

  /** The third block, whose own SRC byte 0 the second one filled in. */
  lemma PrologueFill(t: Tables, m: Mem, s2: State, p: int, w: nat, ret: int, inp: int, shf: int, kind: Kind, exit: int)
    requires 2 <= w <= 0x4000 && ShiftSafe(t, p, w + 4, w, ret, inp, shf) && Ready(m, t)
    requires var bs := ShiftBlocks(t, p, w, ret, inp, shf, kind, exit);
             Quiet(m, s2, p, bs, 2) && Get(s2.mem, SrcAt(p, 2, 0)) == Get(m, shf)
    ensures var bs := ShiftBlocks(t, p, w, ret, inp, shf, kind, exit);
            var s := Step(s2);
            var sel := ShiftColumn(kind, Get(m, shf));
            && Quiet(s2.mem, s, p, bs, 3) && OnlySrcByte(s2.mem, s.mem, p, |bs|, 0)
            && (forall i :: 0 <= i < w - 1 ==> Get(s.mem, SrcAt(p, Idx(5, 32, i), 0)) == sel)
            && Get(s.mem, SrcAt(p, 4, 0)) == if kind.Sra? then Get(s2.mem, SrcAt(p, 4, 0)) else sel
  {
    hide Step, Code, SameCode, Prepared, Get, ShiftBlocks, OnlySrcByte, ScatterTarget, Located, Result, Word, Open, Ready, RowOf, ShiftColumn,
      InTables, Page;
    var bs := ShiftBlocks(t, p, w, ret, inp, shf, kind, exit);
    var v := Get(m, shf);
    var page := SelectPage(t, kind);
    ShiftTargets(t, p, w, ret, inp, shf, kind, exit);
    LocatedIsPositive(t, p, w + 4);
    SelectPageIs(t, p, w + 4, kind);
    PageRowOf(s2.mem, p, bs, 2, page);
    assert Word(s2.mem, Blk(p, 2) + 4) == page + v by { RowPlusByte(s2.mem, p, 2); }
    SelectPageIn(t, kind, v);
    TablesOutside(t, p, |bs|, page + v);
    SelectPageEntry(m, t, kind, v);
    SourceStays(m, s2.mem, p, bs, page + v);
    if kind.Sra? {
      FillStep(s2, p, bs, 2, 5, 32, w - 1, page + v);
    } else {
      FillStep(s2, p, bs, 2, 4, 32, w, page + v);
      assert Idx(4, 32, 0) == 4;
      forall i | 0 <= i < w - 1 ensures Get(Step(s2).mem, SrcAt(p, Idx(5, 32, i), 0)) == ShiftColumn(kind, v) {
        assert Idx(5, 32, i) == Idx(4, 32, i + 1);
      }
    }
  }

  lemma SelectPageIs(t: Tables, p: int, n: int, kind: Kind)
    requires Located(t, p, n)
    ensures Page(SelectPage(t, kind))
  {
  }

  lemma SelectPageIn(t: Tables, kind: Kind, v: byte)
    ensures InTables(t, SelectPage(t, kind) + v)
  {
  }

  /** All four prologue blocks. */
  lemma Prologue(t: Tables, m: Mem, p: int, w: nat, ret: int, inp: int, shf: int, kind: Kind, exit: int)
    requires 2 <= w <= 0x4000 && ShiftSafe(t, p, w + 4, w, ret, inp, shf) && Ready(m, t)
    requires Code(m, p, ShiftBlocks(t, p, w, ret, inp, shf, kind, exit))
    ensures var bs := ShiftBlocks(t, p, w, ret, inp, shf, kind, exit);
            var s := Run(State(m, p), 4);
            var sel := ShiftColumn(kind, Get(m, shf));
            && Quiet(m, s, p, bs, 4)
            && ShiftLoaded(m, s.mem, p, w, inp, kind, sel, if kind.Sra? then Get(m, shf) else sel)
    ensures Visits(State(m, p), 4) == Straight(p, 0, 4)
  {
    hide Step, Code, SameCode, Prepared, Get, ShiftBlocks, OnlySrcByte, ScatterTarget, Located, Result, Word, Open, Ready, RowOf, ShiftColumn,
      Pairs, Visits, Straight;
    var bs := ShiftBlocks(t, p, w, ret, inp, shf, kind, exit);
    var s0 := State(m, p);
    var sel := ShiftColumn(kind, Get(m, shf));
    PrologueA(t, m, p, w, ret, inp, shf, kind, exit);
    var s2 := Run(s0, 2);
    PrologueFill(t, m, s2, p, w, ret, inp, shf, kind, exit);
    var s3 := Step(s2);
    assert Run(s0, 3) == s3 && Run(s0, 4) == Step(s3);
    PairsStay(m, s2.mem, s3.mem, p, |bs|, w, inp);
    QuietTrans(m, s2.mem, s3, p, bs, 3);
    LocatedIsPositive(t, p, w + 4);
    EndStep(m, s3, p, w, bs, inp, kind, sel, if kind.Sra? then Get(m, shf) else sel) by {
      assert !InCode(p, |bs|, inp + EndByte(kind, w));
    }
    QuietTrans(m, s3.mem, Step(s3), p, bs, 4);
    PrologueVisits(s0, p) by {
      assert Run(s0, 0) == s0 && Blk(p, 0) == p;
    }
  }

  lemma PrologueVisits(s: State, p: int)
    requires s.cb == p && Run(s, 1).cb == Blk(p, 1) && Run(s, 2).cb == Blk(p, 2) && Run(s, 3).cb == Blk(p, 3)
    ensures Visits(s, 4) == Straight(p, 0, 4)
  {
    hide Step, Visits, Straight;
    VisitsNone(s, p, 0);
    VisitsNext(s, p, 0, 0);
    VisitsNext(s, p, 0, 1);
    VisitsNext(s, p, 0, 2);
    VisitsNext(s, p, 0, 3);
  }

  /** The fourth block: the end byte, which has only one neighbour. */
  lemma EndStep(m: Mem, s: State, p: int, w: nat, bs: seq<Block>, inp: int, kind: Kind, sel: byte, first: byte)
    requires p > 0 && w >= 2 && |bs| == w + 4 && Quiet(m, s, p, bs, 3)
    requires bs[3] == CopyBlock(SrcAt(p, 4, EndSlot(kind)), inp + EndByte(kind, w), 1, Blk(p, 4), false, false, false)
    requires OpenByte(bs[4], 4 + EndSlot(kind)) && 0 <= inp && inp + w <= 0x1_0000_0000
    requires Pairs(m, s.mem, p, w, inp) && !InCode(p, |bs|, inp + EndByte(kind, w))
    requires forall i :: 0 <= i < w - 1 ==> Get(s.mem, SrcAt(p, Idx(5, 32, i), 0)) == sel
    requires Get(s.mem, SrcAt(p, 4, 0)) == first
    ensures Quiet(s.mem, Step(s), p, bs, 4) && ShiftLoaded(m, Step(s).mem, p, w, inp, kind, sel, first)
  {
    hide Step, Code, SameCode, Prepared, Get, Word, Open, Put;
    var a := inp + EndByte(kind, w);
    SourceStays(m, s.mem, p, bs, a);
    FixedSource(s.mem, p, bs, 3);
    PokeStep(s, p, bs, 3, 4, EndSlot(kind), a, Get(m, a));
    PutReads(s.mem, SrcAt(p, 4, EndSlot(kind)), Get(m, a));
  }

  // ---------------------------------------------------------------------------------------------
  // The lookups of a shift

  /** The shifted byte string. */
  function ShiftOut(kind: Kind, x: seq<byte>, shift: byte): (y: seq<byte>)
    requires x != []
    ensures |y| == |x|
  {
    match kind
    case Sll => SllFrom(x, 0, shift % 8)
    case Srl => SrlFrom(x, 0, shift % 8)
    case Sra => SrlFrom(x, SignByte(x), shift % 8)
  }

  /** The shift as an integer operation on `w`-byte numbers. */
  function ShiftValue(kind: Kind, x: seq<byte>, shift: byte): int
    requires x != []
  {
    match kind
    case Sll => Value(x) * P2(shift % 8)
    case Srl => Value(x) / P2(shift % 8)
    case Sra => SignedValue(x) / P2(shift % 8)
  }

  lemma ShiftOutIs(kind: Kind, x: seq<byte>, shift: byte)
    requires x != []
    ensures ShiftOut(kind, x, shift) == ToBytes(ShiftValue(kind, x, shift), |x|)
  {
    hide P2, SllFrom, SrlFrom, Value, SignedValue, ToBytes;
    match kind
    case Sll =>
      SllCorrect(x, 0, shift % 8);
      assert 0 * P2(shift % 8) / 0x100 == 0;
    case Srl =>
      UnsignedBytes(x);
      SrlCorrect(Value(x), x, 0, shift % 8);
    case Sra =>
      SignedBytes(x);
      SrlCorrect(SignedValue(x), x, SignByte(x), shift % 8);
  }

  lemma PairEntry(m: Mem, t: Tables, kind: Kind, x: seq<byte>, shift: byte, k: nat)
    requires Ready(m, t) && |x| >= 2 && k < |x| - 1
    ensures Get(m, HyperRow(t, x[k + 1], x[k]) + ShiftColumn(kind, shift)) == ShiftOut(kind, x, shift)[if kind.Sll? then k + 1 else k]
  {
    hide Get, LeftByte, RightByte, HyperRow, SllFrom, SrlFrom;
    if kind.Sll? {
      assert SllEntry(m, HyperRow(t, x[k + 1], x[k]), x[k + 1], x[k], shift % 8);
    } else {
      assert SrlEntry(m, HyperRow(t, x[k + 1], x[k]), x[k + 1], x[k], shift % 8);
    }
  }

  /** Where the block of the end byte reads from. */
  function EndSource(t: Tables, kind: Kind, x: seq<byte>, shift: byte): int
    requires x != []
  {
    match kind
    case Sll => HyperRow(t, x[0], 0) + ShiftColumn(kind, shift)
    case Srl => HyperRow(t, 0, x[|x| - 1]) + ShiftColumn(kind, shift)
    case Sra => t.shift.sraHi + 0x100 * (x[|x| - 1] as int) + shift
  }

  lemma EndEntry(m: Mem, t: Tables, kind: Kind, x: seq<byte>, shift: byte)
    requires Ready(m, t) && x != []
    ensures Get(m, EndSource(t, kind, x, shift)) == ShiftOut(kind, x, shift)[EndByte(kind, |x|)]
    ensures InTables(t, EndSource(t, kind, x, shift))
  {
    hide Get, P2, SllFrom, SrlFrom;
    match kind
    case Sll =>
      assert SllEntry(m, HyperRow(t, x[0], 0), x[0], 0, shift % 8);
      SllHead(x, 0, shift % 8);
    case Srl =>
      assert SrlEntry(m, HyperRow(t, 0, x[|x| - 1]), 0, x[|x| - 1], shift % 8);
      SrlLast(x, 0, shift % 8);
    case Sra =>
      assert SraEntry(m, t.shift, x[|x| - 1], shift);
      SraTop(x[|x| - 1], shift % 8);
      SrlLast(x, SignByte(x), shift % 8);
  }

  /** The row of the end block: a HYPER or SRA_HI row with one open byte. */
  lemma EndWord(t: Tables, m: Mem, m4: Mem, p: int, w: nat, ret: int, inp: int, shf: int, kind: Kind, exit: int, x: seq<byte>)
    requires 2 <= w && Placed(t) && x == Bytes(m, inp, w)
    requires Code(m4, p, ShiftBlocks(t, p, w, ret, inp, shf, kind, exit))
    requires var sel := ShiftColumn(kind, Get(m, shf));
             ShiftLoaded(m, m4, p, w, inp, kind, sel, if kind.Sra? then Get(m, shf) else sel)
    ensures Word(m4, Blk(p, 4) + 4) == EndSource(t, kind, x, Get(m, shf))
  {
    hide Code, Get, ShiftBlocks, Placed, Pairs, ShiftColumn, Word, RowOf;
    var bs := ShiftBlocks(t, p, w, ret, inp, shf, kind, exit);
    RowPlusByte(m4, p, 4);
    if kind.Sra? {
      SraRowOf(t, m4, p, bs);
    } else {
      HyperRowOf(t, m4, p, bs, 4, 0);
      ClosedByte(t, m4, p, bs, if kind.Sll? then 1 else 2);
    }
    assert x[EndByte(kind, w)] == Get(m, inp + EndByte(kind, w));
  }

  lemma ClosedByte(t: Tables, m: Mem, p: int, bs: seq<Block>, j: int)
    requires Placed(t) && Code(m, p, bs) && |bs| > 4 && bs[4].src == t.hyper && (j == 1 || j == 2)
    requires j == 1 ==> !bs[4].open1
    requires j == 2 ==> !bs[4].open2
    ensures Get(m, SrcAt(p, 4, j)) == 0
  {
    hide Code, ShiftPlaced, Word;
    CodeAt(m, p, bs, 4);
    AlignedZero(t.hyper);
  }

  lemma AlignedZero(base: int)
    requires base % 0x100_0000 == 0
    ensures ByteOf(base, 1) == 0 && ByteOf(base, 2) == 0
  {
    var q := base / 0x100_0000;
    assert base == 0x100_0000 * q;
    assert base / 0x100 == 0x1_0000 * q && base / 0x1_0000 == 0x100 * q;
  }

  lemma SraRowOf(t: Tables, m: Mem, p: int, bs: seq<Block>)
    requires Placed(t) && Code(m, p, bs) && |bs| > 4 && bs[4].src == t.shift.sraHi && !bs[4].open2
    ensures RowOf(m, p, 4) == t.shift.sraHi + 0x100 * Get(m, SrcAt(p, 4, 1))
  {
    hide Get, ByteOf, Code;
    CodeAt(m, p, bs, 4);
    SraBytes(t.shift.sraHi) by { assert ShiftPlaced(t.shift); }
  }

  lemma SraBytes(base: int)
    requires 0 <= base <= 0xFFFF_0000 && base % 0x1_0000 == 0
    ensures 0x1_0000 * ByteOf(base, 2) + 0x100_0000 * ByteOf(base, 3) == base
  {
    var q := base / 0x1_0000;
    assert base == 0x1_0000 * q;
    assert base / 0x100_0000 == q / 0x100;
  }

  lemma PairWord(t: Tables, m: Mem, m4: Mem, p: int, w: nat, ret: int, inp: int, shf: int, kind: Kind, exit: int, x: seq<byte>, sel: byte, first: byte, k: nat)
    requires 2 <= w && k < w - 1 && Placed(t) && x == Bytes(m, inp, w)
    requires Code(m4, p, ShiftBlocks(t, p, w, ret, inp, shf, kind, exit))
    requires ShiftLoaded(m, m4, p, w, inp, kind, sel, first)
    ensures Word(m4, Blk(p, 5 + k) + 4) == HyperRow(t, x[k + 1], x[k]) + sel
  {
    hide Code, Get, ShiftBlocks, Placed, Word, RowOf;
    var bs := ShiftBlocks(t, p, w, ret, inp, shf, kind, exit);
    assert bs[5 + k] == PairLookup(t, p, w, ret, kind, exit, k);
    RowPlusByte(m4, p, 5 + k);
    HyperRowOf(t, m4, p, bs, 5 + k, 0);
    assert Idx(5, 32, k) == 5 + k;
    assert x[k] == Get(m, inp + k) && x[k + 1] == Get(m, inp + (k + 1));
    PairsAt(m, m4, p, w, inp, k);
    assert Get(m4, SrcAt(p, Idx(5, 32, k), 0)) == sel;
  }

  lemma PairsAt(m: Mem, m': Mem, p: int, w: int, inp: int, k: int)
    requires Pairs(m, m', p, w, inp) && 0 <= k < w - 1
    ensures Get(m', SrcAt(p, Idx(5, 32, k), 1)) == Get(m, inp + k) && Get(m', SrcAt(p, Idx(5, 32, k), 2)) == Get(m, inp + k + 1)
  {
  }

  function PairRet(kind: Kind, ret: int): int {
    if kind.Sll? then ret + 1 else ret
  }

  function PairAddresses(t: Tables, x: seq<byte>, sel: byte): (src: seq<int>)
    requires x != []
    ensures |src| == |x| - 1 && forall k :: 0 <= k < |src| ==> src[k] == HyperRow(t, x[k + 1], x[k]) + sel
  {
    seq(|x| - 1, k requires 0 <= k < |x| - 1 => HyperRow(t, x[k + 1], x[k]) + sel)
  }

  lemma ShiftShape(t: Tables, p: int, w: nat, ret: int, inp: int, shf: int, kind: Kind, exit: int)
    requires 2 <= w && p > 0 && Apart(p, w + 4, ret, w)
    ensures PointwiseShape(p, ShiftBlocks(t, p, w, ret, inp, shf, kind, exit), 5, w - 1, PairRet(kind, ret), exit)
  {
    hide ShiftBlocks;
    var bs := ShiftBlocks(t, p, w, ret, inp, shf, kind, exit);
    forall k | 0 <= k < w - 1 ensures PointwiseBlock(p, bs, PairRet(kind, ret), exit, 5, k) {
      assert bs[5 + k] == PairLookup(t, p, w, ret, kind, exit, k);
    }
  }

  /** The fifth block: the end byte of the result. */
  lemma EndLookup(t: Tables, m: Mem, s: State, p: int, w: nat, ret: int, inp: int, shf: int, kind: Kind, exit: int, x: seq<byte>)
    requires 2 <= w <= 0x4000 && ShiftSafe(t, p, w + 4, w, ret, inp, shf) && Ready(m, t) && x == Bytes(m, inp, w)
    requires var bs := ShiftBlocks(t, p, w, ret, inp, shf, kind, exit);
             var sel := ShiftColumn(kind, Get(m, shf));
             Quiet(m, s, p, bs, 4) && ShiftLoaded(m, s.mem, p, w, inp, kind, sel, if kind.Sra? then Get(m, shf) else sel)
    ensures Step(s) == State(Put(s.mem, ret + EndByte(kind, w), ShiftOut(kind, x, Get(m, shf))[EndByte(kind, w)]), Blk(p, 5))
  {
    hide Step, Code, Get, ShiftBlocks, Located, ShiftLoaded, Prepared, Result, Operand, Ready, ShiftOut, Word, InTables, EndSource;
    var bs := ShiftBlocks(t, p, w, ret, inp, shf, kind, exit);
    var a := EndSource(t, kind, x, Get(m, shf));
    LocatedIsPlaced(t, p, w + 4);
    EndWord(t, m, s.mem, p, w, ret, inp, shf, kind, exit, x);
    EndEntry(m, t, kind, x, Get(m, shf));
    TablesOutside(t, p, |bs|, a);
    SourceStays(m, s.mem, p, bs, a);
    LocatedIsPositive(t, p, w + 4);
    CopyOne(s, p, bs, 4, ret + EndByte(kind, w), Blk(p, 5)) by { BlkPositive(p, 4); }
  }

  /** Writing a result byte disturbs neither the chain nor what it has loaded. */
  lemma EndPut(t: Tables, m: Mem, s: State, p: int, w: nat, ret: int, bs: seq<Block>, kind: Kind, v: byte)
    requires 2 <= w && |bs| == w + 4 && Apart(p, |bs|, ret, w) && Code(s.mem, p, bs)
    ensures var m5 := Put(s.mem, ret + EndByte(kind, w), v);
            && Code(m5, p, bs) && SameCode(s.mem, m5, p, bs)
            && (forall k :: 0 <= k < |bs| ==> Word(m5, Blk(p, k) + 4) == Word(s.mem, Blk(p, k) + 4))
  {
    hide Code, Word;
    var m5 := Put(s.mem, ret + EndByte(kind, w), v);
    OutsideIsSame(s.mem, m5, p, bs, ret, w);
    CodeFrame(s.mem, m5, p, bs);
    forall k | 0 <= k < |bs| ensures Word(m5, Blk(p, k) + 4) == Word(s.mem, Blk(p, k) + 4) {
      OutsideWord(s.mem, m5, p, |bs|, k, ret, w);
    }
  }

  lemma PairSource(t: Tables, m: Mem, m4: Mem, m5: Mem, p: int, w: nat, ret: int, inp: int, shf: int, kind: Kind, exit: int,
                   x: seq<byte>, sel: byte, first: byte, k: nat)
    requires 2 <= w && k < w - 1 && ShiftSafe(t, p, w + 4, w, ret, inp, shf) && Ready(m, t) && x == Bytes(m, inp, w)
    requires var bs := ShiftBlocks(t, p, w, ret, inp, shf, kind, exit);
             && Code(m4, p, bs) && Prepared(m, m4, p, bs) && Word(m5, Blk(p, 5 + k) + 4) == Word(m4, Blk(p, 5 + k) + 4)
    requires ShiftLoaded(m, m4, p, w, inp, kind, sel, first) && sel == ShiftColumn(kind, Get(m, shf))
    requires forall a :: !(ret <= a < ret + w) ==> Get(m5, a) == Get(m4, a)
    ensures SourceAt(m5, p, 5, w - 1, PairRet(kind, ret), PairAddresses(t, x, sel), k)
    ensures Get(m5, PairAddresses(t, x, sel)[k]) == ShiftOut(kind, x, Get(m, shf))[if kind.Sll? then k + 1 else k]
  {
    hide Code, Get, ShiftBlocks, Located, Prepared, Result, Operand, Ready, ShiftOut, ShiftLoaded, Word, ShiftColumn, PairAddresses, HyperRow, Bytes;
    var bs := ShiftBlocks(t, p, w, ret, inp, shf, kind, exit);
    var a := HyperRow(t, x[k + 1], x[k]) + sel;
    LocatedIsPlaced(t, p, w + 4);
    PairWord(t, m, m4, p, w, ret, inp, shf, kind, exit, x, sel, first, k);
    PairEntry(m, t, kind, x, Get(m, shf), k);
    HyperClear(t, p, |bs|, ret, w, x[k + 1], x[k], sel);
    SourceStays(m, m4, p, bs, a);
  }

  lemma PairSources(t: Tables, m: Mem, m4: Mem, m5: Mem, p: int, w: nat, ret: int, inp: int, shf: int, kind: Kind, exit: int,
                    x: seq<byte>, sel: byte, first: byte)
    requires 2 <= w && ShiftSafe(t, p, w + 4, w, ret, inp, shf) && Ready(m, t) && x == Bytes(m, inp, w)
    requires var bs := ShiftBlocks(t, p, w, ret, inp, shf, kind, exit);
             && Code(m4, p, bs) && Prepared(m, m4, p, bs)
             && forall k :: 0 <= k < |bs| ==> Word(m5, Blk(p, k) + 4) == Word(m4, Blk(p, k) + 4)
    requires ShiftLoaded(m, m4, p, w, inp, kind, sel, first) && sel == ShiftColumn(kind, Get(m, shf))
    requires forall a :: !(ret <= a < ret + w) ==> Get(m5, a) == Get(m4, a)
    ensures Sources(m5, p, 5, w - 1, PairRet(kind, ret), PairAddresses(t, x, sel))
    ensures forall k :: 0 <= k < w - 1 ==>
              Get(m5, PairAddresses(t, x, sel)[k]) == ShiftOut(kind, x, Get(m, shf))[if kind.Sll? then k + 1 else k]
  {
    hide *;
    var n := w - 1;
    var r, src := PairRet(kind, ret), PairAddresses(t, x, sel);
    forall k | 0 <= k < n
      ensures SourceAt(m5, p, 5, n, r, src, k)
      ensures Get(m5, src[k]) == ShiftOut(kind, x, Get(m, shf))[if kind.Sll? then k + 1 else k]
    {
      PairSource(t, m, m4, m5, p, w, ret, inp, shf, kind, exit, x, sel, first, k);
    }
    SourcesAre(m5, p, 5, n, r, src);
  }

  /** The end byte and the walk together make up the result. */
  lemma ShiftFinish(m4: Mem, m5: Mem, s: State, p: int, bs: seq<Block>, w: nat, ret: int, kind: Kind, exit: int, src: seq<int>, out: seq<byte>)
    requires 2 <= w == |out| && |bs| == w + 4 && |src| == w - 1 && Apart(p, |bs|, ret, w)
    requires m5 == Put(m4, ret + EndByte(kind, w), out[EndByte(kind, w)])
    requires PointwiseInv(m5, s, p, |bs|, 5, PairRet(kind, ret), exit, src, w - 1)
    requires forall k :: 0 <= k < w - 1 ==> Get(m5, src[k]) == out[if kind.Sll? then k + 1 else k]
    ensures s.cb == exit && Bytes(s.mem, ret, w) == out
    ensures SameCode(m4, s.mem, p, bs) && OnlyOwn(m4, s.mem, p, |bs|, ret, w)
  {
    hide Open, Get, Bytes;
    var e, r := EndByte(kind, w), PairRet(kind, ret);
    PutReads(m4, ret + e, out[e]);
    forall i | 0 <= i < w ensures Bytes(s.mem, ret, w)[i] == out[i] {
      if i == e {
      } else if kind.Sll? {
        assert Get(s.mem, r + (i - 1)) == Get(m5, src[i - 1]);
      } else {
        assert Get(s.mem, r + i) == Get(m5, src[i]);
      }
    }
    forall a | !(ret <= a < ret + w) ensures Get(s.mem, a) == Get(m4, a) {
    }
  }

  /** `Sll8`, `Srl8` and `Sra8` shift by the low three bits of the shift byte, also over an operand. */
  lemma ShiftRuns(t: Tables, m: Mem, p: int, w: nat, ret: int, inp: int, shf: int, kind: Kind, exit: int)
    requires 2 <= w <= 0x4000 && ShiftSafe(t, p, w + 4, w, ret, inp, shf) && Ready(m, t)
    requires Code(m, p, ShiftBlocks(t, p, w, ret, inp, shf, kind, exit))
    ensures Completes(m, p, ShiftBlocks(t, p, w, ret, inp, shf, kind, exit), exit, ret,
                      ToBytes(ShiftValue(kind, Bytes(m, inp, w), Get(m, shf)), w))
  {
    hide Step, Visits, Straight, Code, SameCode, OnlyOwn, Get, ShiftBlocks, Located, ShiftLoaded, Prepared, Result, Ready, ShiftOut, Word,
      PointwiseInv, PointwiseShape, Sources, Completes, Bytes, ToBytes, ShiftValue, Value, PairAddresses, ShiftColumn, Put, HyperRow;
    var bs := ShiftBlocks(t, p, w, ret, inp, shf, kind, exit);
    var x := Bytes(m, inp, w);
    var out := ShiftOut(kind, x, Get(m, shf));
    var sel := ShiftColumn(kind, Get(m, shf));
    var first := if kind.Sra? then Get(m, shf) else sel;
    var src := PairAddresses(t, x, sel);
    ResultIsApart(t, p, w + 4, ret, w);
    LocatedIsPositive(t, p, w + 4);
    ShiftShape(t, p, w, ret, inp, shf, kind, exit);
    Prologue(t, m, p, w, ret, inp, shf, kind, exit);
    var s4 := Run(State(m, p), 4);
    EndLookup(t, m, s4, p, w, ret, inp, shf, kind, exit, x);
    var s5 := Step(s4);
    EndPut(t, m, s4, p, w, ret, bs, kind, out[EndByte(kind, w)]);
    PutReads(s4.mem, ret + EndByte(kind, w), out[EndByte(kind, w)]);
    PairSources(t, m, s4.mem, s5.mem, p, w, ret, inp, shf, kind, exit, x, sel, first);
    PointwiseWalk(s5.mem, p, bs, 5, w - 1, PairRet(kind, ret), exit, src, w - 1);
    ShiftFinish(s4.mem, s5.mem, Run(s5, w - 1), p, bs, w, ret, kind, exit, src, out);
    assert Run(s4, 0) == s4 && Run(s4, 1) == s5;
    RunCompose(s4, 1, w - 1);
    LookupVisits(s4, s5, p, w);
    Combine(m, p, bs, 4, s4, exit, ret, out);
    ShiftOutIs(kind, x, Get(m, shf));
  }

  lemma LookupVisits(s4: State, s5: State, p: int, w: nat)
    requires w >= 2 && s4.cb == Blk(p, 4) && Visits(s5, w - 1) == Straight(p, 5, w + 4)
    requires Visits(s4, w) == Visits(s4, 1) + Visits(s5, w - 1)
    ensures Visits(s4, w) == Straight(p, 4, w + 4)
  {
    hide Step, Straight;
    StraightCons(p, 4, w + 4);
    assert Run(s4, 0) == s4;
    assert Visits(s4, 0) == multiset{};
    assert Visits(s4, 1) == multiset{Blk(p, 4)};
  }
}
