/** The short chains around a shift: clearing, sign filling and picking bytes out of a double-width buffer. */
module ArithPick {
  import opened Memory
  import opened DmaMachine
  import opened Chains
  import opened Walks
  import opened Scatter
  import opened Numbers
  import opened Tables
  import opened Arith
  import opened ArithShift

  /** A row copied from a disjoint source. */
  lemma {:induction false} RowCopies(m: Mem, dst: int, src: int, n: nat, total: nat)
    requires n <= total && (src + total <= dst || dst + total <= src)
    ensures var r := Row(m, dst, src, n, true, true);
            && (forall i :: dst <= i < dst + n ==> Get(r, i) == Get(m, src + (i - dst)))
            && (forall a :: !(dst <= a < dst + n) ==> Get(r, a) == Get(m, a))
  {
    hide Get, Put;
    if n != 0 {
      RowCopies(m, dst, src, n - 1, total);
      var r, r' := Row(m, dst, src, n, true, true), Row(m, dst, src, n - 1, true, true);
      assert r == Put(r', dst + n - 1, Get(r', src + n - 1));
      assert Get(r', src + n - 1) == Get(m, src + n - 1);
      PutReads(r', dst + n - 1, Get(r', src + n - 1));
    }
  }

  /** A row filled from one 16-byte beat whose bytes are all `v`. */
  lemma {:induction false} RowFills(m: Mem, dst: int, src: int, n: nat, total: nat, v: byte)
    requires n <= total && (src + 16 <= dst || dst + total <= src)
    requires forall i :: src <= i < src + 16 ==> Get(m, i) == v
    ensures var r := Row(m, dst, src, n, true, false);
            && (forall i :: dst <= i < dst + n ==> Get(r, i) == v)
            && (forall a :: !(dst <= a < dst + n) ==> Get(r, a) == Get(m, a))
  {
    hide Get, Put;
    if n != 0 {
      RowFills(m, dst, src, n - 1, total, v);
      var r, r' := Row(m, dst, src, n, true, false), Row(m, dst, src, n - 1, true, false);
      var x := src + (n - 1) % 16;
      assert r == Put(r', dst + n - 1, Get(r', x));
      assert Get(r', x) == Get(m, x) == v;
      PutReads(r', dst + n - 1, v);
    }
  }

  /** A last block that stores `out`. */
  lemma StoreStep(s: State, s': State, p: int, bs: seq<Block>, exit: int, ret: int, out: seq<byte>)
    requires s'.cb == exit && Apart(p, |bs|, ret, |out|)
    requires forall a :: ret <= a < ret + |out| ==> Get(s'.mem, a) == out[a - ret]
    requires forall a :: !(ret <= a < ret + |out|) ==> Get(s'.mem, a) == Get(s.mem, a)
    ensures Bytes(s'.mem, ret, |out|) == out
    ensures SameCode(s.mem, s'.mem, p, bs) && OnlyOwn(s.mem, s'.mem, p, |bs|, ret, |out|)
  {
    hide Get, Bytes, Open;
    var b := Bytes(s'.mem, ret, |out|);
    forall i | 0 <= i < |out| ensures b[i] == out[i] {
      assert Get(s'.mem, ret + i) == out[ret + i - ret];
    }
  }

  // ---------------------------------------------------------------------------------------------
  // Clearing

  function ZeroBlocks(t: Tables, p: int, w: nat, ret: int, exit: int): (bs: seq<Block>)
    ensures |bs| == 1
  {
    [CopyBlock(ret, t.shift.zero, w, exit, false, false, false)]
  }

  function Repeat(v: byte, w: nat): (s: seq<byte>)
    ensures |s| == w && forall i :: 0 <= i < w ==> s[i] == v
  {
    seq<byte>(w, _ => v)
  }

  lemma ZeroRuns(t: Tables, m: Mem, p: int, w: nat, ret: int, exit: int)
    requires 1 <= w < 128 && Located(t, p, 1) && Ready(m, t) && Result(t, p, 1, ret, w)
    requires Code(m, p, ZeroBlocks(t, p, w, ret, exit))
    ensures Completes(m, p, ZeroBlocks(t, p, w, ret, exit), exit, ret, Repeat(0, w))
  {
    hide Step, Visits, Straight, Code, SameCode, OnlyOwn, Get, Located, Ready, Result, Bytes, Repeat, Word, Row, ByteOf;
    var bs := ZeroBlocks(t, p, w, ret, exit);
    var s := State(m, p);
    var zero := t.shift.zero;
    assert Run(s, 0) == s && Run(s, 1) == Step(s) && Blk(p, 0) == p;
    LocatedIsPositive(t, p, 1);
    ResultIsApart(t, p, 1, ret, w);
    ZeroPage(t, m, p, ret, w);
    FixedSource(m, p, bs, 0);
    CodeAt(m, p, bs, 0);
    StepCopy(s, bs[0]);
    RowCopies(m, ret, zero, w, w);
    StoreStep(s, Step(s), p, bs, exit, ret, Repeat(0, w));
    VisitsNone(s, p, 0);
    VisitsNext(s, p, 0, 0);
  }

  lemma ZeroPage(t: Tables, m: Mem, p: int, ret: int, w: nat)
    requires Located(t, p, 1) && Ready(m, t) && Result(t, p, 1, ret, w) && 1 <= w < 128
    ensures 0 <= t.shift.zero < 0x1_0000_0000
    ensures t.shift.zero + w <= ret || ret + w <= t.shift.zero
    ensures forall i :: t.shift.zero <= i < t.shift.zero + w ==> Get(m, i) == 0
  {
    hide Get;
    var z := t.shift.zero;
    assert ShiftPlaced(t.shift);
    forall i | z <= i < z + w ensures Get(m, i) == 0 && InTables(t, i) {
      var k: byte := i - z;
      assert ShiftPageEntry(m, t.shift, k);
    }
    var x := if z <= ret then ret else z;
    assert z <= x < z + w ==> InTables(t, x);
  }

  // ---------------------------------------------------------------------------------------------
  // Chains of two pokes and a store

  /** Two one-byte copies that each fill SRC byte 0 of the following block. */
  predicate PokeChain(p: int, bs: seq<Block>) {
    && |bs| == 3
    && IsCopy(bs[0], SrcAt(p, 1, 0), 1, Blk(p, 1)) && !bs[0].open0 && !bs[0].open1 && !bs[0].open2
    && IsCopy(bs[1], SrcAt(p, 2, 0), 1, Blk(p, 2)) && bs[1].open0 && !bs[1].open1 && !bs[1].open2
    && bs[2].open0 && !bs[2].open1 && !bs[2].open2
  }

  /** After the pokes: the third block's selector is the table entry of the first block's byte. */
  lemma PokesRun(t: Tables, m: Mem, p: int, bs: seq<Block>, page: int, sel: byte)
    requires Located(t, p, 3) && PokeChain(p, bs) && Code(m, p, bs)
    requires 0 <= bs[0].src < 0x1_0000_0000 && !InCode(p, 3, bs[0].src)
    requires Page(page) && bs[1].src == page
    requires InTables(t, page + Get(m, bs[0].src)) && Get(m, page + Get(m, bs[0].src)) == sel
    ensures var s := Run(State(m, p), 2);
            && Quiet(m, s, p, bs, 2) && Get(s.mem, SrcAt(p, 2, 0)) == sel
            && (forall x :: !InCode(p, 3, x) ==> Get(s.mem, x) == Get(m, x))
    ensures Visits(State(m, p), 2) == Straight(p, 0, 2)
  {
    hide Step, Visits, Straight, Code, Get, Located, Word, RowOf, InTables, Page, Put, Prepared;
    var s0 := State(m, p);
    var v := Get(m, bs[0].src);
    LocatedIsPositive(t, p, 3);
    assert Run(s0, 0) == s0 && Run(s0, 1) == Step(s0) && Run(s0, 2) == Step(Run(s0, 1)) && Blk(p, 0) == p;
    FixedSource(m, p, bs, 0);
    PokeStep(s0, p, bs, 0, 1, 0, bs[0].src, v);
    var s1 := Step(s0);
    PutReads(m, SrcAt(p, 1, 0), v);
    PageRowOf(s1.mem, p, bs, 1, page);
    RowPlusByte(s1.mem, p, 1);
    TablesOutside(t, p, 3, page + v);
    assert SrcAt(p, 1, 0) != page + v;
    PokeStep(s1, p, bs, 1, 2, 0, page + v, sel);
    PutReads(s1.mem, SrcAt(p, 2, 0), sel);
    QuietTrans(m, s1.mem, Step(s1), p, bs, 2);
    VisitsNone(s0, p, 0);
    VisitsNext(s0, p, 0, 0);
    VisitsNext(s0, p, 0, 1);
  }

  lemma PokesStore(m: Mem, p: int, bs: seq<Block>, s2: State, s3: State, exit: int, ret: int, out: seq<byte>)
    requires |bs| == 3 && Run(State(m, p), 2) == s2 && Step(s2) == s3 && Quiet(m, s2, p, bs, 2)
    requires Visits(State(m, p), 2) == Straight(p, 0, 2)
    requires s3.cb == exit && Bytes(s3.mem, ret, |out|) == out
    requires SameCode(s2.mem, s3.mem, p, bs) && OnlyOwn(s2.mem, s3.mem, p, |bs|, ret, |out|)
    ensures Completes(m, p, bs, exit, ret, out)
  {
    hide Step, Visits, Straight, Code, SameCode, OnlyOwn, Bytes, Completes, Prepared;
    assert Run(s2, 0) == s2 && Run(s2, 1) == s3;
    StoreVisits(s2, p);
    Combine(m, p, bs, 2, s2, exit, ret, out);
  }

  lemma StoreVisits(s: State, p: int)
    requires s.cb == Blk(p, 2)
    ensures Visits(s, 1) == Straight(p, 2, 3)
  {
    hide Step;
    assert Run(s, 0) == s && Visits(s, 0) == multiset{} && Straight(p, 2, 2) == multiset{};
  }

  // ---------------------------------------------------------------------------------------------
  // Sign filling

  function SignFillBlocks(t: Tables, p: int, w: nat, ret: int, inp: int, exit: int): (bs: seq<Block>)
    ensures |bs| == 3
  {
    [CopyBlock(SrcAt(p, 1, 0), inp + w - 1, 1, Blk(p, 1), false, false, false),
     CopyBlock(SrcAt(p, 2, 0), t.shift.sextWhich, 1, Blk(p, 2), true, false, false),
     Block(TI_DST_INC, t.shift.sextBufs, ret, w, 0, exit, true, false, false)]
  }

  /** The sixteen equal bytes that a top byte selects. */
  function SextSource(t: Tables, top: byte): int {
    t.shift.sextBufs + if top >= 0x80 then 16 else 0
  }

  lemma StepBeat(s: State, b: Block)
    requires s.cb != 0 && Matches(s.mem, s.cb, b) && b.ti == TI_DST_INC && 0 <= b.len < 0x4000_0000
    ensures Step(s) == State(Row(s.mem, b.dst, Word(s.mem, s.cb + 4), b.len, true, false), b.next)
  {
    hide Row, Grid;
  }

  lemma SextEntry(t: Tables, m: Mem, top: byte)
    requires Ready(m, t)
    ensures Get(m, t.shift.sextWhich + top) == SextSource(t, top) % 0x100
    ensures InTables(t, t.shift.sextWhich + top)
    ensures forall i :: SextSource(t, top) <= i < SextSource(t, top) + 16 ==>
              InTables(t, i) && Get(m, i) == if top >= 0x80 then 0xff else 0
  {
    hide Get;
    assert ShiftPageEntry(m, t.shift, top);
    forall i | SextSource(t, top) <= i < SextSource(t, top) + 16
      ensures InTables(t, i) && Get(m, i) == if top >= 0x80 then 0xff else 0
    {
      var k: byte := i - t.shift.sextBufs;
      assert ShiftPageEntry(m, t.shift, k);
    }
  }

  /** SRC of the fill block once the selector is in. */
  lemma SextWord(t: Tables, m: Mem, p: int, bs: seq<Block>, top: byte)
    requires Placed(t) && Code(m, p, bs) && |bs| == 3 && bs[2].src == t.shift.sextBufs && !bs[2].open1 && !bs[2].open2
    requires Get(m, SrcAt(p, 2, 0)) == SextSource(t, top) % 0x100
    ensures Word(m, Blk(p, 2) + 4) == SextSource(t, top)
  {
    hide Code, ByteOf, Get;
    CodeAt(m, p, bs, 2);
    assert ShiftPlaced(t.shift);
    SextBytes(t.shift.sextBufs, if top >= 0x80 then 16 else 0);
  }

  lemma SextBytes(base: int, d: int)
    requires 0 <= base <= 0xFFFF_FFE0 && base % 0x20 == 0 && (d == 0 || d == 16)
    ensures (base + d) % 0x100 + 0x100 * ByteOf(base, 1) + 0x1_0000 * ByteOf(base, 2) + 0x100_0000 * ByteOf(base, 3) == base + d
  {
    WordOfBytes(base);
    assert ByteOf(base, 0) == base % 0x100;
    assert base % 0x100 <= 0xE0;
  }

  lemma SignFillRuns(t: Tables, m: Mem, p: int, w: nat, ret: int, inp: int, exit: int)
    requires 1 <= w < 128 && Located(t, p, 3) && Ready(m, t) && Operand(p, 3, inp, w) && Result(t, p, 3, ret, w)
    requires Code(m, p, SignFillBlocks(t, p, w, ret, inp, exit))
    ensures Completes(m, p, SignFillBlocks(t, p, w, ret, inp, exit), exit, ret, Repeat(SignByte(Bytes(m, inp, w)), w))
  {
    hide Step, Visits, Straight, Code, SameCode, OnlyOwn, Get, Located, Ready, Result, Bytes, Repeat, Word, Row, Completes, InTables,
      Prepared, Page, SextSource;
    var bs := SignFillBlocks(t, p, w, ret, inp, exit);
    var top := Get(m, inp + w - 1);
    var v := if top >= 0x80 then 0xff else 0;
    var a := SextSource(t, top);
    assert SignByte(Bytes(m, inp, w)) == v by { assert Bytes(m, inp, w)[w - 1] == Get(m, inp + (w - 1)); }
    LocatedIsPositive(t, p, 3);
    LocatedIsPlaced(t, p, 3);
    ResultIsApart(t, p, 3, ret, w);
    SextEntry(t, m, top);
    assert Page(t.shift.sextWhich) by { SextPages(t); }
    PokesRun(t, m, p, bs, t.shift.sextWhich, Get(m, t.shift.sextWhich + top));
    var s2 := Run(State(m, p), 2);
    SextWord(t, s2.mem, p, bs, top);
    CodeAt(s2.mem, p, bs, 2);
    BlkPositive(p, 2);
    StepBeat(s2, bs[2]);
    forall i | a <= i < a + 16 ensures Get(s2.mem, i) == v { TablesOutside(t, p, 3, i); }
    assert a + 16 <= ret || ret + w <= a by { SextApart(t, p, ret, w, a); }
    RowFills(s2.mem, ret, a, w, w, v);
    StoreStep(s2, Step(s2), p, bs, exit, ret, Repeat(v, w));
    PokesStore(m, p, bs, s2, Step(s2), exit, ret, Repeat(v, w));
  }

  lemma SextPages(t: Tables)
    requires Placed(t)
    ensures Page(t.shift.sextWhich)
  {
  }

  lemma SextApart(t: Tables, p: int, ret: int, w: nat, a: int)
    requires Result(t, p, 3, ret, w) && w >= 1
    requires forall i :: a <= i < a + 16 ==> InTables(t, i)
    ensures a + 16 <= ret || ret + w <= a
  {
    hide InTables;
    var x := if a <= ret then ret else a;
    assert a <= x < a + 16 ==> InTables(t, x);
  }

  // ---------------------------------------------------------------------------------------------
  // Picking

  function PickBlocks(t: Tables, p: int, w: nat, ret: int, tmp: int, shf: int, tbl: int, exit: int): (bs: seq<Block>)
    ensures |bs| == 3
  {
    [CopyBlock(SrcAt(p, 1, 0), shf, 1, Blk(p, 1), false, false, false),
     CopyBlock(SrcAt(p, 2, 0), tbl, 1, Blk(p, 2), true, false, false),
     CopyBlock(ret, tmp, w, exit, true, false, false)]
  }

  /** The buffer holds two widths, the table was made for this width, and the result lies elsewhere. */
  ghost predicate PickSafe(t: Tables, p: int, n: int, w: nat, ret: int, tmp: int, shf: int, tbl: int) {
    && 1 <= w < 128 && Page(tmp) && tbl in t.shift.selects && t.shift.selects[tbl].width == w
    && Operand(p, n, tmp, 2 * w) && Operand(p, n, shf, 1) && Result(t, p, n, ret, w)
    && (ret + w <= tmp || tmp + 2 * w <= ret)
  }

  lemma SelectAtPage(t: Tables, m: Mem, tbl: int, i: byte)
    requires Placed(t) && Ready(m, t) && tbl in t.shift.selects
    ensures Page(tbl) && t.shift.selects[tbl].width >= 1
    ensures Get(m, tbl + i) == SelectValue(t.shift.selects[tbl], i) && InTables(t, tbl + i)
  {
    hide Get, SelectValue, RippleTable, IncTable, NotTable, BitTable, CmpTable, TruthTables, InHyper, InSuper, InTruth;
    assert ShiftPlaced(t.shift);
    assert Page(tbl) && t.shift.selects[tbl].width >= 1;
    assert SelectEntry(m, tbl, t.shift.selects[tbl], i);
    assert (tbl + i) - (tbl + i) % 0x100 == tbl;
  }

  lemma PickRuns(t: Tables, m: Mem, p: int, w: nat, ret: int, tmp: int, shf: int, tbl: int, exit: int)
    requires Located(t, p, 3) && Ready(m, t) && PickSafe(t, p, 3, w, ret, tmp, shf, tbl)
    requires Code(m, p, PickBlocks(t, p, w, ret, tmp, shf, tbl, exit))
    ensures Completes(m, p, PickBlocks(t, p, w, ret, tmp, shf, tbl, exit), exit, ret,
                      Bytes(m, tmp + SelectValue(t.shift.selects[tbl], Get(m, shf)), w))
  {
    hide Step, Visits, Straight, Code, SameCode, OnlyOwn, Get, Located, Ready, Result, Bytes, Word, Row, Completes, InTables,
      Prepared, Page, SelectValue, RowOf;
    var bs := PickBlocks(t, p, w, ret, tmp, shf, tbl, exit);
    var sel := SelectValue(t.shift.selects[tbl], Get(m, shf));
    var out := Bytes(m, tmp + sel, w);
    LocatedIsPositive(t, p, 3);
    LocatedIsPlaced(t, p, 3);
    ResultIsApart(t, p, 3, ret, w);
    SelectAtPage(t, m, tbl, Get(m, shf));
    PokesRun(t, m, p, bs, tbl, sel) by { assert !InCode(p, 3, shf); PageIsAddress(tbl); }
    var s2 := Run(State(m, p), 2);
    PageRowOf(s2.mem, p, bs, 2, tmp);
    RowPlusByte(s2.mem, p, 2);
    CodeAt(s2.mem, p, bs, 2);
    BlkPositive(p, 2);
    StepCopy(s2, bs[2]);
    RowCopies(s2.mem, ret, tmp + sel, w, w);
    forall a | ret <= a < ret + |out| ensures Get(Step(s2).mem, a) == out[a - ret] {
      assert !InCode(p, 3, tmp + sel + (a - ret));
    }
    StoreStep(s2, Step(s2), p, bs, exit, ret, out);
    PokesStore(m, p, bs, s2, Step(s2), exit, ret, out);
  }

  lemma PageIsAddress(a: int)
    requires Page(a)
    ensures 0 <= a < 0x1_0000_0000
  {
  }
}
