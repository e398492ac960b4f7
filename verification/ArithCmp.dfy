/** The selector automata of `Geu`, `Equ` and `Ges`. */
module ArithCmp {
  import opened Memory
  import opened DmaMachine
  import opened Chains
  import opened Walks
  import opened Scatter
  import opened Numbers
  import opened Tables
  import opened Arith

  // ---------------------------------------------------------------------------------------------
  // The automata on byte strings

  function CmpInit(cmp: Cmp): int {
    if cmp.EquCmp? then 1 else 0
  }

  /** The byte that is looked at in round `i`: `Ges` goes from high to low. */
  function ByteIndex(cmp: Cmp, w: int, i: int): int {
    if cmp.GesCmp? then w - 1 - i else i
  }

  /** The state before round `i`. */
  function CmpState(cmp: Cmp, l: seq<byte>, r: seq<byte>, i: nat): (st: int)
    requires |l| == |r| && i <= |l|
    ensures 0 <= st < CmpStates(cmp)
  {
    if i == 0 then CmpInit(cmp)
    else
      var k := ByteIndex(cmp, |l|, i - 1);
      CmpNext(cmp, CmpState(cmp, l, r, i - 1), l[k], r[k])
  }

  /** What the comparison decides, on integers. */
  predicate Compares(cmp: Cmp, l: seq<byte>, r: seq<byte>)
    requires |l| == |r| >= 1
  {
    match cmp
    case GeuCmp => Value(l) >= Value(r)
    case EquCmp => Value(l) == Value(r)
    case GesCmp => SignedValue(l) >= SignedValue(r)
  }

  lemma {:induction false} GeuStates(l: seq<byte>, r: seq<byte>, i: nat)
    requires |l| == |r| && i <= |l|
    ensures CmpState(GeuCmp, l, r, i) == Carry(-1, l, r, 0, i)
  {
    if i != 0 {
      GeuStates(l, r, i - 1);
    }
  }

  lemma {:induction false} EquStates(l: seq<byte>, r: seq<byte>, i: nat)
    requires |l| == |r| && i <= |l|
    ensures CmpState(EquCmp, l, r, i) == EqualSoFar(l, r, i)
  {
    if i != 0 {
      EquStates(l, r, i - 1);
    }
  }

  lemma {:induction false} GesStates(l: seq<byte>, r: seq<byte>, i: nat)
    requires |l| == |r| && i <= |l|
    ensures CmpState(GesCmp, l, r, i) == GesState(l, r, i)
  {
    if i != 0 {
      GesStates(l, r, i - 1);
    }
  }

  /** The automata accept exactly the pairs for which the comparison holds. */
  lemma CmpCorrect(cmp: Cmp, l: seq<byte>, r: seq<byte>)
    requires |l| == |r| >= 1
    ensures Accepts(cmp, CmpState(cmp, l, r, |l|)) <==> Compares(cmp, l, r)
  {
    hide CmpState, Carry, GesState, EqualSoFar;
    match cmp
    case GeuCmp =>
      GeuStates(l, r, |l|);
      BorrowIsLess(l, r);
    case EquCmp =>
      EquStates(l, r, |l|);
      assert l[..|l|] == l && r[..|l|] == r;
      ValueInjective(l, r);
    case GesCmp =>
      GesStates(l, r, |l|);
      GesCorrect(l, r);
  }

  /** What ICF_X4 and ICF_INV promise: 1, or 4 if scaled, for a comparison that holds, or does not if inverted. */
  function Promised(cmp: Cmp, f: Flags, l: seq<byte>, r: seq<byte>): byte
    requires |l| == |r| >= 1
  {
    if Compares(cmp, l, r) == f.inv then 0 else if f.x4 then 4 else 1
  }

  /** The comparisons that read the entry which `SET_TRUTH_TABLES` stores without its factor. */
  predicate ReadsUnscaled(cmp: Cmp, f: Flags, l: seq<byte>, r: seq<byte>)
    requires |l| == |r|
  {
    cmp.GeuCmp? && f.x4 && !f.inv && Value(l) >= Value(r)
  }

  /** The byte that the chain stores. */
  function CmpResult(cmp: Cmp, f: Flags, l: seq<byte>, r: seq<byte>): byte
    requires |l| == |r| >= 1
  {
    if ReadsUnscaled(cmp, f, l, r) then 1 else Promised(cmp, f, l, r)
  }

  /** An entry is a promised verdict unless it is the one that the macro stores unscaled. */
  lemma EntryIsVerdict(cmp: Cmp, f: Flags, st: int)
    requires 0 <= st < CmpStates(cmp)
    ensures var promised := if Accepts(cmp, st) == f.inv then 0 else if f.x4 then 4 else 1;
            TruthValue(cmp, f, st) == if cmp.GeuCmp? && f.x4 && !f.inv && st == 0 then 1 else promised
  {
  }

  lemma CmpResultIs(cmp: Cmp, f: Flags, l: seq<byte>, r: seq<byte>)
    requires |l| == |r| >= 1
    ensures TruthValue(cmp, f, CmpState(cmp, l, r, |l|)) == CmpResult(cmp, f, l, r)
  {
    hide CmpState, TruthValue;
    CmpCorrect(cmp, l, r);
    EntryIsVerdict(cmp, f, CmpState(cmp, l, r, |l|));
  }

  /**
   The entry that a comparison ends at holds what the flags promise if and only if it is not the unscaled
   one: a scaled, direct, unsigned comparison that holds reads 1 instead of 4.
   */
  lemma ScaledUnlessGeu(cmp: Cmp, f: Flags, l: seq<byte>, r: seq<byte>)
    requires |l| == |r| >= 1
    ensures TruthValue(cmp, f, CmpState(cmp, l, r, |l|)) == Promised(cmp, f, l, r) <==> !ReadsUnscaled(cmp, f, l, r)
    ensures ReadsUnscaled(cmp, f, l, r) ==>
              TruthValue(cmp, f, CmpState(cmp, l, r, |l|)) == 1 && Promised(cmp, f, l, r) == 4
  {
    hide CmpState, TruthValue;
    CmpResultIs(cmp, f, l, r);
  }

  // ---------------------------------------------------------------------------------------------
  // The chains

  /** Block index that looks at byte `k`'s successor: the block that runs after lookup `k`. */
  function NextLookup(cmp: Cmp, w: int, k: int): int {
    if cmp.GesCmp? then (if k == 0 then 2 + w else 1 + k) else 3 + k
  }

  function CmpLookup(t: Tables, p: int, w: nat, cmp: Cmp, k: int): Block {
    var n := NextLookup(cmp, w, k);
    CopyBlock(SrcAt(p, n, 0), t.hyper + CmpColumn(cmp) + CmpInit(cmp), 1, Blk(p, n),
              k != ByteIndex(cmp, w, 0), true, true)
  }

  function CmpBlocks(t: Tables, p: int, w: nat, ret: int, lhs: int, rhs: int, cmp: Cmp, f: Flags, exit: int): (bs: seq<Block>)
    requires w >= 1
    ensures |bs| == w + 3
    ensures bs[0] == ScatterBlock(SrcAt(p, 2, 1), rhs, w, 32, Blk(p, 1))
    ensures bs[1] == ScatterBlock(SrcAt(p, 2, 2), lhs, w, 32, Blk(p, 2 + ByteIndex(cmp, w, 0)))
    ensures forall k :: 2 <= k < w + 2 ==> bs[k] == CmpLookup(t, p, w, cmp, k - 2)
    ensures bs[w + 2] == CopyBlock(ret, TruthTable(t, f), 1, exit, true, false, false)
  {
    [ScatterBlock(SrcAt(p, 2, 1), rhs, w, 32, Blk(p, 1)),
     ScatterBlock(SrcAt(p, 2, 2), lhs, w, 32, Blk(p, 2 + ByteIndex(cmp, w, 0)))]
    + seq(w, k => CmpLookup(t, p, w, cmp, k))
    + [CopyBlock(ret, TruthTable(t, f), 1, exit, true, false, false)]
  }

  /** The blocks in the order in which they run. */
  function Order(cmp: Cmp, w: nat): (ix: seq<int>)
    ensures |ix| == w + 1 && ix[w] == w + 2
    ensures forall i :: 0 <= i < w ==> ix[i] == 2 + ByteIndex(cmp, w, i)
  {
    seq(w, i => 2 + ByteIndex(cmp, w, i)) + [w + 2]
  }

  function CmpRows(t: Tables, cmp: Cmp, l: seq<byte>, r: seq<byte>): (rows: seq<int>)
    requires |l| == |r|
    ensures |rows| == |l|
    ensures forall i :: 0 <= i < |l| ==> rows[i] == HyperRow(t, l[ByteIndex(cmp, |l|, i)], r[ByteIndex(cmp, |l|, i)])
  {
    seq(|l|, i requires 0 <= i < |l| => HyperRow(t, l[ByteIndex(cmp, |l|, i)], r[ByteIndex(cmp, |l|, i)]))
  }

  function CmpSelectors(cmp: Cmp, l: seq<byte>, r: seq<byte>): (sels: seq<byte>)
    requires |l| == |r|
    ensures |sels| == |l| + 1 && forall i :: 0 <= i <= |l| ==> sels[i] == CmpColumn(cmp) + CmpState(cmp, l, r, i)
  {
    seq<byte>(|l| + 1, i requires 0 <= i <= |l| => (CmpColumn(cmp) + CmpState(cmp, l, r, i)) as byte)
  }

  lemma CmpShape(t: Tables, p: int, w: nat, ret: int, lhs: int, rhs: int, cmp: Cmp, f: Flags, exit: int)
    requires 1 <= w && p > 0
    ensures var bs := CmpBlocks(t, p, w, ret, lhs, rhs, cmp, f, exit);
            && AutomatonShape(p, bs, Order(cmp, w))
            && ScatterTarget(bs, 2, 32, 1, w) && ScatterTarget(bs, 2, 32, 2, w)
  {
    hide CmpBlocks, Order, TruthTable, CmpColumn;
    var bs, ix := CmpBlocks(t, p, w, ret, lhs, rhs, cmp, f, exit), Order(cmp, w);
    forall k | 0 <= k < w
      ensures 0 <= Idx(2, 32, k) < |bs| && OpenByte(bs[Idx(2, 32, k)], 5) && OpenByte(bs[Idx(2, 32, k)], 6)
    {
      assert bs[2 + k] == CmpLookup(t, p, w, cmp, k);
    }
    forall i | 0 <= i < |ix| - 1
      ensures 0 <= ix[i] < |bs| && AutomatonBlock(p, bs, ix[i], ix[i + 1]) && (1 <= i ==> bs[ix[i]].open0)
    {
      assert bs[ix[i]] == CmpLookup(t, p, w, cmp, ByteIndex(cmp, w, i));
    }
  }

  lemma CmpEntryAt(m: Mem, t: Tables, cmp: Cmp, i: byte, j: byte, st: int)
    requires Ready(m, t) && 0 <= st < CmpStates(cmp)
    ensures CmpEntry(m, HyperRow(t, i, j), cmp, i, j, st)
  {
    hide CmpEntry, HyperRow;
    assert CmpTable(m, t, cmp);
  }

  lemma TruthEntryAt(m: Mem, t: Tables, cmp: Cmp, f: Flags, st: int)
    requires Ready(m, t) && 0 <= st < CmpStates(cmp)
    ensures TruthEntry(m, t, cmp, f, st)
  {
    hide TruthEntry;
    assert TruthTables(m, t, cmp);
  }

  /** What round `i` finds. */
  lemma CmpSource(t: Tables, m: Mem, m1: Mem, p: int, w: nat, ret: int, lhs: int, rhs: int, cmp: Cmp, f: Flags, exit: int,
                  l: seq<byte>, r: seq<byte>, i: nat)
    requires 1 <= w && i < w && Located(t, p, w + 3) && Ready(m, t) && Result(t, p, w + 3, ret, 1)
    requires var bs := CmpBlocks(t, p, w, ret, lhs, rhs, cmp, f, exit); Code(m1, p, bs) && Prepared(m, m1, p, bs)
    requires Scattered(m, m1, p, 2, 32, 1, rhs, w) && Scattered(m, m1, p, 2, 32, 2, lhs, w)
    requires l == Bytes(m, lhs, w) && r == Bytes(m, rhs, w)
    ensures SelectAt(m1, p, w + 3, Order(cmp, w), CmpRows(t, cmp, l, r), CmpSelectors(cmp, l, r), i)
    ensures i == 0 ==> Get(m1, SrcAt(p, Order(cmp, w)[0], 0)) == CmpSelectors(cmp, l, r)[0]
  {
    hide Code, Prepared, Ready, Placed, Word, RowOf, CmpBlocks, Get, InTables, Scattered, CmpNext, CmpRows, CmpSelectors, Order,
      Bytes, HyperRow, Located, Result, Clear;
    var bs := CmpBlocks(t, p, w, ret, lhs, rhs, cmp, f, exit);
    var k := ByteIndex(cmp, w, i);
    var st := CmpState(cmp, l, r, i);
    assert bs[2 + k] == CmpLookup(t, p, w, cmp, k);
    LocatedIsPlaced(t, p, w + 3);
    HyperRowOf(t, m1, p, bs, 2 + k, CmpColumn(cmp) + CmpInit(cmp));
    ScatteredAt(m, m1, p, 2, 32, 1, rhs, w, k);
    ScatteredAt(m, m1, p, 2, 32, 2, lhs, w, k);
    var a := HyperRow(t, l[k], r[k]) + CmpColumn(cmp) + st;
    HyperClear(t, p, |bs|, ret, 1, l[k], r[k], CmpColumn(cmp) + st);
    ClearMeans(p, |bs|, ret, 1, a);
    CmpEntryAt(m, t, cmp, l[k], r[k], st);
    SourceStays(m, m1, p, bs, a);
    assert CmpState(cmp, l, r, i + 1) == CmpNext(cmp, st, l[k], r[k]);
    assert CmpState(cmp, l, r, 0) == CmpInit(cmp);
  }

  lemma CmpSelects(t: Tables, m: Mem, m1: Mem, p: int, w: nat, ret: int, lhs: int, rhs: int, cmp: Cmp, f: Flags, exit: int,
                   l: seq<byte>, r: seq<byte>)
    requires 1 <= w && Located(t, p, w + 3) && Ready(m, t) && Result(t, p, w + 3, ret, 1)
    requires var bs := CmpBlocks(t, p, w, ret, lhs, rhs, cmp, f, exit); Code(m1, p, bs) && Prepared(m, m1, p, bs)
    requires Scattered(m, m1, p, 2, 32, 1, rhs, w) && Scattered(m, m1, p, 2, 32, 2, lhs, w)
    requires l == Bytes(m, lhs, w) && r == Bytes(m, rhs, w)
    ensures Selects(m1, p, w + 3, Order(cmp, w), CmpRows(t, cmp, l, r), CmpSelectors(cmp, l, r))
  {
    hide *;
    var n := w + 3;
    var ix, rows, sels := Order(cmp, w), CmpRows(t, cmp, l, r), CmpSelectors(cmp, l, r);
    forall i | 0 <= i < w ensures SelectAt(m1, p, n, ix, rows, sels, i) {
      CmpSource(t, m, m1, p, w, ret, lhs, rhs, cmp, f, exit, l, r, i);
    }
    CmpSource(t, m, m1, p, w, ret, lhs, rhs, cmp, f, exit, l, r, 0);
    SelectsAre(m1, p, n, ix, rows, sels);
  }

  /** The lookups run once each, in either direction. */
  lemma {:induction false} OrderTouches(p: int, cmp: Cmp, w: nat, i: nat)
    requires i <= w
    ensures Touched(p, Order(cmp, w), i) == if cmp.GesCmp? then Straight(p, w + 2 - i, w + 2) else Straight(p, 2, 2 + i)
  {
    hide Order, Straight, Blk, Touched;
    if i == 0 {
      TouchedNone(p, Order(cmp, w));
      StraightEmpty(p, w + 2);
      StraightEmpty(p, 2);
    } else {
      OrderTouches(p, cmp, w, i - 1);
      var a := w + 2 - i;
      TouchedSnoc(p, Order(cmp, w), i);
      if cmp.GesCmp? {
        assert Order(cmp, w)[i - 1] == a;
        assert w + 2 - (i - 1) == a + 1;
        StraightCons(p, a, w + 2);
      } else {
        assert Order(cmp, w)[i - 1] == 1 + i;
        StraightSnoc(p, 2, 2 + i);
      }
    }
  }

  lemma TouchedNone(p: int, ix: seq<int>)
    ensures Touched(p, ix, 0) == multiset{}
  {
  }

  lemma TouchedSnoc(p: int, ix: seq<int>, i: int)
    requires 0 < i <= |ix|
    ensures Touched(p, ix, i) == Touched(p, ix, i - 1) + multiset{Blk(p, ix[i - 1])}
  {
  }

  /** The last block: the selector picks the truth value. */
  lemma CmpLast(t: Tables, m: Mem, m1: Mem, s: State, p: int, w: nat, ret: int, lhs: int, rhs: int, cmp: Cmp, f: Flags, exit: int, st: int)
    requires 1 <= w && 0 <= st < CmpStates(cmp) && Located(t, p, w + 3) && Ready(m, t) && Result(t, p, w + 3, ret, 1)
    requires var bs := CmpBlocks(t, p, w, ret, lhs, rhs, cmp, f, exit);
             Code(m1, p, bs) && Prepared(m, m1, p, bs) && AutomatonInv(m1, s, p, bs, w + 2, (CmpColumn(cmp) + st) as byte)
    ensures var bs := CmpBlocks(t, p, w, ret, lhs, rhs, cmp, f, exit);
            && Step(s).cb == exit && Bytes(Step(s).mem, ret, 1) == [TruthValue(cmp, f, st)]
            && SameCode(m1, Step(s).mem, p, bs) && OnlyOwn(m1, Step(s).mem, p, |bs|, ret, 1)
  {
    hide Step, Code, Ready, Placed, Word, SameCode, CmpBlocks, InTables, TruthValue, OnlySelectors, Prepared, RowOf, Located, Result;
    var bs := CmpBlocks(t, p, w, ret, lhs, rhs, cmp, f, exit);
    var a := TruthTable(t, f) + CmpColumn(cmp) + st;
    LocatedIsPlaced(t, p, w + 3);
    CodeFrame(m1, s.mem, p, bs);
    TruthPage(t, f);
    PageRowOf(s.mem, p, bs, w + 2, TruthTable(t, f));
    assert Word(s.mem, Blk(p, w + 2) + 4) == a by { RowPlusByte(s.mem, p, w + 2); }
    TruthOutside(t, p, w + 3, ret, f, CmpColumn(cmp) + st);
    TruthEntryAt(m, t, cmp, f, st);
    SourceStays(m, m1, p, bs, a);
    SelectorStays(m1, s.mem, p, |bs|, a);
    CopyOne(s, p, bs, w + 2, ret, exit) by { LocatedIsPositive(t, p, w + 3); }
    PutResult(m1, s.mem, p, bs, ret, TruthValue(cmp, f, st)) by { ResultIsApart(t, p, w + 3, ret, 1); }
  }

  lemma TruthPage(t: Tables, f: Flags)
    requires Placed(t)
    ensures Page(TruthTable(t, f))
  {
  }

  lemma TruthOutside(t: Tables, p: int, n: int, ret: int, f: Flags, col: int)
    requires Located(t, p, n) && Result(t, p, n, ret, 1) && 0 <= col < 0x100
    ensures Clear(p, n, ret, 1, TruthTable(t, f) + col)
  {
    hide Placed;
    assert InTables(t, TruthTable(t, f) + col);
  }

  lemma SelectorStays(m: Mem, m': Mem, p: int, n: int, a: int)
    requires OnlySelectors(m, m', p, n) && !InCode(p, n, a)
    ensures Get(m', a) == Get(m, a)
  {
  }

  lemma PutResult(m: Mem, m': Mem, p: int, bs: seq<Block>, ret: int, v: byte)
    requires SameCode(m, m', p, bs) && OnlySelectors(m, m', p, |bs|) && Apart(p, |bs|, ret, 1)
    ensures SameCode(m, Put(m', ret, v), p, bs) && OnlyOwn(m, Put(m', ret, v), p, |bs|, ret, 1)
    ensures Bytes(Put(m', ret, v), ret, 1) == [v]
  {
    hide Open;
  }

  /** The comparisons store their verdict; `Ges` runs its lookups backwards. */
  lemma CmpRuns(t: Tables, m: Mem, p: int, w: nat, ret: int, lhs: int, rhs: int, cmp: Cmp, f: Flags, exit: int)
    requires 1 <= w <= 0x4000 && Located(t, p, w + 3) && Ready(m, t)
    requires Operand(p, w + 3, lhs, w) && Operand(p, w + 3, rhs, w) && Result(t, p, w + 3, ret, 1)
    requires Code(m, p, CmpBlocks(t, p, w, ret, lhs, rhs, cmp, f, exit))
    ensures Completes(m, p, CmpBlocks(t, p, w, ret, lhs, rhs, cmp, f, exit), exit, ret,
                      [CmpResult(cmp, f, Bytes(m, lhs, w), Bytes(m, rhs, w))])
  {
    hide Step, Visits, Straight, Code, SameCode, OnlyOwn, Scattered, ScatterTarget, AutomatonShape, AutomatonInv, Selects,
      Ready, Get, InTables, Placed, CmpBlocks, Bytes, Word, Touched, CmpRows, CmpSelectors, CmpState, CmpResult, TruthValue,
      Completes, Prepared;
    var bs := CmpBlocks(t, p, w, ret, lhs, rhs, cmp, f, exit);
    var l, r := Bytes(m, lhs, w), Bytes(m, rhs, w);
    var ix, sels := Order(cmp, w), CmpSelectors(cmp, l, r);
    CmpShape(t, p, w, ret, lhs, rhs, cmp, f, exit);
    TwoScatters(m, p, bs, 32, rhs, lhs, w, Blk(p, 2 + ByteIndex(cmp, w, 0)));
    var s1 := Run(State(m, p), 2);
    CmpSelects(t, m, s1.mem, p, w, ret, lhs, rhs, cmp, f, exit, l, r);
    AutomatonWalk(s1.mem, p, bs, ix, CmpRows(t, cmp, l, r), sels, w);
    var s2 := Run(s1, w);
    CmpLast(t, m, s1.mem, s2, p, w, ret, lhs, rhs, cmp, f, exit, CmpState(cmp, l, r, w));
    CmpResultIs(cmp, f, l, r);
    assert Run(s1, w + 1) == Step(s2);
    CmpVisits(s1, p, cmp, w) by { AutomatonAt(s1.mem, s2, p, bs, w + 2, sels[w]); }
    Combine(m, p, bs, 2, s1, exit, ret, [CmpResult(cmp, f, l, r)]);
  }

  lemma AutomatonAt(m: Mem, s: State, p: int, bs: seq<Block>, k: int, sel: byte)
    requires AutomatonInv(m, s, p, bs, k, sel)
    ensures s.cb == Blk(p, k)
  {
  }

  lemma CmpVisits(s: State, p: int, cmp: Cmp, w: nat)
    requires Visits(s, w) == Touched(p, Order(cmp, w), w) && Run(s, w).cb == Blk(p, w + 2)
    ensures Visits(s, w + 1) == Straight(p, 2, w + 3)
  {
    hide Run, Touched, Order;
    OrderTouches(p, cmp, w, w);
  }
}
