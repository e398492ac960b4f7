/** The table initializers: run in any order, they establish everything the chains rely on. */
module TableInit {
  import opened Shared
  import opened Memory
  import opened Numbers
  import opened Tables
  import opened ArithInt
  import opened Emit

  /** The columns of HYPER and the formula that fills each of them. */
  datatype Column = AddColumnOf(sub: bool) | BitColumnOf(op: BitOp) | CmpColumnOf(cmp: Cmp) | ShiftColumnOf(left: bool)

  function Lo(c: Column): (lo: int)
    ensures 4 <= lo <= 0x34
  {
    match c
    case AddColumnOf(sub) => if sub then HYPER_SUB else HYPER_ADD
    case BitColumnOf(op) => BitColumn(op)
    case CmpColumnOf(cmp) => CmpColumn(cmp)
    case ShiftColumnOf(left) => if left then HYPER_SLL else HYPER_SRL
  }

  function Len(c: Column): (n: int)
    ensures 1 <= n <= 8
  {
    match c
    case AddColumnOf(_) => 4
    case BitColumnOf(_) => 1
    case CmpColumnOf(cmp) => CmpStates(cmp)
    case ShiftColumnOf(_) => 8
  }

  function Sign(sub: bool): int {
    if sub then -1 else 1
  }

  /** The `k`-th byte of a column in the row of (i, j). */
  function Content(c: Column, i: byte, j: byte, k: int): byte
    requires 0 <= k < Len(c)
  {
    match c
    case AddColumnOf(sub) =>
      var d := Digit(Sign(sub), i, j, k / 2);
      if k % 2 == 0 then d % 256 else Lo(c) + 2 * CarryOut(Sign(sub), d)
    case BitColumnOf(op) => (BitwiseByte(op, i, j); Bitwise(op, i, j) as byte)
    case CmpColumnOf(cmp) => Lo(c) + CmpNext(cmp, k, i, j)
    case ShiftColumnOf(left) => if left then LeftByte(i, j, k) else RightByte(i, j, k)
  }

  /** The conditional of C: anything but zero is true. */
  function Pick(x: int, yes: byte, no: byte): byte {
    if x != 0 then yes else no
  }

  /**
   What the loops store, in the arithmetic of C: the sums and differences are 16 bits wide, the difference
   in `geu` is as wide as `size_t`, and bytes keep the low eight bits.
   */
  function Stored(c: Column, i: byte, j: byte, k: int): byte
    requires 0 <= k < Len(c)
  {
    match c
    case AddColumnOf(sub) =>
      var r := (if sub then i - j - k / 2 else i + j + k / 2) % 0x1_0000;
      if k % 2 == 0 then r % 0x100 else Pick(r / 0x100, Lo(c) + 2, Lo(c))
    case BitColumnOf(op) => OnBytes(op, i as bv8, j as bv8) as byte
    case CmpColumnOf(GeuCmp) => Pick((i - j - k) % 0x1_0000_0000 / 0x100, HYPER_GEU + 1, HYPER_GEU)
    case CmpColumnOf(EquCmp) => if i == j && k != 0 then HYPER_EQU + 1 else HYPER_EQU
    case CmpColumnOf(GesCmp) => StoredGes(i, j, k)
    case ShiftColumnOf(left) =>
      var w := 0x100 * i + j;
      if left then w * P2(k) % 0x1_0000_0000 / 0x100 % 0x100 else w / P2(k) % 0x100
  }

  /** The `switch` of `ges`. */
  function StoredGes(i: byte, j: byte, k: int): byte
    requires 0 <= k < 4
  {
    var high, no, yes, same := HYPER_GES, HYPER_GES + 1, HYPER_GES + 2, HYPER_GES + 3;
    if HYPER_GES + k == high then (if Int8(i) < Int8(j) then no else if Int8(i) > Int8(j) then yes else same)
    else if HYPER_GES + k == same then (if i < j then no else if i > j then yes else same)
    else HYPER_GES + k
  }

  /** The stored bytes are the table's contents. */
  lemma StoredIsContent(c: Column, i: byte, j: byte, k: int)
    requires 0 <= k < Len(c)
    ensures Stored(c, i, j, k) == Content(c, i, j, k)
  {
    hide Stored, Content;
    match c
    case AddColumnOf(sub) => StoredSum(sub, i, j, k);
    case BitColumnOf(op) => StoredBits(op, i, j);
    case CmpColumnOf(cmp) => StoredCmp(cmp, i, j, k);
    case ShiftColumnOf(left) => StoredShift(left, i, j, k);
  }

  lemma StoredSum(sub: bool, i: byte, j: byte, k: int)
    requires 0 <= k < 4
    ensures Stored(AddColumnOf(sub), i, j, k) == Content(AddColumnOf(sub), i, j, k)
  {
    if sub {
      Wrapped(i - j - k / 2);
    } else {
      Wrapped(i + j + k / 2);
    }
  }

  lemma StoredBits(op: BitOp, i: byte, j: byte)
    ensures Stored(BitColumnOf(op), i, j, 0) == Content(BitColumnOf(op), i, j, 0)
  {
    hide Bitwise, OnBytes;
    ByteBack(i);
    ByteBack(j);
    OnBytesIs(op, i as bv8, j as bv8);
  }

  lemma StoredCmp(cmp: Cmp, i: byte, j: byte, k: int)
    requires 0 <= k < CmpStates(cmp)
    ensures Stored(CmpColumnOf(cmp), i, j, k) == Content(CmpColumnOf(cmp), i, j, k)
  {
  }

  lemma StoredShift(left: bool, i: byte, j: byte, k: int)
    requires 0 <= k < 8
    ensures Stored(ShiftColumnOf(left), i, j, k) == Content(ShiftColumnOf(left), i, j, k)
  {
    hide P2;
    Small(0x100 * i + j, P2(k));
  }

  /** A small sum or difference in 16 bits: its low byte, and whether it left the byte. */
  lemma Wrapped(d: int)
    requires -0x100 <= d < 0x200
    ensures d % 0x1_0000 % 0x100 == d % 0x100 && (d % 0x1_0000 / 0x100 != 0 <==> d / 0x100 != 0)
  {
  }

  lemma Small(x: int, y: int)
    requires 0 <= x < 0x1_0000 && 1 <= y <= 128
    ensures 0 <= x * y < 0x1_0000_0000
  {
    assert x * y <= 0x1_0000 * y;
  }

  /** One initializer. */
  datatype Init = HyperInit(column: Column) | IncInit | NotInit | TruthInit(cmp: Cmp) | ShiftPagesInit | SraInit

  /** The tables do not overlap. */
  ghost predicate Separate(t: Tables) {
    && Placed(t)
    && (forall a :: InShift(t.shift, a) ==> !InHyper(t, a) && !InSuper(t, a) && !InRange(t.not, 0x100, a) && !InTruth(t, a))
    && var h := t.shift;
       && (forall a :: InRange(h.sraHi, SUPER_SIZE, a) ==> !InPages(h, a) && !InRange(h.zero, 0x100, a))
       && (forall a :: InRange(h.zero, 0x100, a) ==> !InPages(h, a))
       && h.sllSelect != h.srlSelect && h.sllSelect != h.sextWhich && h.srlSelect != h.sextWhich
       && !InRange(h.sllSelect, 0x100, h.sextBufs) && !InRange(h.srlSelect, 0x100, h.sextBufs) && !InRange(h.sextWhich, 0x100, h.sextBufs)
  }

  predicate InPages(h: ShiftTables, a: int) {
    || InRange(h.sllSelect, 0x100, a) || InRange(h.srlSelect, 0x100, a) || InRange(h.sextWhich, 0x100, a) || InRange(h.sextBufs, 0x20, a)
  }

  /** The addresses an initializer writes. */
  predicate Foot(init: Init, t: Tables, a: int) {
    match init
    case HyperInit(c) => InHyper(t, a) && Lo(c) <= a % 0x100 < Lo(c) + Len(c)
    case IncInit => InSuper(t, a)
    case NotInit => InRange(t.not, 0x100, a)
    case TruthInit(cmp) => InTruth(t, a) && CmpColumn(cmp) <= a % 0x100 < CmpColumn(cmp) + CmpStates(cmp)
    case ShiftPagesInit => InPages(t.shift, a)
    case SraInit => InRange(t.shift.sraHi, SUPER_SIZE, a)
  }

  lemma ColumnsDisjoint(c: Column, d: Column, x: int)
    requires Lo(c) <= x < Lo(c) + Len(c) && Lo(d) <= x < Lo(d) + Len(d)
    ensures c == d
  {
  }

  /** Different initializers write different addresses. */
  lemma FootDisjoint(x: Init, y: Init, t: Tables, a: int)
    requires Separate(t) && Foot(x, t, a) && Foot(y, t, a)
    ensures x == y
  {
    hide Placed, Lo, Len;
    PlacedApart(t, a);
    if x.HyperInit? && y.HyperInit? {
      ColumnsDisjoint(x.column, y.column, a % 0x100);
    }
  }

  /** An aligned page is inside an aligned region or clear of it. */
  lemma PageOut(base: int, size: int, unit: int, page: int, a: int)
    requires unit == 0x100 || unit == 0x1_0000
    requires base % unit == 0 && size % unit == 0 && page % unit == 0 && !InRange(base, size, page) && InRange(page, unit, a)
    ensures !InRange(base, size, a)
  {
    if unit == 0x100 {
      assert base == 0x100 * (base / 0x100) && size == 0x100 * (size / 0x100) && page == 0x100 * (page / 0x100);
    } else {
      assert base == 0x1_0000 * (base / 0x1_0000) && size == 0x1_0000 * (size / 0x1_0000) && page == 0x1_0000 * (page / 0x1_0000);
    }
  }

  lemma TablePageApart(t: Tables, page: int, a: int)
    requires t.hyper % HYPER_SIZE == 0 && t.super % SUPER_SIZE == 0
    requires Page(page) && !InHyper(t, page) && !InSuper(t, page) && InRange(page, 0x100, a)
    ensures !InHyper(t, a) && !InSuper(t, a)
  {
    HyperAligned(t.hyper);
    SuperAligned(t.super);
    PageOut(t.hyper, HYPER_SIZE, 0x100, page, a);
    PageOut(t.super, SUPER_SIZE, 0x100, page, a);
  }

  lemma SuperAligned(h: int)
    requires h % SUPER_SIZE == 0
    ensures h % 0x100 == 0
  {
    var q := h / SUPER_SIZE;
    assert h == 0x100 * (0x100 * q);
  }

  lemma HyperAlignedWide(h: int)
    requires h % HYPER_SIZE == 0
    ensures h % SUPER_SIZE == 0
  {
    var q := h / HYPER_SIZE;
    assert h == 0x1_0000 * (0x100 * q);
  }

  lemma PlacedApart(t: Tables, a: int)
    requires Placed(t)
    ensures InHyper(t, a) ==> !InSuper(t, a) && !InRange(t.not, 0x100, a) && !InTruth(t, a)
    ensures InSuper(t, a) ==> !InRange(t.not, 0x100, a) && !InTruth(t, a)
    ensures InRange(t.not, 0x100, a) ==> !InTruth(t, a)
  {
    hide ShiftPlaced, InHyper, InSuper;
    if InRange(t.not, 0x100, a) { TablePageApart(t, t.not, a); }
    if InRange(t.polarX1, 0x100, a) { TablePageApart(t, t.polarX1, a); }
    if InRange(t.antipolarX1, 0x100, a) { TablePageApart(t, t.antipolarX1, a); }
    if InRange(t.polarX4, 0x100, a) { TablePageApart(t, t.polarX4, a); }
    if InRange(t.antipolarX4, 0x100, a) { TablePageApart(t, t.antipolarX4, a); }
    SuperOut(t, a);
    PageApart(t.not, t.polarX1);
    PageApart(t.not, t.antipolarX1);
    PageApart(t.not, t.polarX4);
    PageApart(t.not, t.antipolarX4);
  }

  lemma SuperOut(t: Tables, a: int)
    requires t.hyper % HYPER_SIZE == 0 && t.super % SUPER_SIZE == 0 && !InHyper(t, t.super)
    ensures InSuper(t, a) ==> !InHyper(t, a)
  {
    if InSuper(t, a) {
      HyperAlignedWide(t.hyper);
      PageOut(t.hyper, HYPER_SIZE, 0x1_0000, t.super, a);
    }
  }

  predicate HyperCell(m: Mem, t: Tables, c: Column, i: byte, j: byte, k: int)
    requires 0 <= k < Len(c)
  {
    Get(m, HyperRow(t, i, j) + Lo(c) + k) == Content(c, i, j, k)
  }

  predicate IncCell(m: Mem, t: Tables, i: byte) {
    RippleEntry(m, SuperRow(t, i), SUPER_INC, 1, i, 0, 0) && RippleEntry(m, SuperRow(t, i), SUPER_INC, 1, i, 0, 1)
  }

  predicate PageCell(m: Mem, h: ShiftTables, i: byte) {
    && Get(m, h.sllSelect + i) == HYPER_SLL + i % 8
    && Get(m, h.srlSelect + i) == HYPER_SRL + i % 8
    && Get(m, h.sextWhich + i) == (h.sextBufs + if i >= 0x80 then 16 else 0) % 0x100
    && (i < 32 ==> Get(m, h.sextBufs + i) == if i < 16 then 0 else 0xff)
  }

  /** What an initializer establishes. */
  ghost predicate Fact(init: Init, m: Mem, t: Tables) {
    match init
    case HyperInit(c) => forall i: byte, j: byte, k :: 0 <= k < Len(c) ==> HyperCell(m, t, c, i, j, k)
    case IncInit => forall i: byte :: IncCell(m, t, i)
    case NotInit => NotTable(m, t)
    case TruthInit(cmp) => TruthTables(m, t, cmp)
    case ShiftPagesInit => forall i: byte :: PageCell(m, t.shift, i)
    case SraInit => forall i: byte, j: byte :: SraEntry(m, t.shift, i, j)
  }

  /** Nothing outside the footprint changes. */
  ghost predicate OnlyFoot(init: Init, m: Mem, m': Mem, t: Tables) {
    forall a :: !Foot(init, t, a) ==> Get(m', a) == Get(m, a)
  }

  // ---------------------------------------------------------------------------------------------
  // Facts depend on their footprints only

  lemma RowAligned(hyper: int, i: int, j: int)
    requires hyper % 0x100 == 0
    ensures (hyper + 0x1_0000 * i + 0x100 * j) % 0x100 == 0
  {
    var q := hyper / 0x100 + 0x100 * i + j;
    assert hyper + 0x1_0000 * i + 0x100 * j == 0x100 * q;
    assert 0x100 * q % 0x100 == 0;
  }

  lemma HyperFoot(t: Tables, c: Column, i: byte, j: byte, k: int)
    requires Placed(t) && 0 <= k < Len(c)
    ensures Foot(HyperInit(c), t, HyperRow(t, i, j) + Lo(c) + k)
    ensures (HyperRow(t, i, j) + Lo(c) + k) % 0x100 == Lo(c) + k
  {
    hide ShiftPlaced, Lo, Len;
    HyperAligned(t.hyper);
    RowAligned(t.hyper, i, j);
    PageOffset(HyperRow(t, i, j), Lo(c) + k);
  }

  lemma HyperAligned(h: int)
    requires h % HYPER_SIZE == 0
    ensures h % 0x100 == 0
  {
    var q := h / HYPER_SIZE;
    assert h == 0x100 * (0x1_0000 * q);
  }

  lemma TruthFoot(t: Tables, cmp: Cmp, f: Flags, st: int)
    requires Placed(t) && 0 <= st < CmpStates(cmp)
    ensures Foot(TruthInit(cmp), t, TruthTable(t, f) + CmpColumn(cmp) + st)
  {
    hide ShiftPlaced;
    var p := TruthTable(t, f);
    assert Page(p);
    PageOffset(p, CmpColumn(cmp) + st);
  }

  lemma FactFrame(init: Init, m: Mem, m': Mem, t: Tables)
    requires Placed(t) && Fact(init, m, t)
    requires forall a :: Foot(init, t, a) ==> Get(m', a) == Get(m, a)
    ensures Fact(init, m', t)
  {
    hide Content, TruthValue, Placed, Lo, Len, Digit, CarryOut, Get;
    match init
    case HyperInit(c) =>
      forall i: byte, j: byte, k | 0 <= k < Len(c) ensures HyperCell(m', t, c, i, j, k) {
        HyperFoot(t, c, i, j, k);
        assert HyperCell(m, t, c, i, j, k);
      }
    case IncInit =>
      forall i: byte ensures IncCell(m', t, i) {
        assert IncCell(m, t, i);
        assert Foot(init, t, SuperRow(t, i)) && Foot(init, t, SuperRow(t, i) + 1) && Foot(init, t, SuperRow(t, i) + 2) && Foot(init, t, SuperRow(t, i) + 3);
      }
    case NotInit =>
      forall i: byte ensures NotEntry(m', t.not, i) {
        assert NotEntry(m, t.not, i) && Foot(init, t, t.not + i);
      }
    case TruthInit(cmp) =>
      forall f: Flags, st | 0 <= st < CmpStates(cmp) ensures TruthEntry(m', t, cmp, f, st) {
        TruthFoot(t, cmp, f, st);
        assert TruthEntry(m, t, cmp, f, st);
      }
    case ShiftPagesInit =>
      forall i: byte ensures PageCell(m', t.shift, i) {
        assert PageCell(m, t.shift, i);
        assert Foot(init, t, t.shift.sllSelect + i) && Foot(init, t, t.shift.srlSelect + i) && Foot(init, t, t.shift.sextWhich + i);
        assert i < 32 ==> Foot(init, t, t.shift.sextBufs + i);
      }
    case SraInit =>
      forall i: byte, j: byte ensures SraEntry(m', t.shift, i, j) {
        assert SraEntry(m, t.shift, i, j) && Foot(init, t, t.shift.sraHi + 0x100 * i + j);
      }
  }

  // ---------------------------------------------------------------------------------------------
  // The initializers

  /** The addresses of one row, and of one block of 256 rows. */
  predicate InRow(t: Tables, i: byte, j: byte, a: int) {
    InRange(HyperRow(t, i, j), 0x100, a)
  }

  method FillCell(ram: Ram, t: Tables, c: Column, i: byte, j: byte)
    requires Placed(t)
    modifies ram
    ensures forall k :: 0 <= k < Len(c) ==> HyperCell(ram.cells, t, c, i, j, k)
    ensures forall a :: !(Foot(HyperInit(c), t, a) && InRow(t, i, j, a)) ==> Get(ram.cells, a) == Get(old(ram.cells), a)
  {
    hide Content, Stored, Placed, Lo, Len, Foot;
    for k := 0 to Len(c)
      invariant forall k' :: 0 <= k' < k ==> HyperCell(ram.cells, t, c, i, j, k')
      invariant forall a :: !(Foot(HyperInit(c), t, a) && InRow(t, i, j, a)) ==> Get(ram.cells, a) == Get(old(ram.cells), a)
    {
      ghost var before := ram.cells;
      HyperFoot(t, c, i, j, k);
      StoredIsContent(c, i, j, k);
      ram.Store(HyperRow(t, i, j) + Lo(c) + k, Stored(c, i, j, k));
      forall k' | 0 <= k' <= k ensures HyperCell(ram.cells, t, c, i, j, k') {
        if k' < k {
          assert HyperCell(before, t, c, i, j, k');
        }
      }
    }
  }

  method FillRow(ram: Ram, t: Tables, c: Column, i: byte)
    requires Placed(t)
    modifies ram
    ensures forall j: byte, k :: 0 <= k < Len(c) ==> HyperCell(ram.cells, t, c, i, j, k)
    ensures forall a :: !(Foot(HyperInit(c), t, a) && InRange(HyperRow(t, i, 0), 0x1_0000, a)) ==> Get(ram.cells, a) == Get(old(ram.cells), a)
  {
    hide Content, Placed, Lo, Len, Foot, Get;
    for j := 0 to 256
      invariant forall j': byte, k :: j' < j && 0 <= k < Len(c) ==> HyperCell(ram.cells, t, c, i, j', k)
      invariant forall a :: !(Foot(HyperInit(c), t, a) && InRange(HyperRow(t, i, 0), 0x1_0000, a)) ==> Get(ram.cells, a) == Get(old(ram.cells), a)
    {
      ghost var before := ram.cells;
      FillCell(ram, t, c, i, j);
      forall j': byte, k | j' <= j && 0 <= k < Len(c) ensures HyperCell(ram.cells, t, c, i, j', k) {
        if j' < j {
          assert HyperCell(before, t, c, i, j', k);
          assert !InRow(t, i, j, HyperRow(t, i, j') + Lo(c) + k);
        }
      }
    }
  }

  /** Fills one column of HYPER: the triple loops of the arithmetic, bitwise, comparison and shift tables. */
  method FillHyper(ram: Ram, t: Tables, c: Column)
    requires Placed(t)
    modifies ram
    ensures Fact(HyperInit(c), ram.cells, t) && OnlyFoot(HyperInit(c), old(ram.cells), ram.cells, t)
  {
    hide Content, Placed, Lo, Len, Foot, Get;
    for i := 0 to 256
      invariant forall i': byte, j: byte, k :: i' < i && 0 <= k < Len(c) ==> HyperCell(ram.cells, t, c, i', j, k)
      invariant OnlyFoot(HyperInit(c), old(ram.cells), ram.cells, t)
    {
      ghost var before := ram.cells;
      FillRow(ram, t, c, i);
      forall i': byte, j: byte, k | i' <= i && 0 <= k < Len(c) ensures HyperCell(ram.cells, t, c, i', j, k) {
        if i' < i {
          assert HyperCell(before, t, c, i', j, k);
          assert !InRange(HyperRow(t, i, 0), 0x1_0000, HyperRow(t, i', j) + Lo(c) + k);
        }
      }
    }
  }

  method FillIncCell(ram: Ram, t: Tables, i: byte)
    modifies ram
    ensures IncCell(ram.cells, t, i)
    ensures forall a :: !InRange(SuperRow(t, i), 4, a) ==> Get(ram.cells, a) == Get(old(ram.cells), a)
  {
    hide Get, Put;
    var row := SuperRow(t, i);
    ghost var m0 := ram.cells;
    ram.Store(row + 0, i);
    PutReads(m0, row, i);
    ghost var m1 := ram.cells;
    ram.Store(row + 1, SUPER_INC);
    PutReads(m1, row + 1, SUPER_INC);
    ghost var m2 := ram.cells;
    ram.Store(row + 2, (i + 1) % 0x100);
    PutReads(m2, row + 2, (i + 1) % 0x100);
    ghost var m3 := ram.cells;
    ram.Store(row + 3, if (i + 1) / 0x100 != 0 then SUPER_INC + 2 else SUPER_INC);
    PutReads(m3, row + 3, if (i + 1) / 0x100 != 0 then SUPER_INC + 2 else SUPER_INC);
  }

  lemma IncCellStays(m: Mem, m': Mem, t: Tables, i: byte, j: byte)
    requires IncCell(m, t, i) && i != j && forall a :: !InRange(SuperRow(t, j), 4, a) ==> Get(m', a) == Get(m, a)
    ensures IncCell(m', t, i)
  {
    hide Get;
    var r := SuperRow(t, i);
    assert Get(m', r) == Get(m, r) && Get(m', r + 1) == Get(m, r + 1) && Get(m', r + 2) == Get(m, r + 2) && Get(m', r + 3) == Get(m, r + 3);
  }

  method FillInc(ram: Ram, t: Tables)
    modifies ram
    ensures Fact(IncInit, ram.cells, t) && OnlyFoot(IncInit, old(ram.cells), ram.cells, t)
  {
    hide Get, IncCell;
    for i := 0 to 256
      invariant forall i': byte :: i' < i ==> IncCell(ram.cells, t, i')
      invariant OnlyFoot(IncInit, old(ram.cells), ram.cells, t)
    {
      ghost var before := ram.cells;
      FillIncCell(ram, t, i);
      forall i': byte | i' <= i ensures IncCell(ram.cells, t, i') {
        if i' < i {
          IncCellStays(before, ram.cells, t, i', i);
        }
      }
    }
  }

  method FillNot(ram: Ram, t: Tables)
    modifies ram
    ensures Fact(NotInit, ram.cells, t) && OnlyFoot(NotInit, old(ram.cells), ram.cells, t)
  {
    for i := 0 to 256
      invariant forall i': byte :: i' < i ==> NotEntry(ram.cells, t.not, i')
      invariant OnlyFoot(NotInit, old(ram.cells), ram.cells, t)
    {
      ghost var before := ram.cells;
      ram.Store(t.not + i, (-1 - i) % 0x100);
      forall i': byte | i' <= i ensures NotEntry(ram.cells, t.not, i') {
        if i' < i {
          assert NotEntry(before, t.not, i');
        }
      }
    }
  }

  function TruthAt(m: Mem, t: Tables, f: Flags, k: int): byte {
    Get(m, TruthTable(t, f) + k)
  }

  /** The entry of one table, for any selector. */
  method StoreTruth(ram: Ram, t: Tables, f: Flags, k: int, v: byte)
    requires Placed(t) && 0 <= k < 0x100
    modifies ram
    ensures TruthAt(ram.cells, t, f, k) == v
    ensures forall f', k' :: 0 <= k' < 0x100 && (f' != f || k' != k) ==> TruthAt(ram.cells, t, f', k') == TruthAt(old(ram.cells), t, f', k')
    ensures forall a :: !(InTruth(t, a) && a % 0x100 == k) ==> Get(ram.cells, a) == Get(old(ram.cells), a)
  {
    hide Get, Put, Placed;
    ghost var m := ram.cells;
    ram.Store(TruthTable(t, f) + k, v);
    PutReads(m, TruthTable(t, f) + k, v);
    TruthOffsetOf(t, f, k);
    forall f', k' | 0 <= k' < 0x100 && (f' != f || k' != k)
      ensures TruthAt(ram.cells, t, f', k') == TruthAt(m, t, f', k')
    {
      if f' != f {
        TruthPagesApart(t, f, f');
      }
    }
  }

  lemma TruthPagesApart(t: Tables, f: Flags, f': Flags)
    requires Placed(t) && f != f'
    ensures TruthTable(t, f) + 0x100 <= TruthTable(t, f') || TruthTable(t, f') + 0x100 <= TruthTable(t, f)
  {
    hide ShiftPlaced;
    PageApart(TruthTable(t, f), TruthTable(t, f'));
  }

  /** `SET_TRUTH_TABLES(hyper, b0, b1)` */
  method SetTruthTables(ram: Ram, t: Tables, hyper: byte, b0: byte, b1: byte)
    requires Placed(t) && hyper < 0xff && b0 <= 1 && b1 <= 1
    modifies ram
    ensures forall f :: TruthAt(ram.cells, t, f, hyper) == MacroEntry(f, 0, b0, b1)
    ensures forall f :: TruthAt(ram.cells, t, f, hyper + 1) == MacroEntry(f, 1, b0, b1)
    ensures forall a :: !(InTruth(t, a) && hyper <= a % 0x100 < hyper + 2) ==> Get(ram.cells, a) == Get(old(ram.cells), a)
  {
    hide Get, Placed, TruthAt, InTruth;
    StoreTruth(ram, t, Flags(false, false), hyper + 0, b0);
    StoreTruth(ram, t, Flags(false, false), hyper + 1, b1);
    StoreTruth(ram, t, Flags(false, true), hyper + 0, b1);
    StoreTruth(ram, t, Flags(false, true), hyper + 1, b0);
    StoreTruth(ram, t, Flags(true, false), hyper + 0, b0);
    StoreTruth(ram, t, Flags(true, false), hyper + 1, 4 * b1);
    StoreTruth(ram, t, Flags(true, true), hyper + 0, 4 * b1);
    StoreTruth(ram, t, Flags(true, true), hyper + 1, 4 * b0);
  }

  /** One of the lines that close the initializer of `Ges`: two selectors and two others, in one table. */
  method SetGesTable(ram: Ram, t: Tables, f: Flags, low: byte, high: byte)
    requires Placed(t)
    modifies ram
    ensures TruthAt(ram.cells, t, f, HYPER_GES + GES_HIGH) == low && TruthAt(ram.cells, t, f, HYPER_GES + GES_FALSE) == low
    ensures TruthAt(ram.cells, t, f, HYPER_GES + GES_TRUE) == high && TruthAt(ram.cells, t, f, HYPER_GES + GES_EQU) == high
    ensures forall f', k :: f' != f && 0 <= k < 0x100 ==> TruthAt(ram.cells, t, f', k) == TruthAt(old(ram.cells), t, f', k)
    ensures forall a :: !(InTruth(t, a) && HYPER_GES <= a % 0x100 < HYPER_GES + 4) ==> Get(ram.cells, a) == Get(old(ram.cells), a)
  {
    hide Get, Placed, TruthAt, InTruth;
    StoreTruth(ram, t, f, HYPER_GES + GES_HIGH, low);
    StoreTruth(ram, t, f, HYPER_GES + GES_FALSE, low);
    StoreTruth(ram, t, f, HYPER_GES + GES_TRUE, high);
    StoreTruth(ram, t, f, HYPER_GES + GES_EQU, high);
  }

  method FillGesTruth(ram: Ram, t: Tables)
    requires Placed(t)
    modifies ram
    ensures forall f, st :: 0 <= st < 4 ==> TruthAt(ram.cells, t, f, HYPER_GES + st) == GesEntry(f, st)
    ensures forall a :: !(InTruth(t, a) && HYPER_GES <= a % 0x100 < HYPER_GES + 4) ==> Get(ram.cells, a) == Get(old(ram.cells), a)
  {
    hide Placed, Get, TruthAt, InTruth;
    SetGesTable(ram, t, Flags(false, false), 0, 1);
    SetGesTable(ram, t, Flags(false, true), 1, 0);
    SetGesTable(ram, t, Flags(true, false), 0, 4);
    SetGesTable(ram, t, Flags(true, true), 4, 0);
    forall f: Flags, st | 0 <= st < 4
      ensures TruthAt(ram.cells, t, f, HYPER_GES + st) == GesEntry(f, st)
    {
      match f
      case Flags(false, false) =>
      case Flags(false, true) =>
      case Flags(true, false) =>
      case Flags(true, true) =>
    }
  }

  lemma PageOffset(a: int, k: int)
    requires a % 0x100 == 0 && 0 <= k < 0x100
    ensures (a + k) % 0x100 == k
  {
  }

  lemma TruthOffset(t: Tables, k: int)
    requires Placed(t) && 0 <= k < 0x100
    ensures (t.polarX1 + k) % 0x100 == k && (t.antipolarX1 + k) % 0x100 == k && (t.polarX4 + k) % 0x100 == k && (t.antipolarX4 + k) % 0x100 == k
  {
    hide ShiftPlaced;
    PageOffset(t.polarX1, k);
    PageOffset(t.antipolarX1, k);
    PageOffset(t.polarX4, k);
    PageOffset(t.antipolarX4, k);
  }

  /** The truth tables of one comparison, as the end of its initializer stores them. */
  method FillTruth(ram: Ram, t: Tables, cmp: Cmp)
    requires Placed(t)
    modifies ram
    ensures Fact(TruthInit(cmp), ram.cells, t) && OnlyFoot(TruthInit(cmp), old(ram.cells), ram.cells, t)
  {
    hide Placed, Get, TruthTable, InTruth;
    match cmp {
      case GeuCmp => SetTruthTables(ram, t, HYPER_GEU, 1, 0);
      case EquCmp => SetTruthTables(ram, t, HYPER_EQU, 0, 1);
      case GesCmp => FillGesTruth(ram, t);
    }
    forall f: Flags, st | 0 <= st < CmpStates(cmp)
      ensures TruthEntry(ram.cells, t, cmp, f, st)
    {
      assert TruthAt(ram.cells, t, f, CmpColumn(cmp) + st) == TruthValue(cmp, f, st);
    }
  }

  lemma TruthOffsetOf(t: Tables, f: Flags, k: int)
    requires Placed(t) && 0 <= k < 0x100
    ensures (TruthTable(t, f) + k) % 0x100 == k
  {
    hide ShiftPlaced;
    TruthOffset(t, k);
  }

  method FillSra(ram: Ram, t: Tables)
    modifies ram
    ensures Fact(SraInit, ram.cells, t) && OnlyFoot(SraInit, old(ram.cells), ram.cells, t)
  {
    hide P2;
    for i := 0 to 256
      invariant forall i': byte, j: byte :: i' < i ==> SraEntry(ram.cells, t.shift, i', j)
      invariant OnlyFoot(SraInit, old(ram.cells), ram.cells, t)
    {
      for s := 0 to 256
        invariant forall i': byte, j: byte :: i' < i || (i' == i && j < s) ==> SraEntry(ram.cells, t.shift, i', j)
        invariant OnlyFoot(SraInit, old(ram.cells), ram.cells, t)
      {
        ghost var before := ram.cells;
        ram.Store(t.shift.sraHi + 0x100 * i + s, Int8(i) / P2(s % 8) % 0x100);
        forall i': byte, j: byte | i' < i || (i' == i && j <= s) ensures SraEntry(ram.cells, t.shift, i', j) {
          if !(i' == i && j == s) {
            assert SraEntry(before, t.shift, i', j);
          }
        }
      }
    }
  }

  predicate InPageCell(h: ShiftTables, i: byte, a: int) {
    a == h.sllSelect + i || a == h.srlSelect + i || a == h.sextWhich + i || (i < 32 && a == h.sextBufs + i)
  }

  method FillPageCell(ram: Ram, t: Tables, i: byte)
    requires Separate(t)
    modifies ram
    ensures PageCell(ram.cells, t.shift, i)
    ensures forall a :: !InPageCell(t.shift, i, a) ==> Get(ram.cells, a) == Get(old(ram.cells), a)
  {
    hide Separate, Get, Put;
    var h := t.shift;
    PagesApart(t);
    ghost var m0 := ram.cells;
    ram.Store(h.sllSelect + i, HYPER_SLL + i % 8);
    PutReads(m0, h.sllSelect + i, HYPER_SLL + i % 8);
    ghost var m1 := ram.cells;
    ram.Store(h.srlSelect + i, HYPER_SRL + i % 8);
    PutReads(m1, h.srlSelect + i, HYPER_SRL + i % 8);
    ghost var m2 := ram.cells;
    var which := (h.sextBufs + if i >= 0x80 then 16 else 0) % 0x100;
    ram.Store(h.sextWhich + i, which);
    PutReads(m2, h.sextWhich + i, which);
    ghost var m3 := ram.cells;
    if i < 32 {
      ram.Store(h.sextBufs + i, if i < 16 then 0 else 0xff);
      PutReads(m3, h.sextBufs + i, if i < 16 then 0 else 0xff);
    }
  }

  method FillPages(ram: Ram, t: Tables)
    requires Separate(t)
    modifies ram
    ensures Fact(ShiftPagesInit, ram.cells, t) && OnlyFoot(ShiftPagesInit, old(ram.cells), ram.cells, t)
  {
    hide Separate, Get;
    var h := t.shift;
    PagesApart(t);
    for i := 0 to 256
      invariant forall i': byte :: i' < i ==> PageCell(ram.cells, h, i')
      invariant OnlyFoot(ShiftPagesInit, old(ram.cells), ram.cells, t)
    {
      ghost var before := ram.cells;
      FillPageCell(ram, t, i);
      forall i': byte | i' <= i ensures PageCell(ram.cells, h, i') {
        if i' < i {
          assert PageCell(before, h, i');
        }
      }
    }
  }

  lemma PagesApart(t: Tables)
    requires Separate(t)
    ensures var h := t.shift;
            && (h.sllSelect + 0x100 <= h.srlSelect || h.srlSelect + 0x100 <= h.sllSelect)
            && (h.sllSelect + 0x100 <= h.sextWhich || h.sextWhich + 0x100 <= h.sllSelect)
            && (h.srlSelect + 0x100 <= h.sextWhich || h.sextWhich + 0x100 <= h.srlSelect)
            && (h.sllSelect + 0x100 <= h.sextBufs || h.sextBufs + 0x20 <= h.sllSelect)
            && (h.srlSelect + 0x100 <= h.sextBufs || h.sextBufs + 0x20 <= h.srlSelect)
            && (h.sextWhich + 0x100 <= h.sextBufs || h.sextBufs + 0x20 <= h.sextWhich)
  {
    var h := t.shift;
    assert ShiftPlaced(h);
    BufsApart(h.sllSelect, h.sextBufs);
    BufsApart(h.srlSelect, h.sextBufs);
    BufsApart(h.sextWhich, h.sextBufs);
    PageApart(h.sllSelect, h.srlSelect);
    PageApart(h.sllSelect, h.sextWhich);
    PageApart(h.srlSelect, h.sextWhich);
  }

  lemma PageApart(a: int, b: int)
    requires Page(a) && Page(b) && a != b
    ensures a + 0x100 <= b || b + 0x100 <= a
  {
  }

  lemma BufsApart(page: int, bufs: int)
    requires Page(page) && bufs % 0x20 == 0 && !InRange(page, 0x100, bufs)
    ensures page + 0x100 <= bufs || bufs + 0x20 <= page
  {
    assert page == 0x20 * (8 * (page / 0x100)) && bufs == 0x20 * (bufs / 0x20);
  }

  method RunOne(ram: Ram, t: Tables, init: Init)
    requires Separate(t)
    modifies ram
    ensures Fact(init, ram.cells, t) && OnlyFoot(init, old(ram.cells), ram.cells, t)
  {
    hide Fact, OnlyFoot;
    match init {
      case HyperInit(c) => FillHyper(ram, t, c);
      case IncInit => FillInc(ram, t);
      case NotInit => FillNot(ram, t);
      case TruthInit(cmp) => FillTruth(ram, t, cmp);
      case ShiftPagesInit => FillPages(ram, t);
      case SraInit => FillSra(ram, t);
    }
  }

  /** Runs every registered initializer, in whatever order the linker put them. */
  method RunInitializers(ram: Ram, t: Tables, tab: seq<Init>)
    requires Separate(t)
    modifies ram
    ensures forall n :: 0 <= n < |tab| ==> Fact(tab[n], ram.cells, t)
    ensures forall a :: !InTables(t, a) || InRange(t.shift.zero, 0x100, a) ==> Get(ram.cells, a) == Get(old(ram.cells), a)
  {
    hide Fact, Placed, Get, Foot, Separate;
    for k := 0 to |tab|
      invariant forall n :: 0 <= n < k ==> Fact(tab[n], ram.cells, t)
      invariant forall a :: !InTables(t, a) || InRange(t.shift.zero, 0x100, a) ==> Get(ram.cells, a) == Get(old(ram.cells), a)
    {
      ghost var before := ram.cells;
      RunOne(ram, t, tab[k]);
      forall n | 0 <= n < k ensures Fact(tab[n], ram.cells, t) {
        if tab[n] != tab[k] {
          StillFact(tab[n], tab[k], before, ram.cells, t);
        }
      }
      forall a | !InTables(t, a) || InRange(t.shift.zero, 0x100, a) ensures Get(ram.cells, a) == Get(before, a) {
        FootInTables(tab[k], t, a);
      }
    }
  }

  lemma FootInTables(init: Init, t: Tables, a: int)
    requires Separate(t) && (!InTables(t, a) || InRange(t.shift.zero, 0x100, a))
    ensures !Foot(init, t, a)
  {
    hide Placed, Lo, Len;
    if InRange(t.shift.zero, 0x100, a) {
      assert InShift(t.shift, a);
    }
  }

  lemma StillFact(x: Init, y: Init, m: Mem, m': Mem, t: Tables)
    requires Separate(t) && x != y && Fact(x, m, t) && OnlyFoot(y, m, m', t)
    ensures Fact(x, m', t)
  {
    hide Fact, Foot, Placed, Get, Separate;
    forall a | Foot(x, t, a) ensures Get(m', a) == Get(m, a) {
      if Foot(y, t, a) {
        FootDisjoint(x, y, t, a);
      }
    }
    assert Placed(t) by { SeparateIsPlaced(t); }
    FactFrame(x, m, m', t);
  }

  lemma SeparateIsPlaced(t: Tables)
    requires Separate(t)
    ensures Placed(t)
  {
  }

  /** The complete list establishes `Ready` when no byte-shift table has been made yet. */
  lemma AllFactsReady(m: Mem, t: Tables)
    requires t.shift.selects == map[] && (forall init: Init :: Fact(init, m, t))
    requires forall a :: InRange(t.shift.zero, 0x100, a) ==> Get(m, a) == 0
    ensures Ready(m, t)
  {
    hide Fact, RippleTable, IncTable, NotTable, BitTable, CmpTable, TruthTables, ShiftReady;
    AddFact(m, t, false);
    AddFact(m, t, true);
    IncFact(m, t);
    assert NotTable(m, t) by { NotFact(m, t); }
    forall op: BitOp ensures BitTable(m, t, op) { BitFact(m, t, op); }
    forall cmp: Cmp ensures CmpTable(m, t, cmp) && TruthTables(m, t, cmp) { CmpFact(m, t, cmp); TruthFact(m, t, cmp); }
    ShiftFacts(m, t);
  }

  lemma NotFact(m: Mem, t: Tables)
    requires Fact(NotInit, m, t)
    ensures NotTable(m, t)
  {
  }

  lemma TruthFact(m: Mem, t: Tables, cmp: Cmp)
    requires Fact(TruthInit(cmp), m, t)
    ensures TruthTables(m, t, cmp)
  {
  }

  lemma AddFact(m: Mem, t: Tables, sub: bool)
    requires Fact(HyperInit(AddColumnOf(sub)), m, t)
    ensures RippleTable(m, t, if sub then HYPER_SUB else HYPER_ADD, Sign(sub))
  {
    hide HyperRow, Get;
    var c := AddColumnOf(sub);
    forall i: byte, j: byte, l | 0 <= l <= 1 ensures RippleEntry(m, HyperRow(t, i, j), Lo(c), Sign(sub), i, j, l) {
      assert HyperCell(m, t, c, i, j, 2 * l) && HyperCell(m, t, c, i, j, 2 * l + 1);
      assert (2 * l) / 2 == l && (2 * l + 1) / 2 == l && (2 * l) % 2 == 0 && (2 * l + 1) % 2 == 1;
    }
    assert Lo(c) == if sub then HYPER_SUB else HYPER_ADD;
  }

  lemma IncFact(m: Mem, t: Tables)
    requires Fact(IncInit, m, t)
    ensures IncTable(m, t)
  {
    hide RippleEntry;
    forall i: byte, c | 0 <= c <= 1 ensures RippleEntry(m, SuperRow(t, i), SUPER_INC, 1, i, 0, c) {
      assert IncCell(m, t, i);
    }
  }

  lemma BitFact(m: Mem, t: Tables, op: BitOp)
    requires Fact(HyperInit(BitColumnOf(op)), m, t)
    ensures BitTable(m, t, op)
  {
    hide HyperRow, Get, Bitwise;
    forall i: byte, j: byte ensures BitEntry(m, HyperRow(t, i, j), op, i, j) {
      assert HyperCell(m, t, BitColumnOf(op), i, j, 0);
    }
  }

  lemma CmpFact(m: Mem, t: Tables, cmp: Cmp)
    requires Fact(HyperInit(CmpColumnOf(cmp)), m, t)
    ensures CmpTable(m, t, cmp)
  {
    hide HyperRow, Get, CmpNext;
    forall i: byte, j: byte, st | 0 <= st < CmpStates(cmp) ensures CmpEntry(m, HyperRow(t, i, j), cmp, i, j, st) {
      assert HyperCell(m, t, CmpColumnOf(cmp), i, j, st);
    }
  }

  lemma ShiftFacts(m: Mem, t: Tables)
    requires t.shift.selects == map[] && (forall init: Init :: Fact(init, m, t))
    requires forall a :: InRange(t.shift.zero, 0x100, a) ==> Get(m, a) == 0
    ensures ShiftReady(m, t)
  {
    hide HyperRow, Get, LeftByte, RightByte, P2, Int8;
    assert Fact(HyperInit(ShiftColumnOf(true)), m, t) && Fact(HyperInit(ShiftColumnOf(false)), m, t);
    assert Fact(SraInit, m, t) && Fact(ShiftPagesInit, m, t);
    forall i: byte, j: byte, s | 0 <= s < 8 ensures SllEntry(m, HyperRow(t, i, j), i, j, s) {
      assert HyperCell(m, t, ShiftColumnOf(true), i, j, s);
    }
    forall i: byte, j: byte, s | 0 <= s < 8 ensures SrlEntry(m, HyperRow(t, i, j), i, j, s) {
      assert HyperCell(m, t, ShiftColumnOf(false), i, j, s);
    }
    forall i: byte ensures ShiftPageEntry(m, t.shift, i) {
      assert PageCell(m, t.shift, i);
      assert InRange(t.shift.zero, 0x100, t.shift.zero + i);
    }
  }
}
