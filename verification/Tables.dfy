/** The lookup tables of the DMA arithmetic library: where they lie and what they hold. */
module Tables {
  import opened Memory
  import opened Numbers

  const HYPER_ADD := 0x04
  const HYPER_SUB := 0x08
  const HYPER_AND := 0x0c
  const HYPER_OR := 0x0d
  const HYPER_XOR := 0x0e
  const HYPER_SLL := 0x14
  const HYPER_SRL := 0x24
  const HYPER_GEU := 0x2c
  const HYPER_EQU := 0x2e
  const HYPER_GES := 0x34
  const SUPER_INC := 0x00

  const HYPER_SIZE := 0x100_0000
  const SUPER_SIZE := 0x1_0000

  /** Base addresses of the tables. */
  datatype Tables = Tables(hyper: int, super: int, not: int,
                           polarX1: int, antipolarX1: int, polarX4: int, antipolarX4: int, shift: ShiftTables)

  /** The tables of the shifts.  `selects` holds the byte-shift tables that were made for each width. */
  datatype ShiftTables = ShiftTables(zero: int, sllSelect: int, srlSelect: int, sextWhich: int, sextBufs: int, sraHi: int,
                                     selects: map<int, Select>)

  datatype Select = Select(width: nat, left: bool)

  predicate Page(a: int) {
    0 < a <= 0xFFFF_FF00 && a % 0x100 == 0
  }

  predicate InRange(base: int, size: int, a: int) {
    base <= a < base + size
  }

  predicate InHyper(t: Tables, a: int) {
    InRange(t.hyper, HYPER_SIZE, a)
  }

  predicate InSuper(t: Tables, a: int) {
    InRange(t.super, SUPER_SIZE, a)
  }

  predicate InTruth(t: Tables, a: int) {
    || InRange(t.polarX1, 0x100, a) || InRange(t.antipolarX1, 0x100, a)
    || InRange(t.polarX4, 0x100, a) || InRange(t.antipolarX4, 0x100, a)
  }

  predicate InShift(h: ShiftTables, a: int) {
    || InRange(h.zero, 0x100, a) || InRange(h.sllSelect, 0x100, a) || InRange(h.srlSelect, 0x100, a)
    || InRange(h.sextWhich, 0x100, a) || InRange(h.sextBufs, 0x20, a) || InRange(h.sraHi, SUPER_SIZE, a)
    || a - a % 0x100 in h.selects
  }

  predicate InTables(t: Tables, a: int) {
    InHyper(t, a) || InSuper(t, a) || InRange(t.not, 0x100, a) || InTruth(t, a) || InShift(t.shift, a)
  }

  /** Alignment of the shift tables. */
  ghost predicate ShiftPlaced(h: ShiftTables) {
    && Page(h.zero) && Page(h.sllSelect) && Page(h.srlSelect) && Page(h.sextWhich)
    && 0 < h.sextBufs <= 0xFFFF_FFE0 && h.sextBufs % 0x20 == 0
    && 0 < h.sraHi <= 0xFFFF_0000 && h.sraHi % SUPER_SIZE == 0
    && forall b :: b in h.selects ==> Page(b) && 1 <= h.selects[b].width < 128
  }

  /** The alignment that the tables are declared with, and their disjointness. */
  ghost predicate Placed(t: Tables) {
    && 0 < t.hyper <= 0xFF00_0000 && t.hyper % HYPER_SIZE == 0
    && 0 < t.super <= 0xFFFF_0000 && t.super % SUPER_SIZE == 0 && !InHyper(t, t.super)
    && Page(t.not) && !InHyper(t, t.not) && !InSuper(t, t.not)
    && Page(t.polarX1) && !InHyper(t, t.polarX1) && !InSuper(t, t.polarX1)
    && Page(t.antipolarX1) && !InHyper(t, t.antipolarX1) && !InSuper(t, t.antipolarX1)
    && Page(t.polarX4) && !InHyper(t, t.polarX4) && !InSuper(t, t.polarX4)
    && Page(t.antipolarX4) && !InHyper(t, t.antipolarX4) && !InSuper(t, t.antipolarX4)
    && t.not != t.polarX1 && t.not != t.antipolarX1 && t.not != t.polarX4 && t.not != t.antipolarX4
    && t.polarX1 != t.antipolarX1 && t.polarX1 != t.polarX4 && t.polarX1 != t.antipolarX4
    && t.antipolarX1 != t.polarX4 && t.antipolarX1 != t.antipolarX4 && t.polarX4 != t.antipolarX4
    && ShiftPlaced(t.shift)
  }

  /** The 256-byte row of HYPER selected by SRC bytes 2 and 1. */
  function HyperRow(t: Tables, hi: int, lo: int): int {
    t.hyper + 0x1_0000 * hi + 0x100 * lo
  }

  function SuperRow(t: Tables, lo: int): int {
    t.super + 0x100 * lo
  }

  // ---------------------------------------------------------------------------------------------
  // Contents

  /** A digit and, beside it, the selector of the next digit's carry. */
  predicate RippleEntry(m: Mem, row: int, col: int, sg: int, i: int, j: int, c: int) {
    && Get(m, row + col + 2 * c) == Digit(sg, i, j, c) % 256
    && Get(m, row + col + 2 * c + 1) == col + 2 * CarryOut(sg, Digit(sg, i, j, c))
  }

  ghost predicate RippleTable(m: Mem, t: Tables, col: int, sg: int) {
    forall i: byte, j: byte, c :: 0 <= c <= 1 ==> RippleEntry(m, HyperRow(t, i, j), col, sg, i, j, c)
  }

  ghost predicate IncTable(m: Mem, t: Tables) {
    forall i: byte, c :: 0 <= c <= 1 ==> RippleEntry(m, SuperRow(t, i), SUPER_INC, 1, i, 0, c)
  }

  function BitColumn(op: BitOp): int {
    match op
    case AndOp => HYPER_AND
    case OrOp => HYPER_OR
    case XorOp => HYPER_XOR
  }

  predicate BitEntry(m: Mem, row: int, op: BitOp, i: byte, j: byte) {
    Get(m, row + BitColumn(op)) == Bitwise(op, i, j)
  }

  ghost predicate BitTable(m: Mem, t: Tables, op: BitOp) {
    forall i: byte, j: byte :: BitEntry(m, HyperRow(t, i, j), op, i, j)
  }

  predicate NotEntry(m: Mem, a: int, i: byte) {
    Get(m, a + i) == 255 - i
  }

  ghost predicate NotTable(m: Mem, t: Tables) {
    forall i: byte :: NotEntry(m, t.not, i)
  }

  datatype Cmp = GeuCmp | EquCmp | GesCmp

  function CmpColumn(cmp: Cmp): int {
    match cmp
    case GeuCmp => HYPER_GEU
    case EquCmp => HYPER_EQU
    case GesCmp => HYPER_GES
  }

  function CmpStates(cmp: Cmp): int {
    if cmp.GesCmp? then 4 else 2
  }

  /** The comparison automata; states are selectors relative to the column. */
  function CmpNext(cmp: Cmp, st: int, x: byte, y: byte): int {
    match cmp
    case GeuCmp => if x - y - st < 0 then 1 else 0
    case EquCmp => if x == y && st == 1 then 1 else 0
    case GesCmp => GesNext(st, x, y)
  }

  predicate CmpEntry(m: Mem, row: int, cmp: Cmp, i: byte, j: byte, st: int) {
    Get(m, row + CmpColumn(cmp) + st) == CmpColumn(cmp) + CmpNext(cmp, st, i, j)
  }

  ghost predicate CmpTable(m: Mem, t: Tables, cmp: Cmp) {
    forall i: byte, j: byte, st :: 0 <= st < CmpStates(cmp) ==> CmpEntry(m, HyperRow(t, i, j), cmp, i, j, st)
  }

  /** ICF_X4 asks for 4 instead of 1, ICF_INV for the negation. */
  datatype Flags = Flags(x4: bool, inv: bool)

  function TruthTable(t: Tables, f: Flags): int {
    if f.x4 then (if f.inv then t.antipolarX4 else t.polarX4)
    else (if f.inv then t.antipolarX1 else t.polarX1)
  }

  /** Whether a final selector means that the comparison holds. */
  predicate Accepts(cmp: Cmp, st: int) {
    match cmp
    case GeuCmp => st == 0
    case EquCmp => st == 1
    case GesCmp => st == GES_TRUE || st == GES_EQU
  }

  /** What `SET_TRUTH_TABLES(hyper, b0, b1)` leaves at `hyper + i` of each table, store by store. */
  function MacroEntry(f: Flags, i: int, b0: byte, b1: byte): byte
    requires b0 <= 1 && b1 <= 1
  {
    match f
    case Flags(false, false) => if i == 0 then b0 else b1
    case Flags(false, true) => if i == 0 then b1 else b0
    case Flags(true, false) => if i == 0 then b0 else 4 * b1
    case Flags(true, true) => if i == 0 then 4 * b1 else 4 * b0
  }

  /** What the initializer of `Ges` leaves for a selector. */
  function GesEntry(f: Flags, st: int): byte {
    var one := if f.x4 then 4 else 1;
    if st == GES_HIGH || st == GES_FALSE then (if f.inv then one else 0)
    else if f.inv then 0 else one
  }

  /** The truth tables as the initializers leave them: the macro is called with (1, 0) and with (0, 1). */
  function TruthValue(cmp: Cmp, f: Flags, st: int): byte {
    match cmp
    case GeuCmp => MacroEntry(f, st, 1, 0)
    case EquCmp => MacroEntry(f, st, 0, 1)
    case GesCmp => GesEntry(f, st)
  }

  predicate TruthEntry(m: Mem, t: Tables, cmp: Cmp, f: Flags, st: int) {
    Get(m, TruthTable(t, f) + CmpColumn(cmp) + st) == TruthValue(cmp, f, st)
  }

  ghost predicate TruthTables(m: Mem, t: Tables, cmp: Cmp) {
    forall f: Flags, st :: 0 <= st < CmpStates(cmp) ==> TruthEntry(m, t, cmp, f, st)
  }

  predicate SllEntry(m: Mem, row: int, i: byte, j: byte, s: int) {
    Get(m, row + HYPER_SLL + s) == LeftByte(i, j, s)
  }

  predicate SrlEntry(m: Mem, row: int, i: byte, j: byte, s: int) {
    Get(m, row + HYPER_SRL + s) == RightByte(i, j, s)
  }

  predicate SraEntry(m: Mem, h: ShiftTables, i: byte, j: byte) {
    Get(m, h.sraHi + 0x100 * i + j) == Int8(i) / P2(j % 8) % 0x100
  }

  /** The entries of the byte-indexed shift tables. */
  predicate ShiftPageEntry(m: Mem, h: ShiftTables, i: byte) {
    && Get(m, h.zero + i) == 0
    && Get(m, h.sllSelect + i) == HYPER_SLL + i % 8
    && Get(m, h.srlSelect + i) == HYPER_SRL + i % 8
    && Get(m, h.sextWhich + i) == (h.sextBufs + if i >= 0x80 then 16 else 0) % 0x100
    && (i < 32 ==> Get(m, h.sextBufs + i) == if i < 16 then 0 else 0xff)
  }

  /** How many bytes of the double-width buffer to skip for shift byte `i`. */
  function SelectValue(sel: Select, i: int): (r: int)
    requires sel.width >= 1 && i >= 0
    ensures 0 <= r <= sel.width
  {
    if sel.left then sel.width - i / 8 % sel.width else i / 8 % sel.width
  }

  predicate SelectEntry(m: Mem, b: int, sel: Select, i: byte)
    requires sel.width >= 1
  {
    Get(m, b + i) == SelectValue(sel, i)
  }

  ghost predicate ShiftReady(m: Mem, t: Tables) {
    && (forall i: byte, j: byte, s :: 0 <= s < 8 ==> SllEntry(m, HyperRow(t, i, j), i, j, s))
    && (forall i: byte, j: byte, s :: 0 <= s < 8 ==> SrlEntry(m, HyperRow(t, i, j), i, j, s))
    && (forall i: byte, j: byte :: SraEntry(m, t.shift, i, j))
    && (forall i: byte :: ShiftPageEntry(m, t.shift, i))
    && (forall b, i: byte :: b in t.shift.selects && t.shift.selects[b].width >= 1 ==> SelectEntry(m, b, t.shift.selects[b], i))
  }

  /** Everything that the table initializers establish. */
  ghost predicate Ready(m: Mem, t: Tables) {
    && RippleTable(m, t, HYPER_ADD, 1) && RippleTable(m, t, HYPER_SUB, -1) && IncTable(m, t) && NotTable(m, t)
    && (forall op: BitOp :: BitTable(m, t, op))
    && (forall cmp: Cmp :: CmpTable(m, t, cmp) && TruthTables(m, t, cmp))
    && ShiftReady(m, t)
  }

  ghost predicate SameTables(m: Mem, m': Mem, t: Tables) {
    forall a :: InTables(t, a) ==> Get(m', a) == Get(m, a)
  }

  /** The tables survive whatever happens outside them. */
  lemma ReadyFrame(m: Mem, m': Mem, t: Tables)
    requires Ready(m, t) && SameTables(m, m', t) && Placed(t)
    ensures Ready(m', t)
  {
    hide RippleTable, IncTable, NotTable, BitTable, CmpTable, TruthTables, SameTables, ShiftReady;
    ShiftFrame(m, m', t);
    RippleFrame(m, m', t, HYPER_ADD, 1);
    RippleFrame(m, m', t, HYPER_SUB, -1);
    IncFrame(m, m', t);
    NotFrame(m, m', t);
    forall op: BitOp ensures BitTable(m', t, op) { BitFrame(m, m', t, op); }
    forall cmp: Cmp ensures CmpTable(m', t, cmp) && TruthTables(m', t, cmp) {
      CmpFrame(m, m', t, cmp);
      TruthFrame(m, m', t, cmp);
    }
  }

  lemma RippleFrame(m: Mem, m': Mem, t: Tables, col: int, sg: int)
    requires RippleTable(m, t, col, sg) && SameTables(m, m', t) && 0 <= col < 0xf0
    ensures RippleTable(m', t, col, sg)
  {
    forall i: byte, j: byte, c | 0 <= c <= 1 ensures RippleEntry(m', HyperRow(t, i, j), col, sg, i, j, c) {
      assert RippleEntry(m, HyperRow(t, i, j), col, sg, i, j, c);
      var a := HyperRow(t, i, j) + col + 2 * c;
      assert InTables(t, a) && InTables(t, a + 1);
    }
  }

  lemma IncFrame(m: Mem, m': Mem, t: Tables)
    requires IncTable(m, t) && SameTables(m, m', t)
    ensures IncTable(m', t)
  {
    forall i: byte, c | 0 <= c <= 1 ensures RippleEntry(m', SuperRow(t, i), SUPER_INC, 1, i, 0, c) {
      assert RippleEntry(m, SuperRow(t, i), SUPER_INC, 1, i, 0, c);
      var a := SuperRow(t, i) + SUPER_INC + 2 * c;
      assert InTables(t, a) && InTables(t, a + 1);
    }
  }

  lemma NotFrame(m: Mem, m': Mem, t: Tables)
    requires NotTable(m, t) && SameTables(m, m', t)
    ensures NotTable(m', t)
  {
    forall i: byte ensures NotEntry(m', t.not, i) {
      assert NotEntry(m, t.not, i) && InTables(t, t.not + i);
    }
  }

  lemma BitFrame(m: Mem, m': Mem, t: Tables, op: BitOp)
    requires BitTable(m, t, op) && SameTables(m, m', t)
    ensures BitTable(m', t, op)
  {
    hide Bitwise;
    forall i: byte, j: byte ensures BitEntry(m', HyperRow(t, i, j), op, i, j) {
      assert BitEntry(m, HyperRow(t, i, j), op, i, j) && InTables(t, HyperRow(t, i, j) + BitColumn(op));
    }
  }

  lemma CmpFrame(m: Mem, m': Mem, t: Tables, cmp: Cmp)
    requires CmpTable(m, t, cmp) && SameTables(m, m', t)
    ensures CmpTable(m', t, cmp)
  {
    hide CmpNext;
    forall i: byte, j: byte, st | 0 <= st < CmpStates(cmp) ensures CmpEntry(m', HyperRow(t, i, j), cmp, i, j, st) {
      assert CmpEntry(m, HyperRow(t, i, j), cmp, i, j, st) && InTables(t, HyperRow(t, i, j) + CmpColumn(cmp) + st);
    }
  }

  lemma TruthFrame(m: Mem, m': Mem, t: Tables, cmp: Cmp)
    requires TruthTables(m, t, cmp) && SameTables(m, m', t)
    ensures TruthTables(m', t, cmp)
  {
    hide TruthValue;
    forall f: Flags, st | 0 <= st < CmpStates(cmp) ensures TruthEntry(m', t, cmp, f, st) {
      assert TruthEntry(m, t, cmp, f, st) && InTables(t, TruthTable(t, f) + CmpColumn(cmp) + st);
    }
  }

  lemma SllEntryFrame(m: Mem, m': Mem, t: Tables, i: byte, j: byte, s: int)
    requires ShiftReady(m, t) && SameTables(m, m', t) && 0 <= s < 8
    ensures SllEntry(m', HyperRow(t, i, j), i, j, s)
  {
    hide LeftByte;
    assert SllEntry(m, HyperRow(t, i, j), i, j, s) && InTables(t, HyperRow(t, i, j) + HYPER_SLL + s);
  }

  lemma SrlEntryFrame(m: Mem, m': Mem, t: Tables, i: byte, j: byte, s: int)
    requires ShiftReady(m, t) && SameTables(m, m', t) && 0 <= s < 8
    ensures SrlEntry(m', HyperRow(t, i, j), i, j, s)
  {
    hide RightByte;
    assert SrlEntry(m, HyperRow(t, i, j), i, j, s) && InTables(t, HyperRow(t, i, j) + HYPER_SRL + s);
  }

  lemma SraEntryFrame(m: Mem, m': Mem, t: Tables, i: byte, j: byte)
    requires ShiftReady(m, t) && SameTables(m, m', t)
    ensures SraEntry(m', t.shift, i, j)
  {
    assert SraEntry(m, t.shift, i, j) && InTables(t, t.shift.sraHi + 0x100 * i + j);
  }

  lemma PageEntryFrame(m: Mem, m': Mem, t: Tables, i: byte)
    requires ShiftReady(m, t) && SameTables(m, m', t)
    ensures ShiftPageEntry(m', t.shift, i)
  {
    var h := t.shift;
    assert ShiftPageEntry(m, h, i);
    assert InTables(t, h.zero + i) && InTables(t, h.sllSelect + i) && InTables(t, h.srlSelect + i) && InTables(t, h.sextWhich + i);
    assert i < 32 ==> InTables(t, h.sextBufs + i);
  }

  lemma SelectEntryFrame(m: Mem, m': Mem, t: Tables, b: int, i: byte)
    requires ShiftReady(m, t) && SameTables(m, m', t) && Placed(t)
    requires b in t.shift.selects && t.shift.selects[b].width >= 1
    ensures SelectEntry(m', b, t.shift.selects[b], i)
  {
    hide SelectValue;
    assert SelectEntry(m, b, t.shift.selects[b], i);
    assert Page(b);
    assert (b + i) - (b + i) % 0x100 == b;
    assert InTables(t, b + i);
  }

  lemma ShiftFrame(m: Mem, m': Mem, t: Tables)
    requires ShiftReady(m, t) && SameTables(m, m', t) && Placed(t)
    ensures ShiftReady(m', t)
  {
    hide SllEntry, SrlEntry, SraEntry, ShiftPageEntry, SelectEntry, SameTables, Placed, HyperRow;
    forall i: byte, j: byte, s | 0 <= s < 8 ensures SllEntry(m', HyperRow(t, i, j), i, j, s) {
      SllEntryFrame(m, m', t, i, j, s);
    }
    forall i: byte, j: byte, s | 0 <= s < 8 ensures SrlEntry(m', HyperRow(t, i, j), i, j, s) {
      SrlEntryFrame(m, m', t, i, j, s);
    }
    forall i: byte, j: byte ensures SraEntry(m', t.shift, i, j) {
      SraEntryFrame(m, m', t, i, j);
    }
    forall i: byte ensures ShiftPageEntry(m', t.shift, i) {
      PageEntryFrame(m, m', t, i);
    }
    forall b, i: byte | b in t.shift.selects && t.shift.selects[b].width >= 1 ensures SelectEntry(m', b, t.shift.selects[b], i) {
      SelectEntryFrame(m, m', t, b, i);
    }
  }
}
