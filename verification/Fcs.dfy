/** The 16-bit frame check sequence of section C.2 of RFC 1662. */
module Fcs {

  /** A 16-bit register. */
  datatype Word = Word(v: bv16)

  const POLY: bv16 := 0x8408
  const INIT := Word(0xFFFF)
  const OK := Word(0xF0B8)

  function Xor(a: Word, b: Word): Word {
    Word(a.v ^ b.v)
  }

  function Not(a: Word): Word {
    Word(!a.v)
  }

  function Down8(a: Word): Word {
    Word(a.v >> 8)
  }

  function Up8(a: Word): Word {
    Word(a.v << 8)
  }

  function Wide(b: bv8): Word {
    Word(b as bv16)
  }

  /** One step of the shift register, least significant bit first. */
  function Step16(r: bv16): bv16 {
    (r >> 1) ^ (if r & 1 == 1 then POLY else 0)
  }

  function Shift(r: Word): Word {
    Word(Step16(r.v))
  }

  function Shift8(r: Word): Word {
    Shift(Shift(Shift(Shift(Shift(Shift(Shift(Shift(r))))))))
  }

  /** The register after one more byte, and after a whole message. */
  function Next(r: Word, b: bv8): Word {
    Shift8(Xor(r, Wide(b)))
  }

  function Over(r: Word, s: seq<bv8>): Word {
    if s == [] then r else Next(Over(r, s[..|s| - 1]), s[|s| - 1])
  }

  lemma {:induction false} OverConcat(r: Word, a: seq<bv8>, b: seq<bv8>)
    ensures Over(Over(r, a), b) == Over(r, a + b)
  {
    hide Next;
    if b == [] {
      assert a + b == a;
    } else {
      OverConcat(r, a, b[..|b| - 1]);
      assert (a + b)[..|a + b| - 1] == a + b[..|b| - 1];
    }
  }

  // ---------------------------------------------------------------------------------------------
  // The check sequence that a sender appends

  function LowByte(x: Word): bv8 {
    LowBound(x.v);
    (x.v & 0xFF) as bv8
  }

  function HighByte(x: Word): bv8 {
    HighBound(x.v);
    (x.v >> 8) as bv8
  }

  lemma LowBound(x: bv16)
    ensures x & 0xFF < 0x100
  {
  }

  lemma HighBound(x: bv16)
    ensures x >> 8 < 0x100
  {
  }

  /** The complement of the register, low byte first. */
  function Trailer(r: Word): seq<bv8> {
    [LowByte(Not(r)), HighByte(Not(r))]
  }

  function Shift16(r: Word): Word {
    Shift8(Shift8(r))
  }

  lemma HighShifts(x: bv16)
    ensures Shift8(Word(x & 0xFF00)) == Word(x >> 8)
  {
  }

  /** Two bytes at once. */
  lemma TwoBytes(r: Word, lo: bv8, hi: bv8)
    ensures Next(Next(r, lo), hi) == Shift16(Xor(r, Both(lo, hi)))
  {
    hide Shift8, Xor, Wide, Up8;
    var x := Xor(r, Wide(lo));
    Shift8Linear(x, Up8(Wide(hi)));
    UpShifts(hi);
    Grouped(r, lo, hi);
  }

  function Both(lo: bv8, hi: bv8): Word {
    Xor(Wide(lo), Up8(Wide(hi)))
  }

  lemma Grouped(r: Word, lo: bv8, hi: bv8)
    ensures Xor(Xor(r, Wide(lo)), Up8(Wide(hi))) == Xor(r, Both(lo, hi))
  {
    hide Xor, Wide, Up8;
    XorAssociates(r, Wide(lo), Up8(Wide(hi)));
  }

  lemma XorAssociates(a: Word, b: Word, c: Word)
    ensures Xor(Xor(a, b), c) == Xor(a, Xor(b, c))
  {
  }

  lemma UpShifts(hi: bv8)
    ensures Shift8(Up8(Wide(hi))) == Wide(hi)
  {
  }

  lemma TrailerIsNot(r: Word)
    ensures Both(LowByte(Not(r)), HighByte(Not(r))) == Not(r)
  {
    Rejoined(Not(r));
  }

  lemma Rejoined(x: Word)
    ensures Both(LowByte(x), HighByte(x)) == x
  {
  }

  lemma XorNot(r: Word)
    ensures Xor(r, Not(r)) == Word(0xFFFF)
  {
  }

  lemma AllOnes()
    ensures Shift16(Word(0xFFFF)) == OK
  {
  }

  /** Whatever the message, its complemented check sequence brings the register to one value. */
  lemma Residue(r: Word, s: seq<bv8>)
    ensures Over(r, s + Trailer(Over(r, s))) == OK
  {
    hide Next, Both, Xor, Not, LowByte, HighByte, Shift16;
    var f := Over(r, s);
    OverConcat(r, s, Trailer(f));
    OverTwo(f, LowByte(Not(f)), HighByte(Not(f)));
    TwoBytes(f, LowByte(Not(f)), HighByte(Not(f)));
    TrailerIsNot(f);
    XorNot(f);
    AllOnes();
  }

  lemma OverTwo(r: Word, x: bv8, y: bv8)
    ensures Over(r, [x, y]) == Next(Next(r, x), y)
  {
    hide Next;
    assert [x, y][..1] == [x] && [x][..0] == [];
    assert Over(r, [x]) == Next(Over(r, []), x);
  }

  // ---------------------------------------------------------------------------------------------
  // No other trailer does

  lemma ShiftInjective(a: Word, b: Word)
    requires Shift(a) == Shift(b)
    ensures a == b
  {
  }

  lemma Shift8Injective(a: Word, b: Word)
    requires Shift8(a) == Shift8(b)
    ensures a == b
  {
    hide Shift;
    var a1, b1 := Shift(a), Shift(b);
    var a2, b2 := Shift(a1), Shift(b1);
    var a3, b3 := Shift(a2), Shift(b2);
    var a4, b4 := Shift(a3), Shift(b3);
    var a5, b5 := Shift(a4), Shift(b4);
    var a6, b6 := Shift(a5), Shift(b5);
    var a7, b7 := Shift(a6), Shift(b6);
    ShiftInjective(a7, b7);
    ShiftInjective(a6, b6);
    ShiftInjective(a5, b5);
    ShiftInjective(a4, b4);
    ShiftInjective(a3, b3);
    ShiftInjective(a2, b2);
    ShiftInjective(a1, b1);
    ShiftInjective(a, b);
  }

  lemma XorInjective(r: Word, x: Word, y: Word)
    requires Xor(r, x) == Xor(r, y)
    ensures x == y
  {
  }

  lemma BothParts(lo: bv8, hi: bv8)
    ensures LowByte(Both(lo, hi)) == lo && HighByte(Both(lo, hi)) == hi
  {
  }

  /** The register reaches that value only behind the right trailer. */
  lemma OnlyTrailer(r: Word, s: seq<bv8>, lo: bv8, hi: bv8)
    requires Over(r, s + [lo, hi]) == OK
    ensures [lo, hi] == Trailer(Over(r, s))
  {
    hide Next, Both, Xor, Not, LowByte, HighByte, Shift8;
    var f := Over(r, s);
    OverConcat(r, s, [lo, hi]);
    OverTwo(f, lo, hi);
    TwoBytes(f, lo, hi);
    XorNot(f);
    AllOnes();
    var x, y := Xor(f, Both(lo, hi)), Xor(f, Not(f));
    Shift8Injective(Shift8(x), Shift8(y));
    Shift8Injective(x, y);
    XorInjective(f, Both(lo, hi), Not(f));
    BothParts(lo, hi);
  }

  // ---------------------------------------------------------------------------------------------
  // Linearity

  lemma Halves(a: bv16, b: bv16)
    ensures (a ^ b) >> 1 == (a >> 1) ^ (b >> 1) && (a ^ b) & 1 == (a & 1) ^ (b & 1)
  {
  }

  lemma LowBit(a: bv16)
    ensures a & 1 == 0 || a & 1 == 1
  {
  }

  lemma XorPairs(x: bv16, y: bv16, p: bv16, q: bv16)
    ensures (x ^ p) ^ (y ^ q) == (x ^ y) ^ (p ^ q)
  {
  }

  lemma XorUnits(p: bv16)
    ensures p ^ p == 0 && p ^ 0 == p && 0 ^ p == p
  {
  }

  lemma Step16Linear(x: bv16, y: bv16)
    ensures Step16(x ^ y) == Step16(x) ^ Step16(y)
  {
    Halves(x, y);
    LowBit(x);
    LowBit(y);
    XorUnits(POLY);
    XorUnits(0);
    XorPairs(x >> 1, y >> 1, if x & 1 == 1 then POLY else 0, if y & 1 == 1 then POLY else 0);
  }

  lemma ShiftLinear(a: Word, b: Word)
    ensures Shift(Xor(a, b)) == Xor(Shift(a), Shift(b))
  {
    ShiftOfXor(a.v, b.v);
  }

  lemma ShiftOfXor(x: bv16, y: bv16)
    ensures Shift(Xor(Word(x), Word(y))) == Xor(Shift(Word(x)), Shift(Word(y)))
  {
    calc {
      Shift(Xor(Word(x), Word(y)));
      Word(Step16(x ^ y));
      { Step16Linear(x, y); }
      Word(Step16(x) ^ Step16(y));
      Xor(Shift(Word(x)), Shift(Word(y)));
    }
  }

  lemma Shift8Linear(a: Word, b: Word)
    ensures Shift8(Xor(a, b)) == Xor(Shift8(a), Shift8(b))
  {
    hide Shift, Xor;
    var a1, b1 := Shift(a), Shift(b);
    ShiftLinear(a, b);
    var a2, b2 := Shift(a1), Shift(b1);
    ShiftLinear(a1, b1);
    var a3, b3 := Shift(a2), Shift(b2);
    ShiftLinear(a2, b2);
    var a4, b4 := Shift(a3), Shift(b3);
    ShiftLinear(a3, b3);
    var a5, b5 := Shift(a4), Shift(b4);
    ShiftLinear(a4, b4);
    var a6, b6 := Shift(a5), Shift(b5);
    ShiftLinear(a5, b5);
    var a7, b7 := Shift(a6), Shift(b6);
    ShiftLinear(a6, b6);
    ShiftLinear(a7, b7);
  }

  function Low(x: Word): Word {
    Word(x.v & 0xFF)
  }

  lemma LowAndHigh(x: Word)
    ensures Xor(Low(x), Up8(Down8(x))) == x
  {
  }

  lemma DownShifts(x: Word)
    ensures Shift8(Up8(Down8(x))) == Down8(x)
  {
  }

  lemma LowWide(x: Word)
    ensures Wide(LowByte(x)) == Low(x)
  {
  }

  lemma HighOf(r: Word, b: bv8)
    ensures Down8(Xor(r, Wide(b))) == Down8(r)
  {
  }

  lemma LookUpStep(t: Word, r: Word, b: bv8)
    requires t == Shift8(Wide(LowByte(Xor(r, Wide(b)))))
    ensures Xor(Down8(r), t) == Next(r, b)
  {
    hide Shift8, LowByte, Xor, Down8, Wide, Low, Up8;
    var x := Xor(r, Wide(b));
    LowWide(x);
    LowAndHigh(x);
    Shift8Linear(Low(x), Up8(Down8(x)));
    DownShifts(x);
    HighOf(r, b);
    XorCommutes(Down8(r), t);
  }

  lemma XorCommutes(a: Word, b: Word)
    ensures Xor(a, b) == Xor(b, a)
  {
  }

  // ---------------------------------------------------------------------------------------------
  // The table

  const ROW0: seq<bv16> := [
    0x0000, 0x1189, 0x2312, 0x329b, 0x4624, 0x57ad, 0x6536, 0x74bf,
    0x8c48, 0x9dc1, 0xaf5a, 0xbed3, 0xca6c, 0xdbe5, 0xe97e, 0xf8f7]

  const ROW1: seq<bv16> := [
    0x1081, 0x0108, 0x3393, 0x221a, 0x56a5, 0x472c, 0x75b7, 0x643e,
    0x9cc9, 0x8d40, 0xbfdb, 0xae52, 0xdaed, 0xcb64, 0xf9ff, 0xe876]

  const ROW2: seq<bv16> := [
    0x2102, 0x308b, 0x0210, 0x1399, 0x6726, 0x76af, 0x4434, 0x55bd,
    0xad4a, 0xbcc3, 0x8e58, 0x9fd1, 0xeb6e, 0xfae7, 0xc87c, 0xd9f5]

  const ROW3: seq<bv16> := [
    0x3183, 0x200a, 0x1291, 0x0318, 0x77a7, 0x662e, 0x54b5, 0x453c,
    0xbdcb, 0xac42, 0x9ed9, 0x8f50, 0xfbef, 0xea66, 0xd8fd, 0xc974]

  const ROW4: seq<bv16> := [
    0x4204, 0x538d, 0x6116, 0x709f, 0x0420, 0x15a9, 0x2732, 0x36bb,
    0xce4c, 0xdfc5, 0xed5e, 0xfcd7, 0x8868, 0x99e1, 0xab7a, 0xbaf3]

  const ROW5: seq<bv16> := [
    0x5285, 0x430c, 0x7197, 0x601e, 0x14a1, 0x0528, 0x37b3, 0x263a,
    0xdecd, 0xcf44, 0xfddf, 0xec56, 0x98e9, 0x8960, 0xbbfb, 0xaa72]

  const ROW6: seq<bv16> := [
    0x6306, 0x728f, 0x4014, 0x519d, 0x2522, 0x34ab, 0x0630, 0x17b9,
    0xef4e, 0xfec7, 0xcc5c, 0xddd5, 0xa96a, 0xb8e3, 0x8a78, 0x9bf1]

  const ROW7: seq<bv16> := [
    0x7387, 0x620e, 0x5095, 0x411c, 0x35a3, 0x242a, 0x16b1, 0x0738,
    0xffcf, 0xee46, 0xdcdd, 0xcd54, 0xb9eb, 0xa862, 0x9af9, 0x8b70]

  const ROW8: seq<bv16> := [
    0x8408, 0x9581, 0xa71a, 0xb693, 0xc22c, 0xd3a5, 0xe13e, 0xf0b7,
    0x0840, 0x19c9, 0x2b52, 0x3adb, 0x4e64, 0x5fed, 0x6d76, 0x7cff]

  const ROW9: seq<bv16> := [
    0x9489, 0x8500, 0xb79b, 0xa612, 0xd2ad, 0xc324, 0xf1bf, 0xe036,
    0x18c1, 0x0948, 0x3bd3, 0x2a5a, 0x5ee5, 0x4f6c, 0x7df7, 0x6c7e]

  const ROW10: seq<bv16> := [
    0xa50a, 0xb483, 0x8618, 0x9791, 0xe32e, 0xf2a7, 0xc03c, 0xd1b5,
    0x2942, 0x38cb, 0x0a50, 0x1bd9, 0x6f66, 0x7eef, 0x4c74, 0x5dfd]

  const ROW11: seq<bv16> := [
    0xb58b, 0xa402, 0x9699, 0x8710, 0xf3af, 0xe226, 0xd0bd, 0xc134,
    0x39c3, 0x284a, 0x1ad1, 0x0b58, 0x7fe7, 0x6e6e, 0x5cf5, 0x4d7c]

  const ROW12: seq<bv16> := [
    0xc60c, 0xd785, 0xe51e, 0xf497, 0x8028, 0x91a1, 0xa33a, 0xb2b3,
    0x4a44, 0x5bcd, 0x6956, 0x78df, 0x0c60, 0x1de9, 0x2f72, 0x3efb]

  const ROW13: seq<bv16> := [
    0xd68d, 0xc704, 0xf59f, 0xe416, 0x90a9, 0x8120, 0xb3bb, 0xa232,
    0x5ac5, 0x4b4c, 0x79d7, 0x685e, 0x1ce1, 0x0d68, 0x3ff3, 0x2e7a]

  const ROW14: seq<bv16> := [
    0xe70e, 0xf687, 0xc41c, 0xd595, 0xa12a, 0xb0a3, 0x8238, 0x93b1,
    0x6b46, 0x7acf, 0x4854, 0x59dd, 0x2d62, 0x3ceb, 0x0e70, 0x1ff9]

  const ROW15: seq<bv16> := [
    0xf78f, 0xe606, 0xd49d, 0xc514, 0xb1ab, 0xa022, 0x92b9, 0x8330,
    0x7bc7, 0x6a4e, 0x58d5, 0x495c, 0x3de3, 0x2c6a, 0x1ef1, 0x0f78]

  /** Entry `i` of the table, which is laid out here in rows of sixteen. */
  function Entry(i: bv8): Word {
    NibbleBound(i);
    Word(RowOf(i >> 4)[(i & 0xF) as int])
  }

  lemma NibbleBound(i: bv8)
    ensures (i & 0xF) as int < 16
  {
  }

  function RowOf(h: bv8): (row: seq<bv16>)
    ensures |row| == 16
  {
    if h == 0 then ROW0
    else if h == 1 then ROW1
    else if h == 2 then ROW2
    else if h == 3 then ROW3
    else if h == 4 then ROW4
    else if h == 5 then ROW5
    else if h == 6 then ROW6
    else if h == 7 then ROW7
    else if h == 8 then ROW8
    else if h == 9 then ROW9
    else if h == 10 then ROW10
    else if h == 11 then ROW11
    else if h == 12 then ROW12
    else if h == 13 then ROW13
    else if h == 14 then ROW14
    else ROW15
  }

  lemma Row0(i: bv8)
    requires i >> 4 == 0
    ensures (i & 0xF) as int < 16 && Word(ROW0[(i & 0xF) as int]) == Shift8(Wide(i))
  {
    NibbleBound(i);
    if i == 0x00 {} else if i == 0x01 {} else if i == 0x02 {} else if i == 0x03 {}
    else if i == 0x04 {} else if i == 0x05 {} else if i == 0x06 {} else if i == 0x07 {}
    else if i == 0x08 {} else if i == 0x09 {} else if i == 0x0a {} else if i == 0x0b {}
    else if i == 0x0c {} else if i == 0x0d {} else if i == 0x0e {} else { assert i == 0x0f; }
  }

  lemma Row1(i: bv8)
    requires i >> 4 == 1
    ensures (i & 0xF) as int < 16 && Word(ROW1[(i & 0xF) as int]) == Shift8(Wide(i))
  {
    NibbleBound(i);
    if i == 0x10 {} else if i == 0x11 {} else if i == 0x12 {} else if i == 0x13 {}
    else if i == 0x14 {} else if i == 0x15 {} else if i == 0x16 {} else if i == 0x17 {}
    else if i == 0x18 {} else if i == 0x19 {} else if i == 0x1a {} else if i == 0x1b {}
    else if i == 0x1c {} else if i == 0x1d {} else if i == 0x1e {} else { assert i == 0x1f; }
  }

  lemma Row2(i: bv8)
    requires i >> 4 == 2
    ensures (i & 0xF) as int < 16 && Word(ROW2[(i & 0xF) as int]) == Shift8(Wide(i))
  {
    NibbleBound(i);
    if i == 0x20 {} else if i == 0x21 {} else if i == 0x22 {} else if i == 0x23 {}
    else if i == 0x24 {} else if i == 0x25 {} else if i == 0x26 {} else if i == 0x27 {}
    else if i == 0x28 {} else if i == 0x29 {} else if i == 0x2a {} else if i == 0x2b {}
    else if i == 0x2c {} else if i == 0x2d {} else if i == 0x2e {} else { assert i == 0x2f; }
  }

  lemma Row3(i: bv8)
    requires i >> 4 == 3
    ensures (i & 0xF) as int < 16 && Word(ROW3[(i & 0xF) as int]) == Shift8(Wide(i))
  {
    NibbleBound(i);
    if i == 0x30 {} else if i == 0x31 {} else if i == 0x32 {} else if i == 0x33 {}
    else if i == 0x34 {} else if i == 0x35 {} else if i == 0x36 {} else if i == 0x37 {}
    else if i == 0x38 {} else if i == 0x39 {} else if i == 0x3a {} else if i == 0x3b {}
    else if i == 0x3c {} else if i == 0x3d {} else if i == 0x3e {} else { assert i == 0x3f; }
  }

  lemma Row4(i: bv8)
    requires i >> 4 == 4
    ensures (i & 0xF) as int < 16 && Word(ROW4[(i & 0xF) as int]) == Shift8(Wide(i))
  {
    NibbleBound(i);
    if i == 0x40 {} else if i == 0x41 {} else if i == 0x42 {} else if i == 0x43 {}
    else if i == 0x44 {} else if i == 0x45 {} else if i == 0x46 {} else if i == 0x47 {}
    else if i == 0x48 {} else if i == 0x49 {} else if i == 0x4a {} else if i == 0x4b {}
    else if i == 0x4c {} else if i == 0x4d {} else if i == 0x4e {} else { assert i == 0x4f; }
  }

  lemma Row5(i: bv8)
    requires i >> 4 == 5
    ensures (i & 0xF) as int < 16 && Word(ROW5[(i & 0xF) as int]) == Shift8(Wide(i))
  {
    NibbleBound(i);
    if i == 0x50 {} else if i == 0x51 {} else if i == 0x52 {} else if i == 0x53 {}
    else if i == 0x54 {} else if i == 0x55 {} else if i == 0x56 {} else if i == 0x57 {}
    else if i == 0x58 {} else if i == 0x59 {} else if i == 0x5a {} else if i == 0x5b {}
    else if i == 0x5c {} else if i == 0x5d {} else if i == 0x5e {} else { assert i == 0x5f; }
  }

  lemma Row6(i: bv8)
    requires i >> 4 == 6
    ensures (i & 0xF) as int < 16 && Word(ROW6[(i & 0xF) as int]) == Shift8(Wide(i))
  {
    NibbleBound(i);
    if i == 0x60 {} else if i == 0x61 {} else if i == 0x62 {} else if i == 0x63 {}
    else if i == 0x64 {} else if i == 0x65 {} else if i == 0x66 {} else if i == 0x67 {}
    else if i == 0x68 {} else if i == 0x69 {} else if i == 0x6a {} else if i == 0x6b {}
    else if i == 0x6c {} else if i == 0x6d {} else if i == 0x6e {} else { assert i == 0x6f; }
  }

  lemma Row7(i: bv8)
    requires i >> 4 == 7
    ensures (i & 0xF) as int < 16 && Word(ROW7[(i & 0xF) as int]) == Shift8(Wide(i))
  {
    NibbleBound(i);
    if i == 0x70 {} else if i == 0x71 {} else if i == 0x72 {} else if i == 0x73 {}
    else if i == 0x74 {} else if i == 0x75 {} else if i == 0x76 {} else if i == 0x77 {}
    else if i == 0x78 {} else if i == 0x79 {} else if i == 0x7a {} else if i == 0x7b {}
    else if i == 0x7c {} else if i == 0x7d {} else if i == 0x7e {} else { assert i == 0x7f; }
  }

  lemma Row8(i: bv8)
    requires i >> 4 == 8
    ensures (i & 0xF) as int < 16 && Word(ROW8[(i & 0xF) as int]) == Shift8(Wide(i))
  {
    NibbleBound(i);
    if i == 0x80 {} else if i == 0x81 {} else if i == 0x82 {} else if i == 0x83 {}
    else if i == 0x84 {} else if i == 0x85 {} else if i == 0x86 {} else if i == 0x87 {}
    else if i == 0x88 {} else if i == 0x89 {} else if i == 0x8a {} else if i == 0x8b {}
    else if i == 0x8c {} else if i == 0x8d {} else if i == 0x8e {} else { assert i == 0x8f; }
  }

  lemma Row9(i: bv8)
    requires i >> 4 == 9
    ensures (i & 0xF) as int < 16 && Word(ROW9[(i & 0xF) as int]) == Shift8(Wide(i))
  {
    NibbleBound(i);
    if i == 0x90 {} else if i == 0x91 {} else if i == 0x92 {} else if i == 0x93 {}
    else if i == 0x94 {} else if i == 0x95 {} else if i == 0x96 {} else if i == 0x97 {}
    else if i == 0x98 {} else if i == 0x99 {} else if i == 0x9a {} else if i == 0x9b {}
    else if i == 0x9c {} else if i == 0x9d {} else if i == 0x9e {} else { assert i == 0x9f; }
  }

  lemma Row10(i: bv8)
    requires i >> 4 == 10
    ensures (i & 0xF) as int < 16 && Word(ROW10[(i & 0xF) as int]) == Shift8(Wide(i))
  {
    NibbleBound(i);
    if i == 0xa0 {} else if i == 0xa1 {} else if i == 0xa2 {} else if i == 0xa3 {}
    else if i == 0xa4 {} else if i == 0xa5 {} else if i == 0xa6 {} else if i == 0xa7 {}
    else if i == 0xa8 {} else if i == 0xa9 {} else if i == 0xaa {} else if i == 0xab {}
    else if i == 0xac {} else if i == 0xad {} else if i == 0xae {} else { assert i == 0xaf; }
  }

  lemma Row11(i: bv8)
    requires i >> 4 == 11
    ensures (i & 0xF) as int < 16 && Word(ROW11[(i & 0xF) as int]) == Shift8(Wide(i))
  {
    NibbleBound(i);
    if i == 0xb0 {} else if i == 0xb1 {} else if i == 0xb2 {} else if i == 0xb3 {}
    else if i == 0xb4 {} else if i == 0xb5 {} else if i == 0xb6 {} else if i == 0xb7 {}
    else if i == 0xb8 {} else if i == 0xb9 {} else if i == 0xba {} else if i == 0xbb {}
    else if i == 0xbc {} else if i == 0xbd {} else if i == 0xbe {} else { assert i == 0xbf; }
  }

  lemma Row12(i: bv8)
    requires i >> 4 == 12
    ensures (i & 0xF) as int < 16 && Word(ROW12[(i & 0xF) as int]) == Shift8(Wide(i))
  {
    NibbleBound(i);
    if i == 0xc0 {} else if i == 0xc1 {} else if i == 0xc2 {} else if i == 0xc3 {}
    else if i == 0xc4 {} else if i == 0xc5 {} else if i == 0xc6 {} else if i == 0xc7 {}
    else if i == 0xc8 {} else if i == 0xc9 {} else if i == 0xca {} else if i == 0xcb {}
    else if i == 0xcc {} else if i == 0xcd {} else if i == 0xce {} else { assert i == 0xcf; }
  }

  lemma Row13(i: bv8)
    requires i >> 4 == 13
    ensures (i & 0xF) as int < 16 && Word(ROW13[(i & 0xF) as int]) == Shift8(Wide(i))
  {
    NibbleBound(i);
    if i == 0xd0 {} else if i == 0xd1 {} else if i == 0xd2 {} else if i == 0xd3 {}
    else if i == 0xd4 {} else if i == 0xd5 {} else if i == 0xd6 {} else if i == 0xd7 {}
    else if i == 0xd8 {} else if i == 0xd9 {} else if i == 0xda {} else if i == 0xdb {}
    else if i == 0xdc {} else if i == 0xdd {} else if i == 0xde {} else { assert i == 0xdf; }
  }

  lemma Row14(i: bv8)
    requires i >> 4 == 14
    ensures (i & 0xF) as int < 16 && Word(ROW14[(i & 0xF) as int]) == Shift8(Wide(i))
  {
    NibbleBound(i);
    if i == 0xe0 {} else if i == 0xe1 {} else if i == 0xe2 {} else if i == 0xe3 {}
    else if i == 0xe4 {} else if i == 0xe5 {} else if i == 0xe6 {} else if i == 0xe7 {}
    else if i == 0xe8 {} else if i == 0xe9 {} else if i == 0xea {} else if i == 0xeb {}
    else if i == 0xec {} else if i == 0xed {} else if i == 0xee {} else { assert i == 0xef; }
  }

  lemma Row15(i: bv8)
    requires i >> 4 == 15
    ensures (i & 0xF) as int < 16 && Word(ROW15[(i & 0xF) as int]) == Shift8(Wide(i))
  {
    NibbleBound(i);
    if i == 0xf0 {} else if i == 0xf1 {} else if i == 0xf2 {} else if i == 0xf3 {}
    else if i == 0xf4 {} else if i == 0xf5 {} else if i == 0xf6 {} else if i == 0xf7 {}
    else if i == 0xf8 {} else if i == 0xf9 {} else if i == 0xfa {} else if i == 0xfb {}
    else if i == 0xfc {} else if i == 0xfd {} else if i == 0xfe {} else { assert i == 0xff; }
  }

  /** Every entry of the table is what eight steps make of its index. */
  lemma EntryIsShift8(i: bv8)
    ensures Entry(i) == Shift8(Wide(i))
  {
    hide Shift8, Wide, ROW0, ROW1, ROW2, ROW3, ROW4, ROW5, ROW6, ROW7, ROW8, ROW9, ROW10, ROW11, ROW12, ROW13, ROW14, ROW15;
    var h := i >> 4;
    assert h < 16;
    if h == 0 {
      Row0(i);
    } else if h == 1 {
      Row1(i);
    } else if h == 2 {
      Row2(i);
    } else if h == 3 {
      Row3(i);
    } else if h == 4 {
      Row4(i);
    } else if h == 5 {
      Row5(i);
    } else if h == 6 {
      Row6(i);
    } else if h == 7 {
      Row7(i);
    } else if h == 8 {
      Row8(i);
    } else if h == 9 {
      Row9(i);
    } else if h == 10 {
      Row10(i);
    } else if h == 11 {
      Row11(i);
    } else if h == 12 {
      Row12(i);
    } else if h == 13 {
      Row13(i);
    } else if h == 14 {
      Row14(i);
    } else {
      assert h == 15;
      Row15(i);
    }
  }

  /** `fcs16` */
  method Fcs16(fcs: Word, p: seq<bv8>) returns (r: Word)
    ensures r == Over(fcs, p)
  {
    hide Entry, LowByte, Next, Xor, Down8, Wide, Shift8;
    r := fcs;
    var i := 0;
    while i < |p|
      invariant i <= |p| && r == Over(fcs, p[..i])
    {
      var x := LowByte(Xor(r, Wide(p[i])));
      EntryIsShift8(x);
      LookUpStep(Entry(x), r, p[i]);
      assert p[..i + 1][..i] == p[..i];
      r := Xor(Down8(r), Entry(x));
      i := i + 1;
    }
    assert p[..i] == p;
  }
}
