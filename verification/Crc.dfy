/** The CRC of IEEE 802.3: bit by bit, from a constant table, and from a table computed at start-up. */
module Crc {

  /** A 32-bit register. */
  datatype Word = Word(v: bv32)

  const POLY: bv32 := 0xEDB88320

  function Xor(a: Word, b: Word): Word {
    Word(a.v ^ b.v)
  }

  function Not(a: Word): Word {
    Word(!a.v)
  }

  function Down8(a: Word): Word {
    Word(a.v >> 8)
  }

  function Wide(b: bv8): Word {
    Word(b as bv32)
  }

  /** One step of the shift register, least significant bit first. */
  function Step32(r: bv32): bv32 {
    (r >> 1) ^ (if r & 1 == 1 then POLY else 0)
  }

  function Shift(r: Word): Word {
    Word(Step32(r.v))
  }

  function Shift8(r: Word): Word {
    Shift(Shift(Shift(Shift(Shift(Shift(Shift(Shift(r))))))))
  }

  // ---------------------------------------------------------------------------------------------
  // The definition: one message bit at a time

  function BitOf(b: bv8, i: nat): Word
    requires i < 8
  {
    Word(((b >> i) & 1) as bv32)
  }

  /** The register after the first `n` bits of a byte, least significant bit first. */
  function Bits(r: Word, b: bv8, n: nat): Word
    requires n <= 8
  {
    if n == 0 then r else Shift(Xor(Bits(r, b, n - 1), BitOf(b, n - 1)))
  }

  function Serial(r: Word, s: seq<bv8>): Word {
    if s == [] then r else Bits(Serial(r, s[..|s| - 1]), s[|s| - 1], 8)
  }

  /** The CRC of a message, continued from the CRC of what came before it. */
  function Crc32Of(crc: Word, s: seq<bv8>): Word {
    Not(Serial(Not(crc), s))
  }

  // ---------------------------------------------------------------------------------------------
  // Composition

  lemma {:induction false} SerialConcat(r: Word, a: seq<bv8>, b: seq<bv8>)
    ensures Serial(Serial(r, a), b) == Serial(r, a + b)
  {
    hide Bits;
    if b == [] {
      assert a + b == a;
    } else {
      SerialConcat(r, a, b[..|b| - 1]);
      assert (a + b)[..|a + b| - 1] == a + b[..|b| - 1];
    }
  }

  lemma NotNot(x: Word)
    ensures Not(Not(x)) == x
  {
  }

  /** A CRC may be taken piece by piece. */
  lemma Crc32Concat(crc: Word, a: seq<bv8>, b: seq<bv8>)
    ensures Crc32Of(Crc32Of(crc, a), b) == Crc32Of(crc, a + b)
  {
    hide Not, Serial;
    NotNot(Serial(Not(crc), a));
    SerialConcat(Not(crc), a, b);
  }

  // ---------------------------------------------------------------------------------------------
  // Linearity

  lemma Halves(a: bv32, b: bv32)
    ensures (a ^ b) >> 1 == (a >> 1) ^ (b >> 1) && (a ^ b) & 1 == (a & 1) ^ (b & 1)
  {
  }

  lemma LowBit(a: bv32)
    ensures a & 1 == 0 || a & 1 == 1
  {
  }

  lemma XorPairs(x: bv32, y: bv32, p: bv32, q: bv32)
    ensures (x ^ p) ^ (y ^ q) == (x ^ y) ^ (p ^ q)
  {
  }

  lemma XorUnits(p: bv32)
    ensures p ^ p == 0 && p ^ 0 == p && 0 ^ p == p
  {
  }

  lemma Step32Linear(x: bv32, y: bv32)
    ensures Step32(x ^ y) == Step32(x) ^ Step32(y)
  {
    Halves(x, y);
    LowBit(x);
    LowBit(y);
    XorUnits(POLY);
    XorUnits(0);
    XorPairs(x >> 1, y >> 1, if x & 1 == 1 then POLY else 0, if y & 1 == 1 then POLY else 0);
  }

  lemma ShiftLinear(a: Word, b: Word)
    ensures Shift(Xor(a, b)) == Xor(Shift(a), Shift(b))
  {
    ShiftOfXor(a.v, b.v);
  }

  lemma ShiftOfXor(x: bv32, y: bv32)
    ensures Shift(Xor(Word(x), Word(y))) == Xor(Shift(Word(x)), Shift(Word(y)))
  {
    calc {
      Shift(Xor(Word(x), Word(y)));
      Word(Step32(x ^ y));
      { Step32Linear(x, y); }
      Word(Step32(x) ^ Step32(y));
      Xor(Shift(Word(x)), Shift(Word(y)));
    }
  }

  lemma Shift8Linear(a: Word, b: Word)
    ensures Shift8(Xor(a, b)) == Xor(Shift8(a), Shift8(b))
  {
    hide Shift, Xor;
    var a1, b1 := Shift(a), Shift(b);
    ShiftLinear(a, b);
    var a2, b2 := Shift(a1), Shift(b1);
    ShiftLinear(a1, b1);
    var a3, b3 := Shift(a2), Shift(b2);
    ShiftLinear(a2, b2);
    var a4, b4 := Shift(a3), Shift(b3);
    ShiftLinear(a3, b3);
    var a5, b5 := Shift(a4), Shift(b4);
    ShiftLinear(a4, b4);
    var a6, b6 := Shift(a5), Shift(b5);
    ShiftLinear(a5, b5);
    var a7, b7 := Shift(a6), Shift(b6);
    ShiftLinear(a6, b6);
    ShiftLinear(a7, b7);
  }

  function Low(x: Word): Word {
    Word(x.v & 0xFF)
  }

  function High(x: Word): Word {
    Word(x.v & 0xFFFFFF00)
  }

  lemma HighOnly(x: Word)
    ensures Shift8(High(x)) == Down8(x)
  {
    hide Shift8, High, Down8;
    HighShifts(x.v);
  }

  lemma HighShifts(x: bv32)
    ensures Shift8(High(Word(x))) == Down8(Word(x))
  {
  }

  lemma LowAndHigh(x: Word)
    ensures Xor(Low(x), High(x)) == x
  {
    Parts(x.v);
  }

  lemma Parts(x: bv32)
    ensures (x & 0xFF) ^ (x & 0xFFFFFF00) == x
  {
  }

  /** Eight steps at once: the low byte selects what is folded into the others. */
  lemma ByteStep(x: Word)
    ensures Shift8(x) == Xor(Shift8(Low(x)), Down8(x))
  {
    hide Shift8, Xor, Low, High, Down8;
    LowAndHigh(x);
    Shift8Linear(Low(x), High(x));
    HighOnly(x);
  }

  // ---------------------------------------------------------------------------------------------
  // Bytes bit by bit

  /** What is left of a byte after `n` bits. */
  function Rest(b: bv8, n: nat): Word
    requires n <= 8
  {
    Word((b >> n) as bv32)
  }

  function LowBitOf(x: Word): Word {
    Word(x.v & 1)
  }

  function Evened(x: Word): Word {
    Word(x.v ^ (x.v & 1))
  }

  function HalfOf(x: Word): Word {
    Word(x.v >> 1)
  }

  lemma RestSplits(b: bv8, n: nat)
    requires n < 8
    ensures LowBitOf(Rest(b, n)) == BitOf(b, n) && HalfOf(Rest(b, n)) == Rest(b, n + 1)
  {
    if n == 0 {
    } else if n == 1 {
    } else if n == 2 {
    } else if n == 3 {
    } else if n == 4 {
    } else if n == 5 {
    } else if n == 6 {
    } else {
    }
  }

  lemma RestEnds(b: bv8)
    ensures Rest(b, 8) == Word(0) && Rest(b, 0) == Wide(b)
  {
  }

  lemma EvenShift(x: Word)
    ensures Shift(Evened(x)) == HalfOf(x)
  {
  }

  lemma SplitXor(r: Word, x: Word)
    ensures Xor(Xor(r, LowBitOf(x)), Evened(x)) == Xor(r, x)
  {
  }

  /** Feeding a bit and then shifting is shifting with the rest of the byte still to come. */
  lemma FeedOne(r: Word, b: bv8, n: nat)
    requires n < 8
    ensures Shift(Xor(r, Rest(b, n))) == Xor(Shift(Xor(r, BitOf(b, n))), Rest(b, n + 1))
  {
    hide Shift, Rest, BitOf, Xor, LowBitOf, Evened, HalfOf;
    var x := Rest(b, n);
    RestSplits(b, n);
    SplitXor(r, x);
    EvenShift(x);
    ShiftLinear(Xor(r, LowBitOf(x)), Evened(x));
  }

  lemma XorZero(x: Word)
    ensures Xor(x, Word(0)) == x
  {
  }

  ghost function Partly(r: Word, b: bv8, n: nat): Word
    requires n <= 8
  {
    Xor(Bits(r, b, n), Rest(b, n))
  }

  lemma PartlyStep(r: Word, b: bv8, n: nat)
    requires n < 8
    ensures Shift(Partly(r, b, n)) == Partly(r, b, n + 1)
  {
    hide Shift, BitOf, Xor, Rest;
    FeedOne(Bits(r, b, n), b, n);
  }

  lemma PartlyEnds(r: Word, b: bv8)
    ensures Partly(r, b, 0) == Xor(r, Wide(b)) && Partly(r, b, 8) == Bits(r, b, 8)
  {
    hide Shift, Bits, Xor, Rest, Wide;
    RestEnds(b);
    XorZero(Bits(r, b, 8));
    NoBits(r, b);
  }

  lemma NoBits(r: Word, b: bv8)
    ensures Bits(r, b, 0) == r
  {
  }

  /** Feeding a byte bit by bit is folding it in whole and shifting eight times. */
  lemma BitsAreShift8(r: Word, b: bv8)
    ensures Bits(r, b, 8) == Shift8(Xor(r, Wide(b)))
  {
    hide Shift, Bits, Xor, Partly, Wide;
    PartlyEnds(r, b);
    PartlyStep(r, b, 0);
    PartlyStep(r, b, 1);
    PartlyStep(r, b, 2);
    PartlyStep(r, b, 3);
    PartlyStep(r, b, 4);
    PartlyStep(r, b, 5);
    PartlyStep(r, b, 6);
    PartlyStep(r, b, 7);
  }

  // ---------------------------------------------------------------------------------------------
  // One look-up per byte

  function LowByte(x: Word): bv8 {
    LowBound(x.v);
    (x.v & 0xFF) as bv8
  }

  lemma LowBound(x: bv32)
    ensures x & 0xFF < 0x100
  {
  }

  lemma LowWide(x: Word)
    ensures Wide(LowByte(x)) == Low(x)
  {
  }

  lemma HighOf(crc: Word, b: bv8)
    ensures Down8(Xor(crc, Wide(b))) == Down8(crc)
  {
  }

  lemma LookUpStep(t: Word, crc: Word, b: bv8)
    requires t == Shift8(Wide(LowByte(Xor(crc, Wide(b)))))
    ensures Xor(t, Down8(crc)) == Bits(crc, b, 8)
  {
    hide Shift8, Bits, LowByte, Xor, Down8, Wide, Low;
    var x := Xor(crc, Wide(b));
    LowWide(x);
    ByteStep(x);
    HighOf(crc, b);
    BitsAreShift8(crc, b);
  }

  // ---------------------------------------------------------------------------------------------
  // The constant table

  const ROW0: seq<bv32> := [
    0x00000000, 0x77073096, 0xee0e612c, 0x990951ba, 0x076dc419, 0x706af48f, 0xe963a535, 0x9e6495a3,
    0x0edb8832, 0x79dcb8a4, 0xe0d5e91e, 0x97d2d988, 0x09b64c2b, 0x7eb17cbd, 0xe7b82d07, 0x90bf1d91]

  const ROW1: seq<bv32> := [
    0x1db71064, 0x6ab020f2, 0xf3b97148, 0x84be41de, 0x1adad47d, 0x6ddde4eb, 0xf4d4b551, 0x83d385c7,
    0x136c9856, 0x646ba8c0, 0xfd62f97a, 0x8a65c9ec, 0x14015c4f, 0x63066cd9, 0xfa0f3d63, 0x8d080df5]

  const ROW2: seq<bv32> := [
    0x3b6e20c8, 0x4c69105e, 0xd56041e4, 0xa2677172, 0x3c03e4d1, 0x4b04d447, 0xd20d85fd, 0xa50ab56b,
    0x35b5a8fa, 0x42b2986c, 0xdbbbc9d6, 0xacbcf940, 0x32d86ce3, 0x45df5c75, 0xdcd60dcf, 0xabd13d59]

  const ROW3: seq<bv32> := [
    0x26d930ac, 0x51de003a, 0xc8d75180, 0xbfd06116, 0x21b4f4b5, 0x56b3c423, 0xcfba9599, 0xb8bda50f,
    0x2802b89e, 0x5f058808, 0xc60cd9b2, 0xb10be924, 0x2f6f7c87, 0x58684c11, 0xc1611dab, 0xb6662d3d]

  const ROW4: seq<bv32> := [
    0x76dc4190, 0x01db7106, 0x98d220bc, 0xefd5102a, 0x71b18589, 0x06b6b51f, 0x9fbfe4a5, 0xe8b8d433,
    0x7807c9a2, 0x0f00f934, 0x9609a88e, 0xe10e9818, 0x7f6a0dbb, 0x086d3d2d, 0x91646c97, 0xe6635c01]

  const ROW5: seq<bv32> := [
    0x6b6b51f4, 0x1c6c6162, 0x856530d8, 0xf262004e, 0x6c0695ed, 0x1b01a57b, 0x8208f4c1, 0xf50fc457,
    0x65b0d9c6, 0x12b7e950, 0x8bbeb8ea, 0xfcb9887c, 0x62dd1ddf, 0x15da2d49, 0x8cd37cf3, 0xfbd44c65]

  const ROW6: seq<bv32> := [
    0x4db26158, 0x3ab551ce, 0xa3bc0074, 0xd4bb30e2, 0x4adfa541, 0x3dd895d7, 0xa4d1c46d, 0xd3d6f4fb,
    0x4369e96a, 0x346ed9fc, 0xad678846, 0xda60b8d0, 0x44042d73, 0x33031de5, 0xaa0a4c5f, 0xdd0d7cc9]

  const ROW7: seq<bv32> := [
    0x5005713c, 0x270241aa, 0xbe0b1010, 0xc90c2086, 0x5768b525, 0x206f85b3, 0xb966d409, 0xce61e49f,
    0x5edef90e, 0x29d9c998, 0xb0d09822, 0xc7d7a8b4, 0x59b33d17, 0x2eb40d81, 0xb7bd5c3b, 0xc0ba6cad]

  const ROW8: seq<bv32> := [
    0xedb88320, 0x9abfb3b6, 0x03b6e20c, 0x74b1d29a, 0xead54739, 0x9dd277af, 0x04db2615, 0x73dc1683,
    0xe3630b12, 0x94643b84, 0x0d6d6a3e, 0x7a6a5aa8, 0xe40ecf0b, 0x9309ff9d, 0x0a00ae27, 0x7d079eb1]

  const ROW9: seq<bv32> := [
    0xf00f9344, 0x8708a3d2, 0x1e01f268, 0x6906c2fe, 0xf762575d, 0x806567cb, 0x196c3671, 0x6e6b06e7,
    0xfed41b76, 0x89d32be0, 0x10da7a5a, 0x67dd4acc, 0xf9b9df6f, 0x8ebeeff9, 0x17b7be43, 0x60b08ed5]

  const ROW10: seq<bv32> := [
    0xd6d6a3e8, 0xa1d1937e, 0x38d8c2c4, 0x4fdff252, 0xd1bb67f1, 0xa6bc5767, 0x3fb506dd, 0x48b2364b,
    0xd80d2bda, 0xaf0a1b4c, 0x36034af6, 0x41047a60, 0xdf60efc3, 0xa867df55, 0x316e8eef, 0x4669be79]

  const ROW11: seq<bv32> := [
    0xcb61b38c, 0xbc66831a, 0x256fd2a0, 0x5268e236, 0xcc0c7795, 0xbb0b4703, 0x220216b9, 0x5505262f,
    0xc5ba3bbe, 0xb2bd0b28, 0x2bb45a92, 0x5cb36a04, 0xc2d7ffa7, 0xb5d0cf31, 0x2cd99e8b, 0x5bdeae1d]

  const ROW12: seq<bv32> := [
    0x9b64c2b0, 0xec63f226, 0x756aa39c, 0x026d930a, 0x9c0906a9, 0xeb0e363f, 0x72076785, 0x05005713,
    0x95bf4a82, 0xe2b87a14, 0x7bb12bae, 0x0cb61b38, 0x92d28e9b, 0xe5d5be0d, 0x7cdcefb7, 0x0bdbdf21]

  const ROW13: seq<bv32> := [
    0x86d3d2d4, 0xf1d4e242, 0x68ddb3f8, 0x1fda836e, 0x81be16cd, 0xf6b9265b, 0x6fb077e1, 0x18b74777,
    0x88085ae6, 0xff0f6a70, 0x66063bca, 0x11010b5c, 0x8f659eff, 0xf862ae69, 0x616bffd3, 0x166ccf45]

  const ROW14: seq<bv32> := [
    0xa00ae278, 0xd70dd2ee, 0x4e048354, 0x3903b3c2, 0xa7672661, 0xd06016f7, 0x4969474d, 0x3e6e77db,
    0xaed16a4a, 0xd9d65adc, 0x40df0b66, 0x37d83bf0, 0xa9bcae53, 0xdebb9ec5, 0x47b2cf7f, 0x30b5ffe9]

  const ROW15: seq<bv32> := [
    0xbdbdf21c, 0xcabac28a, 0x53b39330, 0x24b4a3a6, 0xbad03605, 0xcdd70693, 0x54de5729, 0x23d967bf,
    0xb3667a2e, 0xc4614ab8, 0x5d681b02, 0x2a6f2b94, 0xb40bbe37, 0xc30c8ea1, 0x5a05df1b, 0x2d02ef8d]

  /** Entry `i` of the table, which is laid out here in rows of sixteen. */
  function Entry(i: bv8): Word {
    NibbleBound(i);
    Word(RowOf(i >> 4)[(i & 0xF) as int])
  }

  lemma NibbleBound(i: bv8)
    ensures (i & 0xF) as int < 16
  {
  }

  function RowOf(h: bv8): (row: seq<bv32>)
    ensures |row| == 16
  {
    if h == 0 then ROW0
    else if h == 1 then ROW1
    else if h == 2 then ROW2
    else if h == 3 then ROW3
    else if h == 4 then ROW4
    else if h == 5 then ROW5
    else if h == 6 then ROW6
    else if h == 7 then ROW7
    else if h == 8 then ROW8
    else if h == 9 then ROW9
    else if h == 10 then ROW10
    else if h == 11 then ROW11
    else if h == 12 then ROW12
    else if h == 13 then ROW13
    else if h == 14 then ROW14
    else ROW15
  }

  lemma Row0(i: bv8)
    requires i >> 4 == 0
    ensures (i & 0xF) as int < 16 && Word(ROW0[(i & 0xF) as int]) == Shift8(Wide(i))
  {
    NibbleBound(i);
    if i == 0x00 {} else if i == 0x01 {} else if i == 0x02 {} else if i == 0x03 {}
    else if i == 0x04 {} else if i == 0x05 {} else if i == 0x06 {} else if i == 0x07 {}
    else if i == 0x08 {} else if i == 0x09 {} else if i == 0x0a {} else if i == 0x0b {}
    else if i == 0x0c {} else if i == 0x0d {} else if i == 0x0e {} else { assert i == 0x0f; }
  }

  lemma Row1(i: bv8)
    requires i >> 4 == 1
    ensures (i & 0xF) as int < 16 && Word(ROW1[(i & 0xF) as int]) == Shift8(Wide(i))
  {
    NibbleBound(i);
    if i == 0x10 {} else if i == 0x11 {} else if i == 0x12 {} else if i == 0x13 {}
    else if i == 0x14 {} else if i == 0x15 {} else if i == 0x16 {} else if i == 0x17 {}
    else if i == 0x18 {} else if i == 0x19 {} else if i == 0x1a {} else if i == 0x1b {}
    else if i == 0x1c {} else if i == 0x1d {} else if i == 0x1e {} else { assert i == 0x1f; }
  }

  lemma Row2(i: bv8)
    requires i >> 4 == 2
    ensures (i & 0xF) as int < 16 && Word(ROW2[(i & 0xF) as int]) == Shift8(Wide(i))
  {
    NibbleBound(i);
    if i == 0x20 {} else if i == 0x21 {} else if i == 0x22 {} else if i == 0x23 {}
    else if i == 0x24 {} else if i == 0x25 {} else if i == 0x26 {} else if i == 0x27 {}
    else if i == 0x28 {} else if i == 0x29 {} else if i == 0x2a {} else if i == 0x2b {}
    else if i == 0x2c {} else if i == 0x2d {} else if i == 0x2e {} else { assert i == 0x2f; }
  }

  lemma Row3(i: bv8)
    requires i >> 4 == 3
    ensures (i & 0xF) as int < 16 && Word(ROW3[(i & 0xF) as int]) == Shift8(Wide(i))
  {
    NibbleBound(i);
    if i == 0x30 {} else if i == 0x31 {} else if i == 0x32 {} else if i == 0x33 {}
    else if i == 0x34 {} else if i == 0x35 {} else if i == 0x36 {} else if i == 0x37 {}
    else if i == 0x38 {} else if i == 0x39 {} else if i == 0x3a {} else if i == 0x3b {}
    else if i == 0x3c {} else if i == 0x3d {} else if i == 0x3e {} else { assert i == 0x3f; }
  }

  lemma Row4(i: bv8)
    requires i >> 4 == 4
    ensures (i & 0xF) as int < 16 && Word(ROW4[(i & 0xF) as int]) == Shift8(Wide(i))
  {
    NibbleBound(i);
    if i == 0x40 {} else if i == 0x41 {} else if i == 0x42 {} else if i == 0x43 {}
    else if i == 0x44 {} else if i == 0x45 {} else if i == 0x46 {} else if i == 0x47 {}
    else if i == 0x48 {} else if i == 0x49 {} else if i == 0x4a {} else if i == 0x4b {}
    else if i == 0x4c {} else if i == 0x4d {} else if i == 0x4e {} else { assert i == 0x4f; }
  }

  lemma Row5(i: bv8)
    requires i >> 4 == 5
    ensures (i & 0xF) as int < 16 && Word(ROW5[(i & 0xF) as int]) == Shift8(Wide(i))
  {
    NibbleBound(i);
    if i == 0x50 {} else if i == 0x51 {} else if i == 0x52 {} else if i == 0x53 {}
    else if i == 0x54 {} else if i == 0x55 {} else if i == 0x56 {} else if i == 0x57 {}
    else if i == 0x58 {} else if i == 0x59 {} else if i == 0x5a {} else if i == 0x5b {}
    else if i == 0x5c {} else if i == 0x5d {} else if i == 0x5e {} else { assert i == 0x5f; }
  }

  lemma Row6(i: bv8)
    requires i >> 4 == 6
    ensures (i & 0xF) as int < 16 && Word(ROW6[(i & 0xF) as int]) == Shift8(Wide(i))
  {
    NibbleBound(i);
    if i == 0x60 {} else if i == 0x61 {} else if i == 0x62 {} else if i == 0x63 {}
    else if i == 0x64 {} else if i == 0x65 {} else if i == 0x66 {} else if i == 0x67 {}
    else if i == 0x68 {} else if i == 0x69 {} else if i == 0x6a {} else if i == 0x6b {}
    else if i == 0x6c {} else if i == 0x6d {} else if i == 0x6e {} else { assert i == 0x6f; }
  }

  lemma Row7(i: bv8)
    requires i >> 4 == 7
    ensures (i & 0xF) as int < 16 && Word(ROW7[(i & 0xF) as int]) == Shift8(Wide(i))
  {
    NibbleBound(i);
    if i == 0x70 {} else if i == 0x71 {} else if i == 0x72 {} else if i == 0x73 {}
    else if i == 0x74 {} else if i == 0x75 {} else if i == 0x76 {} else if i == 0x77 {}
    else if i == 0x78 {} else if i == 0x79 {} else if i == 0x7a {} else if i == 0x7b {}
    else if i == 0x7c {} else if i == 0x7d {} else if i == 0x7e {} else { assert i == 0x7f; }
  }

  lemma Row8(i: bv8)
    requires i >> 4 == 8
    ensures (i & 0xF) as int < 16 && Word(ROW8[(i & 0xF) as int]) == Shift8(Wide(i))
  {
    NibbleBound(i);
    if i == 0x80 {} else if i == 0x81 {} else if i == 0x82 {} else if i == 0x83 {}
    else if i == 0x84 {} else if i == 0x85 {} else if i == 0x86 {} else if i == 0x87 {}
    else if i == 0x88 {} else if i == 0x89 {} else if i == 0x8a {} else if i == 0x8b {}
    else if i == 0x8c {} else if i == 0x8d {} else if i == 0x8e {} else { assert i == 0x8f; }
  }

  lemma Row9(i: bv8)
    requires i >> 4 == 9
    ensures (i & 0xF) as int < 16 && Word(ROW9[(i & 0xF) as int]) == Shift8(Wide(i))
  {
    NibbleBound(i);
    if i == 0x90 {} else if i == 0x91 {} else if i == 0x92 {} else if i == 0x93 {}
    else if i == 0x94 {} else if i == 0x95 {} else if i == 0x96 {} else if i == 0x97 {}
    else if i == 0x98 {} else if i == 0x99 {} else if i == 0x9a {} else if i == 0x9b {}
    else if i == 0x9c {} else if i == 0x9d {} else if i == 0x9e {} else { assert i == 0x9f; }
  }

  lemma Row10(i: bv8)
    requires i >> 4 == 10
    ensures (i & 0xF) as int < 16 && Word(ROW10[(i & 0xF) as int]) == Shift8(Wide(i))
  {
    NibbleBound(i);
    if i == 0xa0 {} else if i == 0xa1 {} else if i == 0xa2 {} else if i == 0xa3 {}
    else if i == 0xa4 {} else if i == 0xa5 {} else if i == 0xa6 {} else if i == 0xa7 {}
    else if i == 0xa8 {} else if i == 0xa9 {} else if i == 0xaa {} else if i == 0xab {}
    else if i == 0xac {} else if i == 0xad {} else if i == 0xae {} else { assert i == 0xaf; }
  }

  lemma Row11(i: bv8)
    requires i >> 4 == 11
    ensures (i & 0xF) as int < 16 && Word(ROW11[(i & 0xF) as int]) == Shift8(Wide(i))
  {
    NibbleBound(i);
    if i == 0xb0 {} else if i == 0xb1 {} else if i == 0xb2 {} else if i == 0xb3 {}
    else if i == 0xb4 {} else if i == 0xb5 {} else if i == 0xb6 {} else if i == 0xb7 {}
    else if i == 0xb8 {} else if i == 0xb9 {} else if i == 0xba {} else if i == 0xbb {}
    else if i == 0xbc {} else if i == 0xbd {} else if i == 0xbe {} else { assert i == 0xbf; }
  }

  lemma Row12(i: bv8)
    requires i >> 4 == 12
    ensures (i & 0xF) as int < 16 && Word(ROW12[(i & 0xF) as int]) == Shift8(Wide(i))
  {
    NibbleBound(i);
    if i == 0xc0 {} else if i == 0xc1 {} else if i == 0xc2 {} else if i == 0xc3 {}
    else if i == 0xc4 {} else if i == 0xc5 {} else if i == 0xc6 {} else if i == 0xc7 {}
    else if i == 0xc8 {} else if i == 0xc9 {} else if i == 0xca {} else if i == 0xcb {}
    else if i == 0xcc {} else if i == 0xcd {} else if i == 0xce {} else { assert i == 0xcf; }
  }

  lemma Row13(i: bv8)
    requires i >> 4 == 13
    ensures (i & 0xF) as int < 16 && Word(ROW13[(i & 0xF) as int]) == Shift8(Wide(i))
  {
    NibbleBound(i);
    if i == 0xd0 {} else if i == 0xd1 {} else if i == 0xd2 {} else if i == 0xd3 {}
    else if i == 0xd4 {} else if i == 0xd5 {} else if i == 0xd6 {} else if i == 0xd7 {}
    else if i == 0xd8 {} else if i == 0xd9 {} else if i == 0xda {} else if i == 0xdb {}
    else if i == 0xdc {} else if i == 0xdd {} else if i == 0xde {} else { assert i == 0xdf; }
  }

  lemma Row14(i: bv8)
    requires i >> 4 == 14
    ensures (i & 0xF) as int < 16 && Word(ROW14[(i & 0xF) as int]) == Shift8(Wide(i))
  {
    NibbleBound(i);
    if i == 0xe0 {} else if i == 0xe1 {} else if i == 0xe2 {} else if i == 0xe3 {}
    else if i == 0xe4 {} else if i == 0xe5 {} else if i == 0xe6 {} else if i == 0xe7 {}
    else if i == 0xe8 {} else if i == 0xe9 {} else if i == 0xea {} else if i == 0xeb {}
    else if i == 0xec {} else if i == 0xed {} else if i == 0xee {} else { assert i == 0xef; }
  }

  lemma Row15(i: bv8)
    requires i >> 4 == 15
    ensures (i & 0xF) as int < 16 && Word(ROW15[(i & 0xF) as int]) == Shift8(Wide(i))
  {
    NibbleBound(i);
    if i == 0xf0 {} else if i == 0xf1 {} else if i == 0xf2 {} else if i == 0xf3 {}
    else if i == 0xf4 {} else if i == 0xf5 {} else if i == 0xf6 {} else if i == 0xf7 {}
    else if i == 0xf8 {} else if i == 0xf9 {} else if i == 0xfa {} else if i == 0xfb {}
    else if i == 0xfc {} else if i == 0xfd {} else if i == 0xfe {} else { assert i == 0xff; }
  }

  /** Every entry of the table is what eight steps make of its index. */
  lemma EntryIsShift8(i: bv8)
    ensures Entry(i) == Shift8(Wide(i))
  {
    hide Shift8, Wide, ROW0, ROW1, ROW2, ROW3, ROW4, ROW5, ROW6, ROW7, ROW8, ROW9, ROW10, ROW11, ROW12, ROW13, ROW14, ROW15;
    var h := i >> 4;
    assert h < 16;
    if h == 0 {
      Row0(i);
    } else if h == 1 {
      Row1(i);
    } else if h == 2 {
      Row2(i);
    } else if h == 3 {
      Row3(i);
    } else if h == 4 {
      Row4(i);
    } else if h == 5 {
      Row5(i);
    } else if h == 6 {
      Row6(i);
    } else if h == 7 {
      Row7(i);
    } else if h == 8 {
      Row8(i);
    } else if h == 9 {
      Row9(i);
    } else if h == 10 {
      Row10(i);
    } else if h == 11 {
      Row11(i);
    } else if h == 12 {
      Row12(i);
    } else if h == 13 {
      Row13(i);
    } else if h == 14 {
      Row14(i);
    } else {
      assert h == 15;
      Row15(i);
    }
  }

  /** `crc32` of the boot loader. */
  method Crc32(crc: Word, p: seq<bv8>) returns (r: Word)
    ensures r == Crc32Of(crc, p)
  {
    hide Entry, LowByte, Bits, Not, Xor, Down8, Wide, Shift8;
    Flip(crc);
    r := Xor(crc, Word(0xFFFFFFFF));
    var i := 0;
    while i < |p|
      invariant i <= |p| && r == Serial(Not(crc), p[..i])
    {
      var x := LowByte(Xor(r, Wide(p[i])));
      EntryIsShift8(x);
      LookUpStep(Entry(x), r, p[i]);
      assert p[..i + 1][..i] == p[..i];
      r := Xor(Entry(x), Down8(r));
      i := i + 1;
    }
    assert p[..i] == p;
    Flip(r);
    r := Xor(r, Word(0xFFFFFFFF));
  }

  lemma Flip(x: Word)
    ensures Xor(x, Word(0xFFFFFFFF)) == Not(x)
  {
  }

  // ---------------------------------------------------------------------------------------------
  // The table that xz computes

  ghost predicate TableReady(table: array<Word>)
    reads table
  {
    table.Length == 256 && forall k: nat :: k < 256 ==> table[k] == Shift8(Nth(k))
  }

  function Nth(k: nat): Word
    requires k < 256
  {
    Word(k as bv32)
  }

  lemma NthIs(b: bv8)
    ensures Nth(b as int) == Wide(b)
  {
    BackAgain(b);
    Widened(b as int);
  }

  lemma BackAgain(b: bv8)
    ensures (b as int) as bv8 == b
  {
  }

  lemma Widened(i: nat)
    requires i < 256
    ensures (i as bv8) as bv32 == i as bv32
  {
  }

  /** The expression that xz uses for one step: a mask instead of a branch. */
  lemma MaskedStep(r: Word)
    ensures Word((r.v >> 1) ^ (POLY & !((r.v & 1) - 1))) == Shift(r)
  {
    LowBit(r.v);
  }

  function Steps(r: Word, n: nat): Word {
    if n == 0 then r else Shift(Steps(r, n - 1))
  }

  lemma EightSteps(r: Word)
    ensures Steps(r, 8) == Shift8(r)
  {
    hide Shift;
    assert Steps(r, 2) == Shift(Steps(r, 1));
    assert Steps(r, 4) == Shift(Steps(r, 3));
    assert Steps(r, 6) == Shift(Steps(r, 5));
  }

  /** `xz_crc32_init` */
  method InitTable(table: array<Word>)
    requires table.Length == 256
    modifies table
    ensures TableReady(table)
  {
    hide Shift, Shift8;
    var i := 0;
    while i < 256
      invariant i <= 256
      invariant forall k: nat :: k < i ==> table[k] == Shift8(Nth(k))
    {
      var r := Word(i as bv32);
      var j := 0;
      while j < 8
        invariant j <= 8 && r == Steps(Nth(i), j)
        invariant forall k: nat :: k < i ==> table[k] == Shift8(Nth(k))
      {
        MaskedStep(r);
        r := Word((r.v >> 1) ^ (POLY & !((r.v & 1) - 1)));
        j := j + 1;
      }
      EightSteps(Nth(i));
      table[i] := r;
      i := i + 1;
    }
  }

  /** `xz_crc32`: the same CRC, so that a check by the one is a check by the other. */
  method XzCrc32(table: array<Word>, buf: seq<bv8>, crc: Word) returns (r: Word)
    requires TableReady(table)
    ensures r == Crc32Of(crc, buf)
  {
    hide LowByte, Bits, Shift8, Not, Xor, Down8, Wide, Nth;
    r := Not(crc);
    var i := 0;
    while i < |buf|
      invariant i <= |buf| && r == Serial(Not(crc), buf[..i])
    {
      var x := buf[i] ^ LowByte(r);
      SameIndex(r, buf[i]);
      NthIs(x);
      LookUpStep(table[x as int], r, buf[i]);
      assert buf[..i + 1][..i] == buf[..i];
      r := Xor(table[x as int], Down8(r));
      i := i + 1;
    }
    assert buf[..i] == buf;
    r := Not(r);
  }

  lemma SameIndex(r: Word, b: bv8)
    ensures b ^ LowByte(r) == LowByte(Xor(r, Wide(b)))
  {
  }
}
