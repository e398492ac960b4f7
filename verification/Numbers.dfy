/** Little-endian byte strings as integers, and the byte-serial automata that compute on them. */
module Numbers {
  import opened Shared
  import opened Memory

  function Pow(b: nat, n: nat): (r: nat)
    ensures b >= 1 ==> r >= 1
  {
    if n == 0 then 1 else b * Pow(b, n - 1)
  }

  /** The unsigned value of a little-endian byte string. */
  function Value(s: seq<byte>): nat {
    if s == [] then 0 else s[0] + 256 * Value(s[1..])
  }

  /** The low `w` bytes of `v`, in two's complement when `v` is negative. */
  function ToBytes(v: int, w: nat): (s: seq<byte>)
    ensures |s| == w
    decreases w
  {
    if w == 0 then [] else [(v % 256) as byte] + ToBytes(v / 256, w - 1)
  }

  lemma {:induction false} ValueBound(s: seq<byte>)
    ensures Value(s) < Pow(256, |s|)
  {
    if s != [] {
      ValueBound(s[1..]);
    }
  }

  /** Storing a number and reading it back reduces it modulo 256^w. */
  lemma {:induction false} ValueOfToBytes(v: int, w: nat)
    ensures Value(ToBytes(v, w)) == v % Pow(256, w)
    decreases w
  {
    if w != 0 {
      ValueOfToBytes(v / 256, w - 1);
      assert ToBytes(v, w)[1..] == ToBytes(v / 256, w - 1);
      ModSplit(v, Pow(256, w - 1));
    }
  }

  lemma ModSplit(v: int, q: nat)
    requires q >= 1
    ensures v % (256 * q) == v % 256 + 256 * (v / 256 % q)
  {
    var a, b := v / 256 / q, v / 256 % q;
    assert v / 256 == q * a + b;
    assert v == (256 * q) * a + (256 * b + v % 256);
    DivModUnique(v, 256 * q, a, 256 * b + v % 256);
  }

  lemma DivModUnique(v: int, d: int, q: int, r: int)
    requires d > 0 && v == d * q + r && 0 <= r < d
    ensures v / d == q && v % d == r
  {
    var q', r' := v / d, v % d;
    assert v == d * q' + r';
    assert d * (q' - q) == d * q' - d * q == r - r';
    if q' > q {
      MulGrows(d, q' - q);
    } else if q' < q {
      assert d * (q - q') == -(d * (q' - q));
      MulGrows(d, q - q');
    }
  }

  lemma MulGrows(d: int, k: int)
    requires d > 0 && k >= 1
    ensures d * k >= d
  {
  }

  lemma {:induction false} ToBytesOfValue(s: seq<byte>)
    ensures ToBytes(Value(s), |s|) == s
  {
    if s != [] {
      ToBytesOfValue(s[1..]);
    }
  }

  /** Byte strings of one width are equal exactly when their values are. */
  lemma ValueInjective(s: seq<byte>, t: seq<byte>)
    requires |s| == |t|
    ensures Value(s) == Value(t) <==> s == t
  {
    ToBytesOfValue(s);
    ToBytesOfValue(t);
  }

  // ---------------------------------------------------------------------------------------------
  // Ripple carry

  /** One digit of `l + r` (sg == 1) or `l - r` (sg == -1), given the carry or borrow `c`. */
  function Digit(sg: int, l: int, r: int, c: int): int {
    l + sg * (r + c)
  }

  function CarryOut(sg: int, d: int): int {
    sg * (d / 256)
  }

  /** The carry into byte `k`. */
  function Carry(sg: int, l: seq<byte>, r: seq<byte>, c: int, k: nat): (b: int)
    requires |l| == |r| && k <= |l| && (sg == 1 || sg == -1) && 0 <= c <= 1
    ensures 0 <= b <= 1
  {
    if k == 0 then c else CarryOut(sg, Digit(sg, l[k - 1], r[k - 1], Carry(sg, l, r, c, k - 1)))
  }

  function Ripple(sg: int, l: seq<byte>, r: seq<byte>, c: int): (s: seq<byte>)
    requires |l| == |r| && (sg == 1 || sg == -1) && 0 <= c <= 1
    ensures |s| == |l|
    ensures forall k :: 0 <= k < |s| ==> s[k] == Digit(sg, l[k], r[k], Carry(sg, l, r, c, k)) % 256
  {
    seq<byte>(|l|, k requires 0 <= k < |l| => (Digit(sg, l[k], r[k], Carry(sg, l, r, c, k)) % 256) as byte)
  }

  /** Dropping the lowest byte leaves the carries of the rest. */
  lemma {:induction false} CarryShift(sg: int, l: seq<byte>, r: seq<byte>, c: int, k: nat)
    requires |l| == |r| && k < |l| && (sg == 1 || sg == -1) && 0 <= c <= 1
    ensures Carry(sg, l, r, c, k + 1) == Carry(sg, l[1..], r[1..], Carry(sg, l, r, c, 1), k)
  {
    if k != 0 {
      CarryShift(sg, l, r, c, k - 1);
    }
  }

  /** The ripple computes the sum or difference modulo 256^w ... */
  lemma {:induction false} RippleCorrect(sg: int, l: seq<byte>, r: seq<byte>, c: int)
    requires |l| == |r| && (sg == 1 || sg == -1) && 0 <= c <= 1
    ensures Ripple(sg, l, r, c) == ToBytes(Value(l) + sg * (Value(r) + c), |l|)
    decreases |l|
  {
    if l != [] {
      var c' := Carry(sg, l, r, c, 1);
      var d := Digit(sg, l[0], r[0], c);
      RippleCorrect(sg, l[1..], r[1..], c');
      RippleUnfold(sg, l, r, c);
      assert c' == CarryOut(sg, d);
      hide Carry, Ripple;
      RippleDigit(sg, d, c', l[0], r[0], c, Value(l[1..]), Value(r[1..]));
    }
  }

  lemma RippleUnfold(sg: int, l: seq<byte>, r: seq<byte>, c: int)
    requires |l| == |r| >= 1 && (sg == 1 || sg == -1) && 0 <= c <= 1
    ensures Ripple(sg, l, r, c) == [(Digit(sg, l[0], r[0], c) % 256) as byte] + Ripple(sg, l[1..], r[1..], Carry(sg, l, r, c, 1))
  {
    var c' := Carry(sg, l, r, c, 1);
    assert Carry(sg, l, r, c, 0) == c;
    hide Digit, CarryOut;
    var x, y := Ripple(sg, l, r, c), Ripple(sg, l[1..], r[1..], c');
    forall k | 0 <= k < |y| ensures x[k + 1] == y[k] {
      CarryShift(sg, l, r, c, k);
    }
    assert x[1..] == y;
  }

  /** ... and its last carry is what does not fit. */
  lemma {:induction false} LastCarry(sg: int, l: seq<byte>, r: seq<byte>, c: int)
    requires |l| == |r| && (sg == 1 || sg == -1) && 0 <= c <= 1
    ensures Carry(sg, l, r, c, |l|) == sg * ((Value(l) + sg * (Value(r) + c)) / Pow(256, |l|))
    decreases |l|
  {
    if l == [] {
      assert sg * (sg * c) == c;
    } else {
      var c' := Carry(sg, l, r, c, 1);
      var d := Digit(sg, l[0], r[0], c);
      LastCarry(sg, l[1..], r[1..], c');
      CarryShift(sg, l, r, c, |l| - 1);
      assert Carry(sg, l, r, c, 0) == c;
      hide Carry;
      RippleDigit(sg, d, c', l[0], r[0], c, Value(l[1..]), Value(r[1..]));
      DivSplit(Value(l) + sg * (Value(r) + c), Pow(256, |l| - 1));
    }
  }

  lemma RippleDigit(sg: int, d: int, c': int, l0: int, r0: int, c: int, l: int, r: int)
    requires (sg == 1 || sg == -1) && d == Digit(sg, l0, r0, c) && c' == CarryOut(sg, d)
    ensures var v := l0 + 256 * l + sg * (r0 + 256 * r + c);
            v % 256 == d % 256 && v / 256 == l + sg * (r + c')
  {
    if sg == 1 {
    } else {
    }
  }

  lemma DivSplit(v: int, q: nat)
    requires q >= 1
    ensures v / (256 * q) == v / 256 / q
  {
    var a, b := v / 256 / q, v / 256 % q;
    assert v == (256 * q) * a + (256 * b + v % 256);
    DivModUnique(v, 256 * q, a, 256 * b + v % 256);
  }

  /** The last borrow of `l - r` tells the unsigned order. */
  lemma BorrowIsLess(l: seq<byte>, r: seq<byte>)
    requires |l| == |r|
    ensures Carry(-1, l, r, 0, |l|) == if Value(l) < Value(r) then 1 else 0
  {
    LastCarry(-1, l, r, 0);
    ValueBound(l);
    ValueBound(r);
    var v, q := Value(l) - Value(r), Pow(256, |l|);
    if v < 0 {
      DivModUnique(v, q, -1, v + q);
    } else {
      DivModUnique(v, q, 0, v);
    }
  }

  // ---------------------------------------------------------------------------------------------
  // Equality and signed order

  /** Equality of the first `k` bytes, as the selector bit of the equality automaton. */
  function EqualSoFar(l: seq<byte>, r: seq<byte>, k: nat): (b: int)
    requires |l| == |r| && k <= |l|
    ensures b == if l[..k] == r[..k] then 1 else 0
  {
    if k == 0 then 1
    else
      assert l[..k] == l[..k - 1] + [l[k - 1]] && r[..k] == r[..k - 1] + [r[k - 1]];
      if l[k - 1] == r[k - 1] && EqualSoFar(l, r, k - 1) == 1 then 1 else 0
  }

  const GES_HIGH := 0
  const GES_FALSE := 1
  const GES_TRUE := 2
  const GES_EQU := 3

  function Int8(x: byte): int {
    if x >= 128 then x - 256 else x
  }

  /** One transition of the signed comparison. */
  function GesNext(st: int, x: byte, y: byte): int {
    if st == GES_HIGH then (if Int8(x) < Int8(y) then GES_FALSE else if Int8(x) > Int8(y) then GES_TRUE else GES_EQU)
    else if st == GES_EQU then (if x < y then GES_FALSE else if x > y then GES_TRUE else GES_EQU)
    else st
  }

  /** The state after the top `t` bytes have been seen, from high to low. */
  function GesState(l: seq<byte>, r: seq<byte>, t: nat): (st: int)
    requires |l| == |r| && t <= |l|
    ensures GES_HIGH <= st <= GES_EQU
  {
    if t == 0 then GES_HIGH else GesNext(GesState(l, r, t - 1), l[|l| - t], r[|l| - t])
  }

  /** The two's-complement value of a byte string. */
  function SignedValue(s: seq<byte>): int
    requires s != []
  {
    if |s| == 1 then Int8(s[0]) else s[0] + 256 * SignedValue(s[1..])
  }

  lemma {:induction false} SignedIsTwosComplement(s: seq<byte>)
    requires s != []
    ensures SignedValue(s) == if 2 * Value(s) < Pow(256, |s|) then Value(s) else Value(s) - Pow(256, |s|)
    ensures 0 <= 2 * SignedValue(s) + Pow(256, |s|) && 2 * SignedValue(s) < Pow(256, |s|)
  {
    if |s| == 1 {
      assert Value(s[1..]) == 0 && Pow(256, 1) == 256 * Pow(256, 0);
    } else {
      SignedIsTwosComplement(s[1..]);
      ValueBound(s[1..]);
      PowEven(|s| - 1);
    }
  }

  lemma PowEven(n: nat)
    requires n >= 1
    ensures Pow(256, n) % 2 == 0
  {
    assert Pow(256, n) == 2 * (128 * Pow(256, n - 1));
  }

  lemma {:induction false} GesStateDrop(l: seq<byte>, r: seq<byte>, t: nat)
    requires |l| == |r| && t < |l|
    ensures GesState(l, r, t) == GesState(l[1..], r[1..], t)
  {
    if t != 0 {
      GesStateDrop(l, r, t - 1);
    }
  }

  /** The signed automaton ends in the state that names the order of the two numbers. */
  lemma {:induction false} GesCorrect(l: seq<byte>, r: seq<byte>)
    requires |l| == |r| >= 1
    ensures GesState(l, r, |l|) ==
            if SignedValue(l) < SignedValue(r) then GES_FALSE else if SignedValue(l) > SignedValue(r) then GES_TRUE else GES_EQU
  {
    if |l| == 1 {
      assert GesState(l, r, 0) == GES_HIGH;
    } else {
      GesCorrect(l[1..], r[1..]);
      GesStateDrop(l, r, |l| - 1);
    }
  }

  // ---------------------------------------------------------------------------------------------
  // Bitwise operations

  datatype BitOp = AndOp | OrOp | XorOp

  function Bit(op: BitOp, x: int, y: int): (b: int)
    requires 0 <= x <= 1 && 0 <= y <= 1
    ensures 0 <= b <= 1
  {
    match op
    case AndOp => x * y
    case OrOp => x + y - x * y
    case XorOp => (x + y) % 2
  }

  /** The bitwise operation on natural numbers, bit by bit. */
  function Bitwise(op: BitOp, x: nat, y: nat): nat
    decreases x + y
  {
    if x == 0 && y == 0 then 0
    else Bit(op, x % 2, y % 2) + 2 * Bitwise(op, x / 2, y / 2)
  }

  lemma {:induction false} BitwiseCommutes(op: BitOp, x: nat, y: nat)
    ensures Bitwise(op, x, y) == Bitwise(op, y, x)
    decreases x + y
  {
    if x != 0 || y != 0 {
      BitwiseCommutes(op, x / 2, y / 2);
    }
  }

  /** Bitwise operations act separately on the low `k` bits and the rest. */
  lemma {:induction false} BitwiseSplit(op: BitOp, k: nat, a: nat, b: nat, i: nat, j: nat)
    requires i < Pow(2, k) && j < Pow(2, k)
    ensures Bitwise(op, i, j) < Pow(2, k)
    ensures Bitwise(op, Pow(2, k) * a + i, Pow(2, k) * b + j) == Pow(2, k) * Bitwise(op, a, b) + Bitwise(op, i, j)
    decreases k
  {
    hide Bitwise;
    if k == 0 {
      assert Bitwise(op, 0, 0) == 0 by { BitwiseUnfold(op, 0, 0); }
    } else {
      BitwiseSplit(op, k - 1, a, b, i / 2, j / 2);
      var q, h := Pow(2, k - 1), Bitwise(op, a, b);
      BitwiseDouble(op, q * a, q * b, q * h, i, j);
      MulAssoc(2, q, a);
      MulAssoc(2, q, b);
      MulAssoc(2, q, h);
    }
  }

  lemma BitwiseDouble(op: BitOp, x: nat, y: nat, h: int, i: nat, j: nat)
    requires Bitwise(op, x + i / 2, y + j / 2) == h + Bitwise(op, i / 2, j / 2)
    ensures Bitwise(op, 2 * x + i, 2 * y + j) == 2 * h + Bitwise(op, i, j)
    ensures Bitwise(op, i, j) <= 2 * Bitwise(op, i / 2, j / 2) + 1
  {
    hide Bitwise, Bit;
    BitwiseUnfold(op, i, j);
    BitwiseUnfold(op, 2 * x + i, 2 * y + j);
    assert (2 * x + i) / 2 == x + i / 2 && (2 * y + j) / 2 == y + j / 2;
    assert (2 * x + i) % 2 == i % 2 && (2 * y + j) % 2 == j % 2;
  }

  lemma MulAssoc(x: int, y: int, z: int)
    ensures x * (y * z) == (x * y) * z
  {
  }

  lemma BitwiseUnfold(op: BitOp, x: nat, y: nat)
    ensures Bitwise(op, x, y) == Bit(op, x % 2, y % 2) + 2 * Bitwise(op, x / 2, y / 2)
  {
  }

  lemma BitwiseByte(op: BitOp, x: byte, y: byte)
    ensures Bitwise(op, x, y) < 256
  {
    assert Pow(2, 8) == 256 by { PowTwo8(); }
    BitwiseSplit(op, 8, 0, 0, x, y);
  }

  lemma PowTwo8()
    ensures Pow(2, 8) == 256
  {
    assert Pow(2, 4) == 16;
    assert Pow(2, 8) == 2 * (2 * (2 * (2 * Pow(2, 4))));
  }

  function BitwiseBytes(op: BitOp, l: seq<byte>, r: seq<byte>): (s: seq<byte>)
    requires |l| == |r|
    ensures |s| == |l| && forall k :: 0 <= k < |s| ==> s[k] == Bitwise(op, l[k], r[k])
  {
    seq<byte>(|l|, k requires 0 <= k < |l| => (BitwiseByte(op, l[k], r[k]); Bitwise(op, l[k], r[k]) as byte))
  }

  /** Whether bit `k` of a number is set. */
  predicate BitSet(x: nat, k: nat) {
    x / Pow(2, k) % 2 == 1
  }

  predicate Joined(op: BitOp, x: bool, y: bool) {
    match op
    case AndOp => x && y
    case OrOp => x || y
    case XorOp => x != y
  }

  /** Each bit of the result is the operation on the two bits at its place. */
  lemma {:induction false} BitwiseBits(op: BitOp, x: nat, y: nat, k: nat)
    ensures BitSet(Bitwise(op, x, y), k) <==> Joined(op, BitSet(x, k), BitSet(y, k))
  {
    hide Bitwise;
    BitwiseUnfold(op, x, y);
    if k > 0 {
      BitwiseBits(op, x / 2, y / 2, k - 1);
      BitAbove(x, k);
      BitAbove(y, k);
      BitAbove(Bitwise(op, x, y), k);
    }
  }

  lemma BitAbove(x: nat, k: nat)
    requires k > 0
    ensures BitSet(x, k) == BitSet(x / 2, k - 1)
  {
    HalfFirst(x, Pow(2, k - 1));
  }

  lemma HalfFirst(x: nat, b: nat)
    requires b > 0
    ensures x / (2 * b) == x / 2 / b
  {
    var h := x / 2;
    var q, r := h / b, h % b;
    MulAssoc(2, b, q);
    var bq := b * q;
    assert h == bq + r;
    DivIs(x, 2 * b, q, 2 * r + x % 2);
  }

  lemma DivIs(x: nat, d: nat, q: nat, r: nat)
    requires d > 0 && x == d * q + r && r < d
    ensures x / d == q
  {
    var e := x / d;
    if e < q {
      MulMono(d, e + 1, q);
    } else if e > q {
      MulMono(d, q + 1, e);
    }
  }

  lemma BitwiseNone(op: BitOp)
    ensures Bitwise(op, 0, 0) == 0
  {
  }

  /** Working byte by byte is working on the whole numbers. */
  lemma {:induction false} BitwiseCorrect(op: BitOp, l: seq<byte>, r: seq<byte>)
    requires |l| == |r|
    ensures Value(BitwiseBytes(op, l, r)) == Bitwise(op, Value(l), Value(r))
    ensures forall k: nat :: BitSet(Value(BitwiseBytes(op, l, r)), k) <==> Joined(op, BitSet(Value(l), k), BitSet(Value(r), k))
  {
    hide Bitwise, Pow, BitSet;
    forall k: nat
      ensures BitSet(Bitwise(op, Value(l), Value(r)), k) <==> Joined(op, BitSet(Value(l), k), BitSet(Value(r), k))
    {
      BitwiseBits(op, Value(l), Value(r), k);
    }
    if l == [] {
      BitwiseNone(op);
    } else {
      BitwiseCorrect(op, l[1..], r[1..]);
      assert BitwiseBytes(op, l, r)[1..] == BitwiseBytes(op, l[1..], r[1..]);
      PowTwo8();
      BitwiseSplit(op, 8, Value(l[1..]), Value(r[1..]), l[0], r[0]);
    }
  }

  function NotBytes(s: seq<byte>): (t: seq<byte>)
    ensures |t| == |s| && forall k :: 0 <= k < |t| ==> t[k] == 255 - s[k]
  {
    seq<byte>(|s|, k requires 0 <= k < |s| => 255 - s[k])
  }

  lemma {:induction false} NotCorrect(s: seq<byte>)
    ensures Value(NotBytes(s)) == Pow(256, |s|) - 1 - Value(s)
  {
    if s != [] {
      NotCorrect(s[1..]);
      assert NotBytes(s)[1..] == NotBytes(s[1..]);
    }
  }

  // ---------------------------------------------------------------------------------------------
  // The operators of C on bytes

  function OnBytes(op: BitOp, x: bv8, y: bv8): bv8 {
    match op
    case AndOp => x & y
    case OrOp => x | y
    case XorOp => x ^ y
  }

  lemma Halves(x: bv8)
    ensures (x >> 1) as int == x as int / 2 && (x & 1) as int == x as int % 2
  {
  }

  lemma OnHalves(op: BitOp, x: bv8, y: bv8)
    ensures OnBytes(op, x, y) >> 1 == OnBytes(op, x >> 1, y >> 1)
    ensures (OnBytes(op, x, y) & 1) as int == Bit(op, (x & 1) as int, (y & 1) as int)
  {
  }

  /** `&`, `|` and `^` on bytes are the operations on numbers. */
  lemma {:induction false} OnBytesIs(op: BitOp, x: bv8, y: bv8)
    ensures OnBytes(op, x, y) as int == Bitwise(op, x as int, y as int)
    decreases x as int + y as int
  {
    hide Bitwise, OnBytes, Bit;
    Halves(x);
    Halves(y);
    Halves(OnBytes(op, x, y));
    OnHalves(op, x, y);
    if x as int == 0 && y as int == 0 {
      BitwiseNone(op);
      assert OnBytes(op, 0, 0) == 0 by { NoneSet(op); }
    } else {
      OnBytesIs(op, x >> 1, y >> 1);
      BitwiseUnfold(op, x as int, y as int);
    }
  }

  lemma NoneSet(op: BitOp)
    ensures OnBytes(op, 0, 0) == 0
  {
  }

  // ---------------------------------------------------------------------------------------------
  // Shifts

  /** 2^s for a shift within a byte. */
  function P2(s: int): (p: int)
    ensures 1 <= p <= 128
  {
    if s == 0 then 1 else if s == 1 then 2 else if s == 2 then 4 else if s == 3 then 8
    else if s == 4 then 16 else if s == 5 then 32 else if s == 6 then 64 else 128
  }

  /** The neighbours of byte `k`, with `lo` and `hi` beyond the ends. */
  function Below(x: seq<byte>, lo: byte, k: int): byte
    requires 0 <= k < |x|
  {
    if k == 0 then lo else x[k - 1]
  }

  function Above(x: seq<byte>, hi: byte, k: int): byte
    requires 0 <= k < |x|
  {
    if k == |x| - 1 then hi else x[k + 1]
  }

  /** The byte that a two-byte window shows after a shift by `s` bits. */
  function LeftByte(hi: byte, lo: byte, s: int): byte {
    (0x100 * hi + lo) * P2(s) / 0x100 % 0x100
  }

  function RightByte(hi: byte, lo: byte, s: int): byte {
    (0x100 * hi + lo) / P2(s) % 0x100
  }

  /** Shifted left by `s` bits, with byte `lo` below the lowest byte. */
  function SllFrom(x: seq<byte>, lo: byte, s: int): (y: seq<byte>)
    ensures |y| == |x|
    ensures forall k :: 0 <= k < |x| ==> y[k] == LeftByte(x[k], Below(x, lo, k), s)
  {
    seq<byte>(|x|, k requires 0 <= k < |x| => LeftByte(x[k], Below(x, lo, k), s))
  }

  /** The cofactor of 2^s in 256. */
  function Q2(s: int): (q: int)
    ensures q >= 1
    ensures P2(s) * q == 0x100
  {
    if s == 0 then 0x100 else if s == 1 then 128 else if s == 2 then 64 else if s == 3 then 32
    else if s == 4 then 16 else if s == 5 then 8 else if s == 6 then 4 else 2
  }

  lemma SllByte(x: byte, lo: byte, s: int)
    ensures (0x100 * x + lo) * P2(s) / 0x100 == x * P2(s) + lo * P2(s) / 0x100
    ensures (x * P2(s) + lo * P2(s) / 0x100) / 0x100 == x * P2(s) / 0x100
  {
    hide P2, Q2;
    var p, q := P2(s), Q2(s);
    assert (0x100 * x + lo) * p == 0x100 * (x * p) + lo * p;
    var a, b := x / q, x % q;
    assert x == q * a + b;
    assert x * p == 0x100 * a + b * p by {
      assert (q * a + b) * p == (p * q) * a + b * p;
    }
    Products(p, q, b, lo);
  }

  lemma Products(p: int, q: int, b: int, lo: byte)
    requires p >= 1 && q >= 1 && p * q == 0x100 && 0 <= b < q
    ensures 0 <= b * p <= 0x100 - p && 0 <= lo * p / 0x100 < p
  {
    assert (q - b) * p >= p;
    assert (q - b) * p == 0x100 - b * p;
    assert 0 <= lo * p <= 0xff * p;
  }

  lemma ToBytesStep(c: int, v: int, n: nat)
    ensures ToBytes(c + 0x100 * v, n + 1) == [(c % 0x100) as byte] + ToBytes(c / 0x100 + v, n)
  {
    assert (c + 0x100 * v) % 0x100 == c % 0x100 && (c + 0x100 * v) / 0x100 == c / 0x100 + v;
  }

  lemma {:induction false} SllCorrect(x: seq<byte>, lo: byte, s: int)
    ensures SllFrom(x, lo, s) == ToBytes(Value(x) * P2(s) + lo * P2(s) / 0x100, |x|)
    decreases |x|
  {
    hide P2, SllFrom, ToBytes, LeftByte;
    var y := SllFrom(x, lo, s);
    if x == [] {
      NoBytes(lo * P2(s) / 0x100);
    } else {
      SllCorrect(x[1..], x[0], s);
      SllByte(x[0], lo, s);
      SllTail(x, lo, s);
      SllHead(x, lo, s);
      SllDigit(x[0], lo, s);
      var v, c := Value(x[1..]) * P2(s), x[0] * P2(s) + lo * P2(s) / 0x100;
      Distribute(x[0], Value(x[1..]), P2(s));
      ToBytesStep(c, v, |x| - 1);
      assert y == [y[0]] + y[1..];
    }
  }

  lemma NoBytes(v: int)
    ensures ToBytes(v, 0) == []
  {
  }

  lemma SllDigit(x: byte, lo: byte, s: int)
    ensures LeftByte(x, lo, s) == (x * P2(s) + lo * P2(s) / 0x100) % 0x100
  {
    SllByte(x, lo, s);
  }

  lemma Distribute(a: int, b: int, p: int)
    ensures (a + 0x100 * b) * p == a * p + 0x100 * (b * p)
  {
  }

  lemma SllHead(x: seq<byte>, lo: byte, s: int)
    requires x != []
    ensures SllFrom(x, lo, s)[0] == LeftByte(x[0], lo, s)
  {
    hide LeftByte;
  }

  lemma SllTail(x: seq<byte>, lo: byte, s: int)
    requires x != []
    ensures SllFrom(x, lo, s)[1..] == SllFrom(x[1..], x[0], s)
  {
    hide LeftByte;
    var y, z := SllFrom(x, lo, s)[1..], SllFrom(x[1..], x[0], s);
    forall k | 0 <= k < |z| ensures y[k] == z[k] {
      assert y[k] == SllFrom(x, lo, s)[k + 1];
    }
  }

  /** Shifted right by `s` bits, with byte `hi` above the highest byte. */
  function SrlFrom(x: seq<byte>, hi: byte, s: int): (y: seq<byte>)
    ensures |y| == |x|
    ensures forall k :: 0 <= k < |x| ==> y[k] == RightByte(Above(x, hi, k), x[k], s)
  {
    seq<byte>(|x|, k requires 0 <= k < |x| => RightByte(Above(x, hi, k), x[k], s))
  }

  lemma SrlParts(q: int, r: int, s: int)
    ensures (0x1_0000 * q + r) / P2(s) % 0x100 == r / P2(s) % 0x100
  {
    hide P2, Q2;
    var p, u := P2(s), 0x100 * (Q2(s) * q);
    Factors(p, Q2(s), q);
    assert r == p * (r / p) + r % p;
    assert p * (u + r / p) == p * u + p * (r / p);
    DivModUnique(0x1_0000 * q + r, p, u + r / p, r % p);
    PageShift(Q2(s) * q, r / p);
  }

  lemma PageShift(j: int, x: int)
    ensures (0x100 * j + x) % 0x100 == x % 0x100
  {
  }

  lemma Factors(p: int, c: int, q: int)
    requires p * c == 0x100
    ensures p * (0x100 * (c * q)) == 0x1_0000 * q
  {
    MulAssoc(p, 0x100, c * q);
    MulAssoc(0x100, p, c * q);
    MulAssoc(p, c, q);
  }

  lemma SrlByte(v: int, s: int)
    ensures v / P2(s) % 0x100 == (0x100 * (v / 0x100 % 0x100) + v % 0x100) / P2(s) % 0x100
    ensures v / P2(s) / 0x100 == v / 0x100 / P2(s)
  {
    hide P2;
    var q, r := v / 0x100 / 0x100, 0x100 * (v / 0x100 % 0x100) + v % 0x100;
    assert v == 0x1_0000 * q + r;
    SrlParts(q, r, s);
    DivSplit(v, P2(s));
    DivSplitLow(v, P2(s));
  }

  lemma DivSplitLow(v: int, q: nat)
    requires q >= 1
    ensures v / (256 * q) == v / q / 256
  {
    var a, b := v / q / 256, v / q % 256;
    assert v / q == 256 * a + b;
    assert v == q * (v / q) + v % q;
    assert q * (256 * a + b) == (256 * q) * a + q * b;
    MulLe(q, b);
    DivModUnique(v, 256 * q, a, q * b + v % q);
  }

  lemma MulLe(q: int, b: int)
    requires q >= 1 && 0 <= b <= 255
    ensures 0 <= q * b <= 255 * q
  {
  }

  /** Right shifts of a number whose low bytes are `x` and whose next byte is `hi`. */
  lemma {:induction false} SrlCorrect(v: int, x: seq<byte>, hi: byte, s: int)
    requires ToBytes(v, |x| + 1) == x + [hi]
    ensures SrlFrom(x, hi, s) == ToBytes(v / P2(s), |x|)
    decreases |x|
  {
    hide P2, SrlFrom;
    if x != [] {
      var u := ToBytes(v / 0x100, |x|);
      SrlDigits(v, x, hi);
      SrlCorrect(v / 0x100, x[1..], hi, s);
      SrlByte(v, s);
      SrlTail(x, hi, s);
      SrlHead(x, hi, s);
      var y := SrlFrom(x, hi, s);
      assert y == [y[0]] + y[1..];
    }
  }

  lemma SrlDigits(v: int, x: seq<byte>, hi: byte)
    requires x != [] && ToBytes(v, |x| + 1) == x + [hi]
    ensures ToBytes(v / 0x100, |x|) == x[1..] + [hi]
    ensures x[0] == v % 0x100 && (if |x| == 1 then hi else x[1]) == v / 0x100 % 0x100
  {
    var u := ToBytes(v / 0x100, |x|);
    assert x + [hi] == [(v % 0x100) as byte] + u;
    assert (x + [hi])[0] == x[0] && (x + [hi])[1..] == u;
    assert u[0] == v / 0x100 % 0x100;
  }

  lemma SrlHead(x: seq<byte>, hi: byte, s: int)
    requires x != []
    ensures SrlFrom(x, hi, s)[0] == RightByte(if |x| == 1 then hi else x[1], x[0], s)
  {
    hide RightByte;
  }

  lemma SrlLast(x: seq<byte>, hi: byte, s: int)
    requires x != []
    ensures SrlFrom(x, hi, s)[|x| - 1] == RightByte(hi, x[|x| - 1], s)
  {
    hide RightByte;
  }

  lemma SrlTail(x: seq<byte>, hi: byte, s: int)
    requires x != []
    ensures SrlFrom(x, hi, s)[1..] == SrlFrom(x[1..], hi, s)
  {
    hide RightByte;
    var y, z := SrlFrom(x, hi, s)[1..], SrlFrom(x[1..], hi, s);
    forall k | 0 <= k < |z| ensures y[k] == z[k] {
      assert y[k] == SrlFrom(x, hi, s)[k + 1];
    }
  }

  /** The byte above a two's-complement number. */
  function SignByte(x: seq<byte>): byte
    requires x != []
  {
    if x[|x| - 1] >= 0x80 then 0xff else 0
  }

  lemma {:induction false} SignedBytes(x: seq<byte>)
    requires x != []
    ensures ToBytes(SignedValue(x), |x| + 1) == x + [SignByte(x)]
  {
    hide ToBytes;
    if |x| == 1 {
      var b := x[0];
      var high: int := if b >= 0x80 then -1 else 0;
      assert SignedValue(x) == 256 * high + b;
      ToBytesStep(b, high, 1);
      ToBytesStep(SignByte(x), high, 0);
      assert ToBytes(high, 0) == [];
      assert x + [SignByte(x)] == [b] + ([SignByte(x)] + []);
    } else {
      SignedBytes(x[1..]);
      ToBytesStep(x[0], SignedValue(x[1..]), |x|);
      assert x == [x[0]] + x[1..];
    }
  }

  lemma {:induction false} UnsignedBytes(x: seq<byte>)
    ensures ToBytes(Value(x), |x| + 1) == x + [0]
  {
    if x != [] {
      UnsignedBytes(x[1..]);
      assert x == [x[0]] + x[1..];
    } else {
      assert ToBytes(0, 1) == [0] + ToBytes(0, 0);
    }
  }

  lemma SraTop(x: byte, s: int)
    ensures Int8(x) / P2(s) % 0x100 == (0x100 * (if x >= 0x80 then 0xff else 0) + x) / P2(s) % 0x100
  {
    hide P2;
    if x >= 0x80 {
      SrlParts(-1, 0x100 * 0xff + x, s);
    }
  }

  // ---------------------------------------------------------------------------------------------
  // Byte strings of one number

  /** Dropping `a` low bytes divides by 256^a. */
  lemma {:induction false} ToBytesSlice(v: int, n: nat, a: nat, w: nat)
    requires a + w <= n
    ensures ToBytes(v, n)[a..a + w] == ToBytes(v / Pow(256, a), w)
    decreases a, n
  {
    if a == 0 {
      ToBytesPrefix(v, n, w);
      assert v / 1 == v;
    } else {
      ToBytesSlice(v / 256, n - 1, a - 1, w);
      DivSplit(v, Pow(256, a - 1));
      var s := ToBytes(v / 256, n - 1);
      assert ToBytes(v, n) == [(v % 256) as byte] + s;
      assert ToBytes(v, n)[a..a + w] == s[a - 1..a - 1 + w];
    }
  }

  lemma {:induction false} ToBytesPrefix(v: int, n: nat, w: nat)
    requires w <= n
    ensures ToBytes(v, n)[..w] == ToBytes(v, w)
    ensures ToBytes(v, n)[0..0 + w] == ToBytes(v, w)
    decreases w
  {
    if w != 0 {
      ToBytesPrefix(v / 256, n - 1, w - 1);
      assert ToBytes(v, n) == [(v % 256) as byte] + ToBytes(v / 256, n - 1);
    }
  }

  lemma ToBytesUnfold(v: int, w: nat)
    requires w > 0
    ensures ToBytes(v, w) == [(v % 0x100) as byte] + ToBytes(v / 0x100, w - 1)
  {
  }

  lemma {:induction false} ToBytesConcat(v: int, a: nat, b: nat)
    ensures ToBytes(v, a) + ToBytes(v / Pow(256, a), b) == ToBytes(v, a + b)
    decreases a
  {
    hide ToBytes;
    if a == 0 {
      assert v / 1 == v;
      NoBytes(v);
    } else {
      ToBytesConcat(v / 256, a - 1, b);
      DivSplit(v, Pow(256, a - 1));
      ToBytesUnfold(v, a);
      ToBytesUnfold(v, a + b);
    }
  }

  lemma {:induction false} ToBytesScaled(v: int, q: nat, w: nat)
    requires q <= w
    ensures ToBytes(0, q) + ToBytes(v, w - q) == ToBytes(Pow(256, q) * v, w)
    decreases q
  {
    hide ToBytes;
    if q == 0 {
      NoBytes(0);
      assert Pow(256, 0) * v == v;
    } else {
      ToBytesScaled(v, q - 1, w - 1);
      var u := Pow(256, q - 1) * v;
      assert Pow(256, q) * v == 256 * u by { MulAssoc(256, Pow(256, q - 1), v); }
      ToBytesStep(0, 0, q - 1);
      ToBytesStep(0, u, w - 1);
    }
  }

  lemma {:induction false} PowAdd(b: nat, i: nat, j: nat)
    ensures Pow(b, i + j) == Pow(b, i) * Pow(b, j)
  {
    if i != 0 {
      PowAdd(b, i - 1, j);
      MulAssoc(b, Pow(b, i - 1), Pow(b, j));
    }
  }

  lemma {:induction false} PowByte(q: nat)
    ensures Pow(256, q) == Pow(2, 8 * q)
  {
    if q != 0 {
      PowByte(q - 1);
      PowAdd(2, 8, 8 * (q - 1));
      PowTwo8();
    }
  }

  lemma P2IsPow(s: int)
    requires 0 <= s < 8
    ensures P2(s) == Pow(2, s)
  {
    assert Pow(2, 0) == 1 && Pow(2, 1) == 2 && Pow(2, 2) == 4 && Pow(2, 3) == 8;
    assert Pow(2, 4) == 2 * Pow(2, 3) && Pow(2, 5) == 2 * Pow(2, 4) && Pow(2, 6) == 2 * Pow(2, 5) && Pow(2, 7) == 2 * Pow(2, 6);
  }

  /** A shift splits into whole bytes and bits. */
  lemma ShiftSplit(shift: nat, w: nat)
    requires w >= 1
    ensures var e, q, s := shift % (8 * w), shift / 8 % w, shift % 8;
            e == 8 * q + s && Pow(2, e) == Pow(256, q) * P2(s)
  {
    var e, q, s, d := shift % (8 * w), shift / 8 % w, shift % 8, shift / 8 / w;
    assert shift / 8 == w * d + q;
    assert shift == 8 * (w * d + q) + s == (8 * w) * d + (8 * q + s) by { MulAssoc(8, w, d); }
    DivModUnique(shift, 8 * w, d, 8 * q + s);
    PowAdd(2, 8 * q, s);
    PowByte(q);
    P2IsPow(s);
  }

  lemma DivDiv(v: int, a: nat, b: nat)
    requires a >= 1 && b >= 1
    ensures a * b >= 1 && v / (a * b) == v / a / b
  {
    MulGrows(a, b);
    var q, r := v / a / b, v / a % b;
    assert v / a == b * q + r;
    assert v == a * (v / a) + v % a;
    assert a * (b * q + r) == (a * b) * q + a * r by { MulAssoc(a, b, q); }
    assert 0 <= a * r <= a * (b - 1) by { MulMono(a, r, b - 1); }
    assert a * (b - 1) == a * b - a;
    DivModUnique(v, a * b, q, a * r + v % a);
  }

  lemma MulMono(a: int, x: int, y: int)
    requires a >= 0 && 0 <= x <= y
    ensures 0 <= a * x <= a * y
  {
  }
}
