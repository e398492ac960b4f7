/** The operations that are emitted as short programs: `Neg`, and the shifts by any number of bits. */
module DmaCompound {
  import opened Memory
  import opened Numbers
  import opened Tables
  import opened Arith
  import opened ArithShift
  import opened ArithPick
  import opened DmaProgram

  function NegProgram(w: nat, ret: int, inp: int, tmp: int): seq<Op> {
    [Not(w, tmp, inp), Inc(w, ret, tmp)]
  }

  function SllProgram(w: nat, ret: int, inp: int, shf: int, tmp: int, tbl: int): seq<Op> {
    [Zero(w, tmp), Shift8(w, tmp + w, inp, shf, Sll), Pick(w, ret, tmp, shf, tbl, true)]
  }

  function SrlProgram(w: nat, ret: int, inp: int, shf: int, tmp: int, tbl: int): seq<Op> {
    [Zero(w, tmp), Shift8(w, tmp, inp, shf, Srl), Pick(w, ret, tmp, shf, tbl, false)]
  }

  function SraProgram(w: nat, ret: int, inp: int, shf: int, tmp: int, tbl: int): seq<Op> {
    [SignFill(w, tmp + w, inp), Shift8(w, tmp, inp, shf, Sra), Pick(w, ret, tmp, shf, tbl, false)]
  }

  predicate Disjoint(a: int, n: int, b: int, k: int) {
    a + n <= b || b + k <= a
  }

  lemma StoredBytes(m: Mem, a: int, s: seq<byte>)
    ensures Bytes(PutBytes(m, a, s), a, |s|) == s
  {
    hide Get, PutBytes;
    var b := Bytes(PutBytes(m, a, s), a, |s|);
    forall i | 0 <= i < |s| ensures b[i] == s[i] {
      assert Get(PutBytes(m, a, s), a + i) == s[a + i - a];
    }
  }

  lemma OtherBytes(m: Mem, a: int, s: seq<byte>, b: int, n: nat)
    requires Disjoint(a, |s|, b, n)
    ensures Bytes(PutBytes(m, a, s), b, n) == Bytes(m, b, n)
  {
    hide Get, PutBytes;
    var x, y := Bytes(PutBytes(m, a, s), b, n), Bytes(m, b, n);
    forall i | 0 <= i < n ensures x[i] == y[i] {
      assert Get(PutBytes(m, a, s), b + i) == Get(m, b + i);
    }
  }

  lemma OtherByte(m: Mem, a: int, s: seq<byte>, b: int)
    requires Disjoint(a, |s|, b, 1)
    ensures Get(PutBytes(m, a, s), b) == Get(m, b)
  {
    hide Get, PutBytes;
  }

  lemma JoinBytes(m: Mem, a: int, j: nat, k: nat)
    ensures Bytes(m, a, j + k) == Bytes(m, a, j) + Bytes(m, a + j, k)
  {
    hide Get, Bytes;
    var x, y, z := Bytes(m, a, j + k), Bytes(m, a, j), Bytes(m, a + j, k);
    forall i | 0 <= i < j + k ensures x[i] == (y + z)[i] {
      assert x[i] == Get(m, a + i);
      if i < j {
        assert y[i] == Get(m, a + i);
      } else {
        assert z[i - j] == Get(m, a + j + (i - j));
      }
    }
  }

  lemma SubBytes(m: Mem, a: int, n: nat, j: nat, k: nat)
    requires j + k <= n
    ensures Bytes(m, a + j, k) == Bytes(m, a, n)[j..j + k]
  {
    hide Get, Bytes;
    var x, y := Bytes(m, a + j, k), Bytes(m, a, n)[j..j + k];
    forall i | 0 <= i < k ensures x[i] == y[i] {
      assert x[i] == Get(m, a + j + i);
      assert Bytes(m, a, n)[j + i] == Get(m, a + (j + i));
    }
  }

  /** Unfolding a program of two or three operations. */
  lemma PerformTwo(a: Op, b: Op, m: Mem)
    requires Legal(a) && Legal(b)
    ensures AllLegal([a, b]) && PerformAll([a, b], m) == Perform(b, Perform(a, m))
  {
    hide Perform, Legal;
    assert [a, b][1..] == [b] && [b][1..] == [];
    assert AllLegal([a, b]);
    assert PerformAll([a, b], m) == PerformAll([b], Perform(a, m));
    assert PerformAll([b], Perform(a, m)) == PerformAll([], Perform(b, Perform(a, m)));
  }

  lemma PerformThree(a: Op, b: Op, c: Op, m: Mem)
    requires Legal(a) && Legal(b) && Legal(c)
    ensures AllLegal([a, b, c]) && PerformAll([a, b, c], m) == Perform(c, Perform(b, Perform(a, m)))
  {
    hide Perform, Legal;
    PerformTwo(b, c, Perform(a, m));
    assert [a, b, c][1..] == [b, c];
    assert AllLegal([a, b, c]);
    assert PerformAll([a, b, c], m) == PerformAll([b, c], Perform(a, m));
  }

  // ---------------------------------------------------------------------------------------------
  // Negation

  /** `Neg` stores the two's complement of its operand. */
  lemma NegComputes(m: Mem, w: nat, ret: int, inp: int, tmp: int)
    requires 1 <= w < 16
    ensures AllLegal(NegProgram(w, ret, inp, tmp))
    ensures Bytes(PerformAll(NegProgram(w, ret, inp, tmp), m), ret, w) == ToBytes(0 - Num(m, inp, w) as int, w)
  {
    hide ToBytes, Value, Bytes, PutBytes, Pow, PerformAll;
    var a, b := Not(w, tmp, inp), Inc(w, ret, tmp);
    PerformTwo(a, b, m);
    var m1 := Perform(a, m);
    var v: int, q: int := Num(m, inp, w), Pow(256, w);
    StoredBytes(m, tmp, ToBytes(q - 1 - v, w));
    ValueOfToBytes(q - 1 - v, w);
    ValueBound(Bytes(m, inp, w));
    DivModUnique(q - 1 - v, q, 0, q - 1 - v);
    StoredBytes(m1, ret, ToBytes(Num(m1, tmp, w) + 1, w));
    ToBytesPeriodic(-v, w);
  }

  lemma {:induction false} ToBytesPeriodic(v: int, w: nat)
    ensures ToBytes(v + Pow(256, w), w) == ToBytes(v, w)
    decreases w
  {
    if w != 0 {
      ToBytesPeriodic(v / 256, w - 1);
      var q := Pow(256, w - 1);
      assert (v + 256 * q) % 256 == v % 256 && (v + 256 * q) / 256 == v / 256 + q;
    }
  }

  // ---------------------------------------------------------------------------------------------
  // Shifts

  lemma PerformZero(m: Mem, w: nat, ret: int)
    requires 1 <= w < 128
    ensures Perform(Zero(w, ret), m) == PutBytes(m, ret, ToBytes(0, w))
  {
    hide PutBytes, ToBytes;
  }

  lemma PerformSignFill(m: Mem, w: nat, ret: int, inp: int)
    requires 1 <= w < 128
    ensures Perform(SignFill(w, ret, inp), m) == PutBytes(m, ret, ToBytes(if Get(m, inp + w - 1) >= 0x80 then -1 else 0, w))
  {
    hide PutBytes, ToBytes, Get;
  }

  lemma PerformShift8(m: Mem, w: nat, ret: int, inp: int, shf: int, kind: Kind)
    requires 2 <= w < 128
    ensures Perform(Shift8(w, ret, inp, shf, kind), m) == PutBytes(m, ret, ToBytes(ShiftValue(kind, Bytes(m, inp, w), Get(m, shf)), w))
  {
    hide PutBytes, ToBytes, Get, Bytes, ShiftValue;
  }

  lemma PerformPick(m: Mem, w: nat, ret: int, tmp: int, shf: int, tbl: int, left: bool)
    requires 1 <= w < 128
    ensures Perform(Pick(w, ret, tmp, shf, tbl, left), m) ==
            PutBytes(m, ret, ToBytes(Value(Bytes(m, tmp + SelectValue(Select(w, left), Get(m, shf)), w)), w))
  {
    hide PutBytes, ToBytes, Get, Bytes, Value, SelectValue;
  }

  /** The operands stay clear of the double-width buffer. */
  predicate ShiftApart(w: nat, ret: int, inp: int, shf: int, tmp: int) {
    Disjoint(inp, w, tmp, 2 * w) && Disjoint(shf, 1, tmp, 2 * w) && Disjoint(ret, w, tmp, 2 * w)
  }

  /** `Sll` stores inp * 2^(shift mod 8w), modulo 256^w. */
  lemma SllComputes(m: Mem, w: nat, ret: int, inp: int, shf: int, tmp: int, tbl: int)
    requires 2 <= w < 128 && ShiftApart(w, ret, inp, shf, tmp)
    ensures AllLegal(SllProgram(w, ret, inp, shf, tmp, tbl))
    ensures Bytes(PerformAll(SllProgram(w, ret, inp, shf, tmp, tbl), m), ret, w) ==
            ToBytes(Num(m, inp, w) * Pow(2, Get(m, shf) % (8 * w)), w)
  {
    hide ToBytes, Value, Bytes, PutBytes, Pow, PerformAll, Perform, Outcome, Get, P2, SelectValue;
    var a, b, c := Zero(w, tmp), Shift8(w, tmp + w, inp, shf, Sll), Pick(w, ret, tmp, shf, tbl, true);
    PerformThree(a, b, c, m);
    var m1 := Perform(a, m);
    var m2 := Perform(b, m1);
    var shift := Get(m, shf);
    PerformZero(m, w, tmp);
    PerformShift8(m1, w, tmp + w, inp, shf, Sll);
    PerformPick(m2, w, ret, tmp, shf, tbl, true);
    var zeros := ToBytes(0, w);
    OtherBytes(m, tmp, zeros, inp, w);
    OtherByte(m, tmp, zeros, shf);
    var v := Num(m, inp, w) * P2(shift % 8);
    OtherByte(m1, tmp + w, ToBytes(v, w), shf);
    SllBuffer(m, m1, m2, w, tmp, v);
    var q := shift / 8 % w;
    SelectLeft(w, shift);
    SllPick(m2, w, tmp, v, q);
    StoredBytes(m2, ret, ToBytes(Value(Bytes(m2, tmp + (w - q), w)), w));
    ToBytesOfValue(Bytes(m2, tmp + (w - q), w));
    ShiftSplit(shift, w);
    assert Pow(256, q) * v == Num(m, inp, w) * Pow(2, shift % (8 * w)) by {
      MulSwap(Pow(256, q), Num(m, inp, w), P2(shift % 8));
    }
  }

  lemma MulSwap(a: int, b: int, c: int)
    ensures a * (b * c) == b * (a * c)
  {
  }

  lemma SelectLeft(w: nat, shift: byte)
    requires w >= 1
    ensures SelectValue(Select(w, true), shift) == w - shift / 8 % w
  {
  }

  lemma SelectRight(w: nat, shift: byte)
    requires w >= 1
    ensures SelectValue(Select(w, false), shift) == shift / 8 % w
  {
  }

  lemma BufferIs(m: Mem, w: nat, tmp: int, lo: seq<byte>, hi: seq<byte>)
    requires Bytes(m, tmp, w) == lo && Bytes(m, tmp + w, w) == hi
    ensures Bytes(m, tmp, 2 * w) == lo + hi
  {
    hide Bytes, Get;
    JoinBytes(m, tmp, w, w);
    assert w + w == 2 * w;
  }

  lemma SllBuffer(m: Mem, m1: Mem, m2: Mem, w: nat, tmp: int, v: int)
    requires m1 == PutBytes(m, tmp, ToBytes(0, w)) && m2 == PutBytes(m1, tmp + w, ToBytes(v, w))
    ensures Bytes(m2, tmp, 2 * w) == ToBytes(0, w) + ToBytes(v, w)
  {
    hide ToBytes, Bytes, PutBytes;
    StoredBytes(m, tmp, ToBytes(0, w));
    OtherBytes(m1, tmp + w, ToBytes(v, w), tmp, w);
    StoredBytes(m1, tmp + w, ToBytes(v, w));
    BufferIs(m2, w, tmp, ToBytes(0, w), ToBytes(v, w));
  }

  /** A window of zeros followed by a number is the number moved up. */
  lemma SllPick(m: Mem, w: nat, tmp: int, v: int, q: nat)
    requires q < w && Bytes(m, tmp, 2 * w) == ToBytes(0, w) + ToBytes(v, w)
    ensures Bytes(m, tmp + (w - q), w) == ToBytes(Pow(256, q) * v, w)
  {
    hide ToBytes, Bytes, Pow;
    SubBytes(m, tmp, 2 * w, w - q, w);
    var z, y := ToBytes(0, w), ToBytes(v, w);
    assert (z + y)[w - q..w - q + w] == z[w - q..] + y[..w - q];
    ZeroTail(w, q);
    ToBytesPrefix(v, w, w - q);
    ToBytesScaled(v, q, w);
  }

  lemma ZeroTail(w: nat, q: nat)
    requires q <= w
    ensures ToBytes(0, w)[w - q..] == ToBytes(0, q)
  {
    hide ToBytes;
    ToBytesSlice(0, w, w - q, q);
    ZeroDiv(Pow(256, w - q));
    assert w - q + q == w;
    assert ToBytes(0, w)[w - q..w] == ToBytes(0, w)[w - q..];
  }

  lemma ZeroDiv(d: int)
    requires d >= 1
    ensures 0 / d == 0
  {
    DivModUnique(0, d, 0, 0);
  }

  /** A buffer that holds one number in double width yields its quotients. */
  lemma RightPick(m: Mem, w: nat, tmp: int, v: int, q: nat)
    requires q < w && Bytes(m, tmp, 2 * w) == ToBytes(v, 2 * w)
    ensures Pow(256, q) >= 1 && Bytes(m, tmp + q, w) == ToBytes(v / Pow(256, q), w)
  {
    hide ToBytes, Bytes;
    SubBytes(m, tmp, 2 * w, q, w);
    ToBytesSlice(v, 2 * w, q, w);
  }

  /** What `Srl` leaves in its buffer: the shifted number, below whatever the upper half held. */
  lemma SrlBuffer(m: Mem, m1: Mem, m2: Mem, w: nat, tmp: int, v: int)
    requires m1 == PutBytes(m, tmp, ToBytes(0, w)) && m2 == PutBytes(m1, tmp, ToBytes(v, w))
    requires 0 <= v < Pow(256, w)
    ensures Bytes(m2, tmp, 2 * w) == ToBytes(v + Pow(256, w) * Num(m, tmp + w, w), 2 * w)
  {
    hide ToBytes, Bytes, PutBytes, Pow, Value;
    OtherBytes(m, tmp, ToBytes(0, w), tmp + w, w);
    OtherBytes(m1, tmp, ToBytes(v, w), tmp + w, w);
    StoredBytes(m1, tmp, ToBytes(v, w));
    BufferIs(m2, w, tmp, ToBytes(v, w), Bytes(m, tmp + w, w));
    var u, q := Num(m, tmp + w, w), Pow(256, w);
    DivModUnique(v + q * u, q, u, v);
    ToBytesConcat(v + q * u, w, w);
    ToBytesOfValue(Bytes(m, tmp + w, w));
    ToBytesMod(v, u, w);
  }

  lemma {:induction false} ToBytesMod(v: int, u: int, w: nat)
    ensures ToBytes(v + Pow(256, w) * u, w) == ToBytes(v, w)
    decreases w
  {
    if w != 0 {
      ToBytesMod(v / 256, u, w - 1);
      var x := Pow(256, w - 1) * u;
      assert Pow(256, w) * u == 256 * x by { MulAssoc(256, Pow(256, w - 1), u); }
      assert (v + 256 * x) % 256 == v % 256 && (v + 256 * x) / 256 == v / 256 + x;
    }
  }

  /** `Srl` on any buffer: the quotient, with bytes of the upper half above it. */
  lemma SrlComputes(m: Mem, w: nat, ret: int, inp: int, shf: int, tmp: int, tbl: int)
    requires 2 <= w < 128 && ShiftApart(w, ret, inp, shf, tmp)
    ensures AllLegal(SrlProgram(w, ret, inp, shf, tmp, tbl))
    ensures var shift := Get(m, shf);
            var q, d := Pow(256, shift / 8 % w), P2(shift % 8);
            q >= 1 && Bytes(PerformAll(SrlProgram(w, ret, inp, shf, tmp, tbl), m), ret, w) ==
                      ToBytes((Num(m, inp, w) / d + Pow(256, w) * Num(m, tmp + w, w)) / q, w)
  {
    hide ToBytes, Value, Bytes, PutBytes, Pow, PerformAll, Perform, Outcome, Get, P2, SelectValue;
    var a, b, c := Zero(w, tmp), Shift8(w, tmp, inp, shf, Srl), Pick(w, ret, tmp, shf, tbl, false);
    PerformThree(a, b, c, m);
    var m1 := Perform(a, m);
    var m2 := Perform(b, m1);
    var shift := Get(m, shf);
    PerformZero(m, w, tmp);
    PerformShift8(m1, w, tmp, inp, shf, Srl);
    PerformPick(m2, w, ret, tmp, shf, tbl, false);
    OtherBytes(m, tmp, ToBytes(0, w), inp, w);
    OtherByte(m, tmp, ToBytes(0, w), shf);
    var v := Num(m, inp, w) / P2(shift % 8);
    OtherByte(m1, tmp, ToBytes(v, w), shf);
    ValueBound(Bytes(m, inp, w));
    QuotientBound(Num(m, inp, w), P2(shift % 8));
    SrlBuffer(m, m1, m2, w, tmp, v);
    var q := shift / 8 % w;
    SelectRight(w, shift);
    RightPick(m2, w, tmp, v + Pow(256, w) * Num(m, tmp + w, w), q);
    StoredBytes(m2, ret, ToBytes(Value(Bytes(m2, tmp + q, w)), w));
    ToBytesOfValue(Bytes(m2, tmp + q, w));
  }

  lemma QuotientBound(v: int, d: int)
    requires v >= 0 && d >= 1
    ensures 0 <= v / d <= v
  {
    assert v == d * (v / d) + v % d;
    if v / d > v {
      MulMono(v / d, 1, d);
    }
  }

  /**
   `Srl` stores inp / 2^(shift mod 8w) exactly when the bytes that it shifts in from the upper half of
   its buffer are zero, as they are in the zero-initialized arena.
   */
  lemma SrlCorrectIff(m: Mem, w: nat, ret: int, inp: int, shf: int, tmp: int, tbl: int)
    requires 2 <= w < 128 && ShiftApart(w, ret, inp, shf, tmp)
    ensures AllLegal(SrlProgram(w, ret, inp, shf, tmp, tbl))
    ensures Num(PerformAll(SrlProgram(w, ret, inp, shf, tmp, tbl), m), ret, w) == Num(m, inp, w) / Pow(2, Get(m, shf) % (8 * w))
            <==> Num(m, tmp + w, w) % Pow(256, Get(m, shf) / 8 % w) == 0
  {
    hide ToBytes, Value, Bytes, Pow, PerformAll, Get, P2, SrlProgram;
    var shift := Get(m, shf);
    var x, u := Num(m, inp, w), Num(m, tmp + w, w);
    var k := shift / 8 % w;
    var q, d := Pow(256, k), P2(shift % 8);
    SrlComputes(m, w, ret, inp, shf, tmp, tbl);
    ShiftSplit(shift, w);
    ValueOfToBytes((x / d + Pow(256, w) * u) / q, w);
    ValueBound(Bytes(m, inp, w));
    QuotientBound(x, d);
    PowAdd(256, k, w - k);
    WindowValue(x / d, u, q, Pow(256, w - k));
    DivDiv(x, d, q);
    assert d * q == q * d;
  }

  /** A window at byte `k` of a number below 256^w with `u` on top. */
  lemma WindowValue(v: int, u: int, q: int, h: int)
    requires q >= 1 && h >= 1 && 0 <= v < q * h && u >= 0
    ensures q * h >= 1 && (v + (q * h) * u) / q % (q * h) == v / q + h * (u % q)
    ensures v / q + h * (u % q) == v / q <==> u % q == 0
  {
    MulGrows(q, h);
    WindowQuotient(v, u, q, h);
    var a, c, r := v / q, u / q, u % q;
    HighRest(u, q, h);
    BelowFactor(v, q, h);
    DivModUnique(a + h * u, q * h, c, a + h * r);
    if r > 0 {
      MulGrows(h, r);
    }
  }

  lemma WindowQuotient(v: int, u: int, q: int, h: int)
    requires q >= 1 && h >= 1 && 0 <= v < q * h && u >= 0
    ensures (v + (q * h) * u) / q == v / q + h * u
  {
    var a, b := v / q, v % q;
    assert v == q * a + b;
    MulAssoc(q, h, u);
    assert q * (a + h * u) == q * a + q * (h * u);
    DivModUnique(v + (q * h) * u, q, a + h * u, b);
  }

  lemma HighRest(u: int, q: int, h: int)
    requires q >= 1 && h >= 1 && u >= 0
    ensures h * u == (q * h) * (u / q) + h * (u % q)
    ensures 0 <= h * (u % q) <= q * h - h
  {
    var c, r := u / q, u % q;
    assert u == q * c + r;
    assert h * (q * c + r) == h * (q * c) + h * r;
    MulAssoc(h, q, c);
    MulMono(h, r, q - 1);
    assert h * (q - 1) == q * h - h;
  }

  lemma BelowFactor(v: int, q: int, h: int)
    requires q >= 1 && h >= 1 && 0 <= v < q * h
    ensures 0 <= v / q < h
  {
    var a := v / q;
    if a >= h {
      MulMono(q, h, a);
    }
  }

  /** What `Sra` leaves in its buffer: the shifted number, sign-extended to double width. */
  lemma SraBuffer(m: Mem, m1: Mem, m2: Mem, w: nat, tmp: int, v: int, sign: int)
    requires m1 == PutBytes(m, tmp + w, ToBytes(sign, w)) && m2 == PutBytes(m1, tmp, ToBytes(v, w))
    requires sign == v / Pow(256, w)
    ensures Bytes(m2, tmp, 2 * w) == ToBytes(v, 2 * w)
  {
    hide ToBytes, Bytes, PutBytes, Pow, Value;
    StoredBytes(m, tmp + w, ToBytes(sign, w));
    OtherBytes(m1, tmp, ToBytes(v, w), tmp + w, w);
    StoredBytes(m1, tmp, ToBytes(v, w));
    BufferIs(m2, w, tmp, ToBytes(v, w), ToBytes(sign, w));
    Doubled(v, w);
  }

  lemma Doubled(v: int, w: nat)
    ensures ToBytes(v, w) + ToBytes(v / Pow(256, w), w) == ToBytes(v, 2 * w)
  {
    hide ToBytes;
    ToBytesConcat(v, w, w);
    assert w + w == 2 * w;
  }

  lemma SignOfShifted(x: seq<byte>, d: int)
    requires x != [] && d >= 1
    ensures Pow(256, |x|) >= 1 && SignedValue(x) / d / Pow(256, |x|) == if x[|x| - 1] >= 0x80 then -1 else 0
  {
    hide SignedValue, Pow, Value;
    var v, q := SignedValue(x), Pow(256, |x|);
    SignedIsTwosComplement(x);
    SignedSign(x);
    if v >= 0 {
      QuotientBound(v, d);
      DivModUnique(v / d, q, 0, v / d);
    } else {
      NegativeQuotient(v, d);
      DivModUnique(v / d, q, -1, v / d + q);
    }
  }

  lemma NegativeQuotient(v: int, d: int)
    requires v < 0 && d >= 1
    ensures v <= v / d < 0
  {
    var y := v / d;
    assert v == d * y + v % d;
    assert d * v <= v by {
      MulMonoSigned(-v, 1, d);
      assert (-v) * d == -(d * v);
    }
    assert d * (v - 1) == d * v - d;
    if y < v {
      MulMonoSigned(d, y, v - 1);
    }
  }

  lemma MulMonoSigned(a: int, x: int, y: int)
    requires a >= 0 && x <= y
    ensures a * x <= a * y
  {
  }

  lemma {:induction false} SignedSign(x: seq<byte>)
    requires x != []
    ensures SignedValue(x) < 0 <==> x[|x| - 1] >= 0x80
  {
    if |x| > 1 {
      SignedSign(x[1..]);
    }
  }

  /** `Sra` stores the floor of the signed quotient by 2^(shift mod 8w), modulo 256^w. */
  lemma SraComputes(m: Mem, w: nat, ret: int, inp: int, shf: int, tmp: int, tbl: int)
    requires 2 <= w < 128 && ShiftApart(w, ret, inp, shf, tmp)
    ensures AllLegal(SraProgram(w, ret, inp, shf, tmp, tbl))
    ensures Bytes(PerformAll(SraProgram(w, ret, inp, shf, tmp, tbl), m), ret, w) ==
            ToBytes(SignedValue(Bytes(m, inp, w)) / Pow(2, Get(m, shf) % (8 * w)), w)
  {
    hide ToBytes, Value, Bytes, PutBytes, Pow, PerformAll, Perform, Outcome, Get, P2, SelectValue, SignedValue;
    var a, b, c := SignFill(w, tmp + w, inp), Shift8(w, tmp, inp, shf, Sra), Pick(w, ret, tmp, shf, tbl, false);
    PerformThree(a, b, c, m);
    var m1 := Perform(a, m);
    var m2 := Perform(b, m1);
    var shift := Get(m, shf);
    PerformSignFill(m, w, tmp + w, inp);
    PerformShift8(m1, w, tmp, inp, shf, Sra);
    PerformPick(m2, w, ret, tmp, shf, tbl, false);
    var x := Bytes(m, inp, w);
    var sign := if x[w - 1] >= 0x80 then -1 else 0;
    assert x[w - 1] == Get(m, inp + (w - 1));
    assert m1 == PutBytes(m, tmp + w, ToBytes(sign, w));
    OtherBytes(m, tmp + w, ToBytes(sign, w), inp, w);
    OtherByte(m, tmp + w, ToBytes(sign, w), shf);
    var v := SignedValue(x) / P2(shift % 8);
    OtherByte(m1, tmp, ToBytes(v, w), shf);
    SignOfShifted(x, P2(shift % 8));
    SraBuffer(m, m1, m2, w, tmp, v, sign);
    var q := shift / 8 % w;
    SelectRight(w, shift);
    RightPick(m2, w, tmp, v, q);
    StoredBytes(m2, ret, ToBytes(Value(Bytes(m2, tmp + q, w)), w));
    ToBytesOfValue(Bytes(m2, tmp + q, w));
    ShiftSplit(shift, w);
    DivDiv(SignedValue(x), P2(shift % 8), Pow(256, q));
    assert P2(shift % 8) * Pow(256, q) == Pow(256, q) * P2(shift % 8);
  }
}
