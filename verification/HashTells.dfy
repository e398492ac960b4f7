/** The hash tells memories apart: a change of one word, or of one byte, always changes it. */
module HashTells {
  import opened Memory
  import opened Shared
  import opened Numbers
  import opened HashKernel

  // ---------------------------------------------------------------------------------------------
  // Steps that lose nothing

  /** Multiplying by a number with an inverse can be undone. */
  lemma MulUndone(a: nat, p: nat, q: nat)
    requires a < WORD && p * q % WORD == 1
    ensures Mul(Mul(a, p), q) == a
  {
    var x := a * p;
    var k, r := x / WORD, x % WORD;
    var n := p * q / WORD;
    assert p * q == n * WORD + 1;
    assert r == x - k * WORD;
    assert r * q == x * q - k * WORD * q by { Spread(x, k, q); }
    assert x * q == a * (n * WORD + 1) by { Numbers.MulAssoc(a, p, q); }
    assert a * (n * WORD + 1) == a * n * WORD + a by { Regroup(a, n); }
    assert k * WORD * q == k * q * WORD by { Regroup2(k, q); }
    assert r * q == (a * n - k * q) * WORD + a;
    ModIs(r * q, a * n - k * q, a);
  }

  lemma Spread(x: int, k: int, q: int)
    ensures (x - k * WORD) * q == x * q - k * WORD * q
  {
  }

  lemma Regroup(a: int, n: int)
    ensures a * (n * WORD + 1) == a * n * WORD + a
  {
    Numbers.MulAssoc(a, n, WORD);
  }

  lemma Regroup2(k: int, q: int)
    ensures k * WORD * q == k * q * WORD
  {
    Numbers.MulAssoc(k, WORD, q);
    Numbers.MulAssoc(k, q, WORD);
  }

  lemma ModIs(x: int, j: int, a: nat)
    requires a < WORD && x == j * WORD + a
    ensures x % WORD == a
  {
  }

  lemma Inverses()
    ensures PRIME_1 * 244002641 % WORD == 1 && PRIME_2 * 3066638151 % WORD == 1 && PRIME_3 * 2828982549 % WORD == 1
    ensures PRIME_4 * 2701016015 % WORD == 1 && PRIME_5 * 2923004241 % WORD == 1
  {
  }

  predicate Prime(p: nat) {
    p == PRIME_1 || p == PRIME_2 || p == PRIME_3 || p == PRIME_4 || p == PRIME_5
  }

  lemma MulTells(a: nat, b: nat, p: nat)
    requires a < WORD && b < WORD && a != b && Prime(p)
    ensures Mul(a, p) != Mul(b, p)
  {
    Inverses();
    hide Mul;
    var q := if p == PRIME_1 then 244002641 else if p == PRIME_2 then 3066638151 else if p == PRIME_3 then 2828982549
             else if p == PRIME_4 then 2701016015 else 2923004241;
    MulUndone(a, p, q);
    MulUndone(b, p, q);
  }

  lemma AddTells(a: nat, b: nat, c: nat)
    requires a < WORD && b < WORD && a != b
    ensures Add(a, c) != Add(b, c) && Add(c, a) != Add(c, b)
  {
  }

  /** A rotation: the two factors make up the word. */
  predicate Turn(p: nat, q: nat) {
    p > 0 && q > 0 && p * q == WORD
  }

  lemma Turns()
    ensures Turn(2, 0x8000_0000) && Turn(0x80, 0x200_0000) && Turn(0x800, 0x20_0000) && Turn(0x1000, 0x10_0000)
    ensures Turn(0x2000, 0x8_0000) && Turn(0x2_0000, 0x8000)
  {
  }

  lemma RolParts(x: nat, p: nat, q: nat, a: nat, b: nat)
    requires Turn(p, q) && x == a * q + b && a < p && b < q
    ensures Rol(x, p, q) == b * p + a < WORD && Rol(x, p, q) / p == b && Rol(x, p, q) % p == a
  {
    assert x / q == a by { Swap(a, q); DivIs(x, q, a, b); }
    assert b * p + p <= WORD by { MulMono(p, b + 1, q); Swap(b, p); Swap(q, p); }
    assert x * p == a * WORD + b * p by { Times(a, q, b, p); }
    ModIs(x * p, a, b * p);
    var r := Rol(x, p, q);
    assert r == b * p + a;
    Swap(b, p);
    DivIs(r, p, b, a);
    RestIs(r, p, b, a);
  }

  lemma Swap(a: int, b: int)
    ensures a * b == b * a
  {
  }

  lemma Times(a: int, q: int, b: int, p: int)
    requires p * q == WORD
    ensures (a * q + b) * p == a * WORD + b * p
  {
    Numbers.MulAssoc(a, q, p);
  }

  lemma RestIs(x: int, d: int, q: int, r: int)
    requires d > 0 && x == d * q + r && 0 <= r < d && x / d == q
    ensures x % d == r
  {
  }

  lemma RolTells(x: nat, y: nat, p: nat, q: nat)
    requires x < WORD && y < WORD && x != y && Turn(p, q)
    ensures Rol(x, p, q) != Rol(y, p, q) && Rol(x, p, q) < WORD && Rol(y, p, q) < WORD
  {
    var a, b, c, d := x / q, x % q, y / q, y % q;
    Quotients(x, p, q);
    Quotients(y, p, q);
    RolParts(x, p, q, a, b);
    RolParts(y, p, q, c, d);
    hide Rol;
  }

  lemma Quotients(x: nat, p: nat, q: nat)
    requires x < WORD && Turn(p, q)
    ensures 0 <= x / q < p && 0 <= x % q < q && x == x / q * q + x % q
  {
    var a := x / q;
    if a >= p {
      MulMono(q, p, a);
      Swap(p, q);
      Swap(a, q);
    }
  }

  // ---------------------------------------------------------------------------------------------
  // One step of each loop

  /** `rol((s + w * p) , ..) * p'`: all four loops are made of such steps. */
  lemma MixTells(s: nat, s': nat, w: nat, w': nat, a: nat, p: nat, q: nat, b: nat)
    requires s < WORD && s' < WORD && w < WORD && w' < WORD && Prime(a) && Prime(b) && p > 0 && q > 0 && Turn(p, q)
    requires (s == s') != (w == w')
    ensures Rol(Add(s, Mul(w, a)), p, q) != Rol(Add(s', Mul(w', a)), p, q)
    ensures Mul(Rol(Add(s, Mul(w, a)), p, q), b) != Mul(Rol(Add(s', Mul(w', a)), p, q), b)
  {
    hide Mul, Add, Rol, Prime, Turn;
    if s == s' {
      MulTells(w, w', a);
      AddTells(Mul(w, a), Mul(w', a), s);
    } else {
      AddTells(s, s', Mul(w, a));
    }
    RolTells(Add(s, Mul(w, a)), Add(s', Mul(w', a)), p, q);
    MulTells(Rol(Add(s, Mul(w, a)), p, q), Rol(Add(s', Mul(w', a)), p, q), b);
  }

  /** From different words, or from different states, a lane comes to different states. */
  lemma StepTells(s: nat, s': nat, w: nat, w': nat)
    requires s < WORD && s' < WORD && w < WORD && w' < WORD && (s == s') != (w == w')
    ensures Mix(s, w) != Mix(s', w') && HashKernel.Step(s, w) != HashKernel.Step(s', w')
  {
    hide Mul, Add, Rol;
    Turns();
    MixTells(s, s', w, w', PRIME_2, 0x2000, 0x8_0000, PRIME_1);
  }

  lemma AddWordTells(s: nat, s': nat, w: nat, w': nat)
    requires s < WORD && s' < WORD && w < WORD && w' < WORD && (s == s') != (w == w')
    ensures AddWord(s, w) != AddWord(s', w')
  {
    hide Mul, Add, Rol;
    Turns();
    MixTells(s, s', w, w', PRIME_3, 0x2_0000, 0x8000, PRIME_4);
  }

  lemma AddByteTells(s: nat, s': nat, b: byte, b': byte)
    requires s < WORD && s' < WORD && (s == s') != (b == b')
    ensures AddByte(s, b) != AddByte(s', b')
  {
    hide Mul, Add, Rol;
    Turns();
    MixTells(s, s', b, b', PRIME_5, 0x800, 0x20_0000, PRIME_1);
  }

  // ---------------------------------------------------------------------------------------------
  // The final mixing

  /** The lowest bit, and the rest as the same of the rest. */
  lemma XorShiftUnfold(x: nat, k: nat)
    requires k > 0
    ensures XorShift(x, k) == Bit(XorOp, x % 2, x / 2 / Pow(2, k - 1) % 2) + 2 * XorShift(x / 2, k)
  {
    hide Bitwise, Pow, Bit;
    Halved(x, k);
    BitwiseUnfold(XorOp, x, x / Pow(2, k));
  }

  lemma {:induction false} XorShiftTells(x: nat, y: nat, k: nat)
    requires k > 0 && XorShift(x, k) == XorShift(y, k)
    ensures x == y
    decreases x + y
  {
    hide XorShift, Pow, Bit;
    if x != 0 || y != 0 {
      XorShiftUnfold(x, k);
      XorShiftUnfold(y, k);
      XorShiftTells(x / 2, y / 2, k);
      LowBitTells(x % 2, y % 2, x / 2 / Pow(2, k - 1) % 2);
    }
  }

  lemma Halved(x: nat, k: nat)
    requires k > 0
    ensures x / Pow(2, k) / 2 == x / 2 / Pow(2, k) && x / Pow(2, k) == x / 2 / Pow(2, k - 1)
  {
    hide Pow;
    assert Pow(2, k) == 2 * Pow(2, k - 1) && Pow(2, k + 1) == 2 * Pow(2, k) by { Doubles(k); }
    HalfFirst(x, Pow(2, k - 1));
    HalfFirst(x, Pow(2, k));
    HalfLast(x, Pow(2, k));
  }

  lemma Doubles(k: nat)
    requires k > 0
    ensures Pow(2, k) == 2 * Pow(2, k - 1) && Pow(2, k + 1) == 2 * Pow(2, k)
  {
  }

  lemma HalfLast(x: nat, d: nat)
    requires d > 0
    ensures x / d / 2 == x / (2 * d)
  {
    var q, r := x / d, x % d;
    Quotient(x, d);
    Numbers.MulAssoc(d, 2, q / 2);
    var rest := d * (q % 2) + r;
    assert q == 2 * (q / 2) + q % 2;
    Sum(d, 2 * (q / 2), q % 2);
    assert x == 2 * d * (q / 2) + rest;
    assert rest < 2 * d;
    DivIs(x, 2 * d, q / 2, rest);
  }

  lemma Quotient(x: nat, d: nat)
    requires d > 0
    ensures x == d * (x / d) + x % d && 0 <= x % d < d && x / d >= 0
  {
  }

  lemma Sum(d: int, a: int, b: int)
    ensures d * (a + b) == d * a + d * b
  {
  }

  lemma LowBitTells(a: nat, b: nat, c: nat)
    requires a < 2 && b < 2 && c < 2 && Bit(XorOp, a, c) == Bit(XorOp, b, c)
    ensures a == b
  {
  }

  lemma XorShiftSmall(x: nat, k: nat)
    requires x < WORD
    ensures XorShift(x, k) < WORD
  {
    hide Bitwise, Pow;
    assert Pow(2, 32) == WORD by { Pow32(); }
    Smaller(x, Pow(2, k));
    BitwiseSplit(XorOp, 32, 0, 0, x, x / Pow(2, k));
  }

  lemma Pow32()
    ensures Pow(2, 32) == WORD
  {
    assert Pow(2, 8) == 0x100;
    assert Pow(2, 16) == 0x1_0000;
    assert Pow(2, 24) == 0x100_0000;
  }

  lemma Smaller(x: nat, d: nat)
    requires d > 0
    ensures 0 <= x / d <= x
  {
    Quotient(x, d);
    MulMono(x / d, 1, d);
    Swap(x / d, d);
  }

  /** The final mixing loses nothing. */
  lemma AvalancheTells(x: nat, y: nat)
    requires x < WORD && y < WORD && x != y
    ensures Avalanche(x) != Avalanche(y)
  {
    hide XorShift, Mul;
    var a, b := XorShift(x, 15), XorShift(y, 15);
    XorShiftSmall(x, 15);
    XorShiftSmall(y, 15);
    if a == b { XorShiftTells(x, y, 15); }
    MulTells(a, b, PRIME_2);
    var c, d := Mul(a, PRIME_2), Mul(b, PRIME_2);
    XorShiftSmall(c, 13);
    XorShiftSmall(d, 13);
    if XorShift(c, 13) == XorShift(d, 13) { XorShiftTells(c, d, 13); }
    MulTells(XorShift(c, 13), XorShift(d, 13), PRIME_3);
    var e, f := Mul(XorShift(c, 13), PRIME_3), Mul(XorShift(d, 13), PRIME_3);
    if XorShift(e, 16) == XorShift(f, 16) { XorShiftTells(e, f, 16); }
  }

  // ---------------------------------------------------------------------------------------------
  // Lanes

  lemma {:induction false} LaneSmall(n: nat, s: nat, data: seq<nat>)
    requires s < WORD
    ensures Lane(n, s, data) < WORD
  {
    hide Mix;
    if data != [] {
      LaneSmall(n, s, data[..|data| - 1]);
    }
  }

  ghost predicate AllWords(data: seq<nat>) {
    forall i :: 0 <= i < |data| ==> data[i] < WORD
  }

  /** A change of one word changes the lane that takes the word, and no other. */
  lemma {:induction false} LaneTells(n: nat, s: nat, data: seq<nat>, i: nat, w: nat)
    requires s < WORD && AllWords(data) && i < |data| && w < WORD && w != data[i]
    ensures Lane(n, s, data) != Lane(n, s, data[i := w]) <==> i % 8 % 3 == n
    decreases |data|
  {
    hide Mix, Mul;
    var k := |data| - 1;
    var front, other := data[..k], data[i := w];
    LaneSmall(n, s, front);
    LaneSmall(n, s, other[..k]);
    if i < k {
      assert other[..k] == front[i := w] && other[k] == data[k];
      LaneTells(n, s, front, i, w);
      if i % 8 % 3 == n {
        StepTells(Lane(n, s, front), Lane(n, s, other[..k]), data[k], data[k]);
      }
    } else {
      assert other[..k] == front;
      StepTells(Lane(n, s, front), Lane(n, s, front), data[k], w);
    }
  }

  /** The lanes put together: a change of one of them shows. */
  lemma LanesTell(size: nat, s0: nat, s1: nat, s2: nat, t0: nat, t1: nat, t2: nat)
    requires s0 < WORD && s1 < WORD && s2 < WORD && t0 < WORD && t1 < WORD && t2 < WORD
    requires (s0 != t0 && s1 == t1 && s2 == t2) || (s0 == t0 && s1 != t1 && s2 == t2) || (s0 == t0 && s1 == t1 && s2 != t2)
    ensures Add(Add(Add(size, Rol(s0, 2, 0x8000_0000)), Rol(s1, 0x80, 0x200_0000)), Rol(s2, 0x1000, 0x10_0000))
         != Add(Add(Add(size, Rol(t0, 2, 0x8000_0000)), Rol(t1, 0x80, 0x200_0000)), Rol(t2, 0x1000, 0x10_0000))
  {
    hide Add, Rol, Turn;
    Turns();
    var a, a' := Rol(s0, 2, 0x8000_0000), Rol(t0, 2, 0x8000_0000);
    var b, b' := Rol(s1, 0x80, 0x200_0000), Rol(t1, 0x80, 0x200_0000);
    if s0 != t0 {
      RolTells(s0, t0, 2, 0x8000_0000);
      AddTells(a, a', size);
      AddTells(Add(size, a), Add(size, a'), b);
      AddTells(Add(Add(size, a), b), Add(Add(size, a'), b), Rol(s2, 0x1000, 0x10_0000));
    } else if s1 != t1 {
      RolTells(s1, t1, 0x80, 0x200_0000);
      AddTells(b, b', Add(size, a));
      AddTells(Add(Add(size, a), b), Add(Add(size, a), b'), Rol(s2, 0x1000, 0x10_0000));
    } else {
      RolTells(s2, t2, 0x1000, 0x10_0000);
      AddTells(Rol(s2, 0x1000, 0x10_0000), Rol(t2, 0x1000, 0x10_0000), Add(Add(size, a), b));
    }
  }

  // ---------------------------------------------------------------------------------------------
  // Regions

  ghost predicate AgreeOn(m: Mem, m': Mem, a: int, b: int) {
    forall x :: a <= x < b ==> Get(m', x) == Get(m, x)
  }

  lemma WordTells(m: Mem, m': Mem, a: int, x: int)
    requires a <= x < a + 4 && Get(m, x) != Get(m', x)
    ensures Word(m, a) != Word(m', a)
  {
    hide Get;
    if Word(m, a) == Word(m', a) {
      Digits4(Get(m, a), Get(m, a + 1), Get(m, a + 2), Get(m, a + 3), Get(m', a), Get(m', a + 1), Get(m', a + 2), Get(m', a + 3));
    }
  }

  lemma Digits4(a: byte, b: byte, c: byte, d: byte, a': byte, b': byte, c': byte, d': byte)
    requires a + 0x100 * b + 0x1_0000 * c + 0x100_0000 * d == a' + 0x100 * b' + 0x1_0000 * c' + 0x100_0000 * d'
    ensures a == a' && b == b' && c == c' && d == d'
  {
  }

  lemma SameWord(m: Mem, m': Mem, a: int)
    requires AgreeOn(m, m', a, a + 4)
    ensures Word(m, a) == Word(m', a)
  {
    hide Get;
  }

  /** Over the same words, folding tells states apart. */
  lemma {:induction false} WordsKeep(m: Mem, m': Mem, h: nat, h': nat, a: int, b: int)
    requires AgreeOn(m, m', a, b) && h < WORD && h' < WORD
    ensures FoldWords(m, h, a, b) < WORD && FoldWords(m', h', a, b) < WORD
    ensures FoldWords(m, h, a, b) == FoldWords(m', h', a, b) <==> h == h'
    decreases b - a
  {
    hide Get, Word, Rol, Add;
    if b - a >= 4 {
      WordsKeep(m, m', h, h', a, b - 4);
      SameWord(m, m', b - 4);
      var s, s' := FoldWords(m, h, a, b - 4), FoldWords(m', h', a, b - 4);
      if h != h' {
        AddWordTells(s, s', Word(m, b - 4), Word(m, b - 4));
      }
    }
  }

  lemma {:induction false} WordsTell(m: Mem, m': Mem, h: nat, a: int, b: int, u: int)
    requires h < WORD && a <= u && u + 4 <= b && (b - u) % 4 == 0
    requires AgreeOn(m, m', a, u) && AgreeOn(m, m', u + 4, b) && Word(m, u) != Word(m', u)
    ensures FoldWords(m, h, a, b) < WORD && FoldWords(m', h, a, b) < WORD && FoldWords(m, h, a, b) != FoldWords(m', h, a, b)
    decreases b - a
  {
    hide Get, Word, Rol, Add;
    if u == b - 4 {
      WordsKeep(m, m', h, h, a, u);
      AddWordTells(FoldWords(m, h, a, u), FoldWords(m, h, a, u), Word(m, u), Word(m', u));
    } else {
      WordsTell(m, m', h, a, b - 4, u);
      SameWord(m, m', b - 4);
      AddWordTells(FoldWords(m, h, a, b - 4), FoldWords(m', h, a, b - 4), Word(m, b - 4), Word(m, b - 4));
    }
  }

  lemma {:induction false} BytesKeep(m: Mem, m': Mem, h: nat, h': nat, a: int, b: int)
    requires AgreeOn(m, m', a, b) && h < WORD && h' < WORD
    ensures FoldBytes(m, h, a, b) < WORD && FoldBytes(m', h', a, b) < WORD
    ensures FoldBytes(m, h, a, b) == FoldBytes(m', h', a, b) <==> h == h'
    decreases b - a
  {
    hide Get, Rol, Add;
    if b > a {
      BytesKeep(m, m', h, h', a, b - 1);
      var s, s' := FoldBytes(m, h, a, b - 1), FoldBytes(m', h', a, b - 1);
      if h != h' {
        AddByteTells(s, s', Get(m, b - 1), Get(m, b - 1));
      }
    }
  }

  lemma {:induction false} BytesTell(m: Mem, m': Mem, h: nat, a: int, b: int, x: int)
    requires h < WORD && a <= x < b && AgreeOn(m, m', a, x) && AgreeOn(m, m', x + 1, b) && Get(m, x) != Get(m', x)
    ensures FoldBytes(m, h, a, b) < WORD && FoldBytes(m', h, a, b) < WORD && FoldBytes(m, h, a, b) != FoldBytes(m', h, a, b)
    decreases b - a
  {
    hide Get, Rol, Add;
    if x == b - 1 {
      BytesKeep(m, m', h, h, a, x);
      AddByteTells(FoldBytes(m, h, a, x), FoldBytes(m, h, a, x), Get(m, x), Get(m', x));
    } else {
      BytesTell(m, m', h, a, b - 1, x);
      AddByteTells(FoldBytes(m, h, a, b - 1), FoldBytes(m', h, a, b - 1), Get(m, b - 1), Get(m, b - 1));
    }
  }

  /** The blocks: a change of one of their words shows, and without any there is none. */
  lemma BlocksTell(m: Mem, m': Mem, a: int, b: int, size: nat, seed: nat, u: int)
    requires 0 <= a <= u && u + 4 <= b && (u - a) % 4 == 0 && (b - a) % 4 == 0 && seed < WORD
    requires AgreeOn(m, m', a, u) && AgreeOn(m, m', u + 4, b) && Word(m, u) != Word(m', u)
    ensures BlockHash(m, a, b, size, seed) < WORD && BlockHash(m', a, b, size, seed) < WORD
    ensures BlockHash(m, a, b, size, seed) != BlockHash(m', a, b, size, seed)
  {
    hide Get, Word, Rol, Lane;
    var n, i := (b - a) / 4, (u - a) / 4;
    var data, other := Words(m, a, n), Words(m', a, n);
    forall k | 0 <= k < n ensures other[k] == data[i := Word(m', u)][k] {
      if k != i {
        SameWord(m, m', a + 4 * k);
      }
    }
    assert other == data[i := Word(m', u)] && u == a + 4 * i;
    var s0, s1, s2 := Add(Add(seed, PRIME_1), PRIME_2), Add(seed, PRIME_2), seed;
    LaneTells(0, s0, data, i, Word(m', u));
    LaneTells(1, s1, data, i, Word(m', u));
    LaneTells(2, s2, data, i, Word(m', u));
    LaneSmall(0, s0, data);
    LaneSmall(1, s1, data);
    LaneSmall(2, s2, data);
    LaneSmall(0, s0, other);
    LaneSmall(1, s1, other);
    LaneSmall(2, s2, other);
    OneOfThree(i);
    LanesTell(size, Lane(0, s0, data), Lane(1, s1, data), Lane(2, s2, data), Lane(0, s0, other), Lane(1, s1, other), Lane(2, s2, other));
  }

  lemma OneOfThree(i: nat)
    ensures i % 8 % 3 == 0 || i % 8 % 3 == 1 || i % 8 % 3 == 2
  {
  }

  lemma BlocksKeep(m: Mem, m': Mem, a: int, b: int, size: nat, seed: nat)
    requires 0 <= a <= b && AgreeOn(m, m', a, b)
    ensures BlockHash(m, a, b, size, seed) == BlockHash(m', a, b, size, seed) < WORD
  {
    hide Get, Word, Rol, Lane;
    var n := (b - a) / 4;
    forall k | 0 <= k < n ensures Words(m, a, n)[k] == Words(m', a, n)[k] {
      SameWord(m, m', a + 4 * k);
    }
    assert Words(m, a, n) == Words(m', a, n);
  }

  /** The parts of a region in the order in which the hash takes them. */
  ghost predicate PartsOf(p: nat, size: nat, sw: int, sb: int, eb: int, ew: int) {
    && sw == Up(p, 4) && sb == Up(p, 32) && ew == Down(p + size, 4) && eb == Down(p + size, 32)
    && 0 <= p <= sw <= sb <= eb <= ew <= p + size
    && sw % 4 == 0 && sb % 4 == 0 && eb % 4 == 0 && ew % 4 == 0 && p + size < ew + 4 && sw < p + 4
  }

  lemma RegionParts(p: nat, size: nat)
    requires Touches32(p, size)
    ensures PartsOf(p, size, Up(p, 4), Up(p, 32), Down(p + size, 32), Down(p + size, 4))
  {
    hide Up, Down;
    Rounding(p, size);
    HashKernel.Ceiling(p, 4);
    HashKernel.Floor(p + size, 4);
    Fours(Up(p, 32));
    Fours(Down(p + size, 32));
  }

  lemma Fours(x: int)
    requires x % 32 == 0
    ensures x % 4 == 0
  {
  }

  /** The memories are the same but for `n` bytes at `u`. */
  ghost predicate DifferAt(m: Mem, m': Mem, p: nat, size: nat, u: int, n: nat) {
    && p <= u && u + n <= p + size && AgreeOn(m, m', p, u) && AgreeOn(m, m', u + n, p + size)
    && exists x :: u <= x < u + n && Get(m, x) != Get(m', x)
  }

  lemma Within(m: Mem, m': Mem, a: int, b: int, c: int, d: int)
    requires AgreeOn(m, m', a, b) && a <= c && d <= b
    ensures AgreeOn(m, m', c, d)
  {
    hide Get;
  }

  /** What is folded in behind the blocks. */
  ghost function Behind(m: Mem, h: nat, p: int, stop: int, sw: int, sb: int, eb: int, ew: int): nat {
    FoldWords(m, FoldBytes(m, FoldBytes(m, FoldWords(m, h, eb, ew), ew, stop), p, sw), sw, sb)
  }

  lemma BehindKeeps(m: Mem, m': Mem, h: nat, g: nat, p: int, stop: int, sw: int, sb: int, eb: int, ew: int)
    requires h < WORD && g < WORD && AgreeOn(m, m', eb, ew) && AgreeOn(m, m', ew, stop) && AgreeOn(m, m', p, sw) && AgreeOn(m, m', sw, sb)
    ensures Behind(m, h, p, stop, sw, sb, eb, ew) < WORD && Behind(m', g, p, stop, sw, sb, eb, ew) < WORD
    ensures Behind(m, h, p, stop, sw, sb, eb, ew) == Behind(m', g, p, stop, sw, sb, eb, ew) <==> h == g
  {
    hide AgreeOn, FoldWords, FoldBytes;
    WordsKeep(m, m', h, g, eb, ew);
    var h2, g2 := FoldWords(m, h, eb, ew), FoldWords(m', g, eb, ew);
    BytesKeep(m, m', h2, g2, ew, stop);
    BytesKeep(m, m', FoldBytes(m, h2, ew, stop), FoldBytes(m', g2, ew, stop), p, sw);
    WordsKeep(m, m', FoldBytes(m, FoldBytes(m, h2, ew, stop), p, sw), FoldBytes(m', FoldBytes(m', g2, ew, stop), p, sw), sw, sb);
  }

  lemma WordBehindTells(m: Mem, m': Mem, h: nat, p: int, stop: int, sw: int, sb: int, eb: int, ew: int, u: int)
    requires h < WORD && AgreeOn(m, m', ew, stop) && AgreeOn(m, m', p, sw) && AgreeOn(m, m', sw, sb)
    requires eb <= u && u + 4 <= ew && (ew - u) % 4 == 0 && AgreeOn(m, m', eb, u) && AgreeOn(m, m', u + 4, ew) && Word(m, u) != Word(m', u)
    ensures Behind(m, h, p, stop, sw, sb, eb, ew) < WORD && Behind(m', h, p, stop, sw, sb, eb, ew) < WORD
    ensures Behind(m, h, p, stop, sw, sb, eb, ew) != Behind(m', h, p, stop, sw, sb, eb, ew)
  {
    hide AgreeOn, FoldWords, FoldBytes, Word;
    WordsTell(m, m', h, eb, ew, u);
    var h2, g2 := FoldWords(m, h, eb, ew), FoldWords(m', h, eb, ew);
    BytesKeep(m, m', h2, g2, ew, stop);
    BytesKeep(m, m', FoldBytes(m, h2, ew, stop), FoldBytes(m', g2, ew, stop), p, sw);
    WordsKeep(m, m', FoldBytes(m, FoldBytes(m, h2, ew, stop), p, sw), FoldBytes(m', FoldBytes(m', g2, ew, stop), p, sw), sw, sb);
  }

  lemma WordBeforeTells(m: Mem, m': Mem, h: nat, p: int, stop: int, sw: int, sb: int, eb: int, ew: int, u: int)
    requires h < WORD && AgreeOn(m, m', eb, ew) && AgreeOn(m, m', ew, stop) && AgreeOn(m, m', p, sw)
    requires sw <= u && u + 4 <= sb && (sb - u) % 4 == 0 && AgreeOn(m, m', sw, u) && AgreeOn(m, m', u + 4, sb) && Word(m, u) != Word(m', u)
    ensures Behind(m, h, p, stop, sw, sb, eb, ew) < WORD && Behind(m', h, p, stop, sw, sb, eb, ew) < WORD
    ensures Behind(m, h, p, stop, sw, sb, eb, ew) != Behind(m', h, p, stop, sw, sb, eb, ew)
  {
    hide AgreeOn, FoldWords, FoldBytes, Word;
    WordsKeep(m, m', h, h, eb, ew);
    var h2 := FoldWords(m, h, eb, ew);
    BytesKeep(m, m', h2, h2, ew, stop);
    BytesKeep(m, m', FoldBytes(m, h2, ew, stop), FoldBytes(m, h2, ew, stop), p, sw);
    WordsTell(m, m', FoldBytes(m, FoldBytes(m, h2, ew, stop), p, sw), sw, sb, u);
  }

  lemma OneWordTells(m: Mem, m': Mem, p: nat, size: nat, seed: nat, u: int)
    requires seed < WORD && Touches32(p, size) && DifferAt(m, m', p, size, u, 4) && u % 4 == 0
    ensures HashOf(m, p, size, seed) < WORD && HashOf(m', p, size, seed) < WORD && HashOf(m, p, size, seed) != HashOf(m', p, size, seed)
  {
    hide Get, Up, Down, FoldWords, FoldBytes, BlockHash, AgreeOn, Word, Touches32;
    RegionParts(p, size);
    var stop := p + size;
    var sw, sb, ew, eb := Up(p, 4), Up(p, 32), Down(stop, 4), Down(stop, 32);
    var x :| u <= x < u + 4 && Get(m, x) != Get(m', x);
    WordTells(m, m', u, x);
    AlignedInside(u, sw, ew, p, stop);
    forall c, d | (p <= c && d <= u) || (u + 4 <= c && d <= stop) ensures AgreeOn(m, m', c, d) {
      if p <= c && d <= u { Within(m, m', p, u, c, d); } else { Within(m, m', u + 4, stop, c, d); }
    }
    if u < sb {
      Multiple(u, sb);
      BlocksKeep(m, m', sb, eb, size, seed);
      WordBeforeTells(m, m', BlockHash(m, sb, eb, size, seed), p, stop, sw, sb, eb, ew, u);
    } else if u < eb {
      Multiple(u, eb);
      BlocksTell(m, m', sb, eb, size, seed, u);
      BehindKeeps(m, m', BlockHash(m, sb, eb, size, seed), BlockHash(m', sb, eb, size, seed), p, stop, sw, sb, eb, ew);
    } else {
      BlocksKeep(m, m', sb, eb, size, seed);
      WordBehindTells(m, m', BlockHash(m, sb, eb, size, seed), p, stop, sw, sb, eb, ew, u);
    }
  }

  lemma AlignedInside(u: int, sw: int, ew: int, p: int, stop: int)
    requires u % 4 == 0 && sw % 4 == 0 && ew % 4 == 0 && p <= u && u + 4 <= stop && sw < p + 4 && stop < ew + 4
    ensures sw <= u && u + 4 <= ew
  {
  }

  lemma Multiple(u: int, b: int)
    requires u % 4 == 0 && b % 4 == 0 && u < b
    ensures u + 4 <= b
  {
  }

  /** A byte in front of the first whole word or behind the last one. */
  lemma LooseByteTells(m: Mem, m': Mem, p: nat, size: nat, seed: nat, x: int)
    requires seed < WORD && Touches32(p, size) && DifferAt(m, m', p, size, x, 1) && (x < Up(p, 4) || Down(p + size, 4) <= x)
    ensures HashOf(m, p, size, seed) < WORD && HashOf(m', p, size, seed) < WORD && HashOf(m, p, size, seed) != HashOf(m', p, size, seed)
  {
    hide Get, Up, Down, FoldWords, FoldBytes, BlockHash, AgreeOn;
    RegionParts(p, size);
    var stop := p + size;
    var sw, sb, ew, eb := Up(p, 4), Up(p, 32), Down(stop, 4), Down(stop, 32);
    forall c, d | (p <= c && d <= x) || (x + 1 <= c && d <= stop) ensures AgreeOn(m, m', c, d) {
      if p <= c && d <= x { Within(m, m', p, x, c, d); } else { Within(m, m', x + 1, stop, c, d); }
    }
    BlocksKeep(m, m', sb, eb, size, seed);
    var h1 := BlockHash(m, sb, eb, size, seed);
    WordsKeep(m, m', h1, h1, eb, ew);
    var h2 := FoldWords(m, h1, eb, ew);
    if ew <= x { BytesTell(m, m', h2, ew, stop, x); } else { BytesKeep(m, m', h2, h2, ew, stop); }
    var h3, g3 := FoldBytes(m, h2, ew, stop), FoldBytes(m', h2, ew, stop);
    if x < sw { BytesTell(m, m', h3, p, sw, x); } else { BytesKeep(m, m', h3, g3, p, sw); }
    WordsKeep(m, m', FoldBytes(m, h3, p, sw), FoldBytes(m', g3, p, sw), sw, sb);
  }

  /** Two memories that differ in one aligned word of the region, or in one byte of it, have different hashes. */
  lemma HashTellsApart(m: Mem, m': Mem, p: nat, size: nat, seed: nat, u: int, n: nat)
    requires seed < WORD && Touches32(p, size) && DifferAt(m, m', p, size, u, n) && (n == 1 || (n == 4 && u % 4 == 0))
    ensures Avalanche(HashOf(m, p, size, seed)) != Avalanche(HashOf(m', p, size, seed))
  {
    hide Avalanche, HashOf, Get, Up, Down;
    if n == 4 {
      OneWordTells(m, m', p, size, seed, u);
    } else if u < Up(p, 4) || Down(p + size, 4) <= u {
      LooseByteTells(m, m', p, size, seed, u);
    } else {
      RegionParts(p, size);
      ByteInWord(m, m', p, size, u, Up(p, 4), Down(p + size, 4));
      OneWordTells(m, m', p, size, seed, u / 4 * 4);
    }
    AvalancheTells(HashOf(m, p, size, seed), HashOf(m', p, size, seed));
  }

  lemma ByteInWord(m: Mem, m': Mem, p: nat, size: nat, u: int, sw: int, ew: int)
    requires DifferAt(m, m', p, size, u, 1) && p <= sw <= u < ew <= p + size && sw % 4 == 0 && ew % 4 == 0
    ensures DifferAt(m, m', p, size, u / 4 * 4, 4) && u / 4 * 4 % 4 == 0
  {
    hide Get;
    var v := u / 4 * 4;
    assert v <= u < v + 4 && v % 4 == 0 && sw <= v && v + 4 <= ew;
    assert v <= u < v + 4 && Get(m, u) != Get(m', u);
  }

  // ---------------------------------------------------------------------------------------------
  // A worked example: a region with bytes, words and one block

  const EXAMPLE: Mem := map[26 := 1, 28 := 2, 32 := 3, 36 := 4, 40 := 5, 64 := 6, 68 := 7]

  lemma MulIs(a: nat, p: nat, k: nat, r: nat)
    requires a * p == k * WORD + r && r < WORD
    ensures Mul(a, p) == r
  {
    ModIs(a * p, k, r);
  }

  lemma ExampleStep1()
    ensures HashKernel.Step(606290984, 3) == 3965858812
  {
    hide Mul, Rol;
    Turns();
    MulIs(3, PRIME_2, 1, 2445500261);
    assert Add(606290984, 2445500261) == 3051791245;
    RolParts(3051791245, 0x2000, 0x8_0000, 5820, 435085);
    MulIs(3564222140, PRIME_1, 2202810418, 3965858812);
  }

  lemma ExampleStep2()
    ensures HashKernel.Step(3965858812, 0) == 1355225548
  {
    hide Mul, Rol;
    Turns();
    MulIs(0, PRIME_2, 0, 0);
    assert Add(3965858812, 0) == 3965858812;
    RolParts(3965858812, 0x2000, 0x8_0000, 7564, 144380);
    MulIs(1182768524, PRIME_1, 730991146, 1355225548);
  }

  lemma ExampleStep3()
    ensures HashKernel.Step(1355225548, 0) == 3358970520
  {
    hide Mul, Rol;
    Turns();
    MulIs(0, PRIME_2, 0, 0);
    assert Add(1355225548, 0) == 1355225548;
    RolParts(1355225548, 0x2000, 0x8_0000, 2584, 465356);
    MulIs(3812198936, PRIME_1, 2356068506, 3358970520);
  }

  lemma ExampleStep4()
    ensures HashKernel.Step(PRIME_2, 4) == 601790915
  {
    hide Mul, Rol;
    Turns();
    MulIs(4, PRIME_2, 2, 397355484);
    assert Add(2246822519, 397355484) == 2644178003;
    RolParts(2644178003, 0x2000, 0x8_0000, 5043, 193619);
    MulIs(1586131891, PRIME_1, 980283416, 601790915);
  }

  lemma ExampleStep5()
    ensures HashKernel.Step(601790915, 0) == 837327883
  {
    hide Mul, Rol;
    Turns();
    MulIs(0, PRIME_2, 0, 0);
    assert Add(601790915, 0) == 601790915;
    RolParts(601790915, 0x2000, 0x8_0000, 1147, 432579);
    MulIs(3543688315, PRIME_1, 2190119817, 837327883);
  }

  lemma ExampleStep6()
    ensures HashKernel.Step(837327883, 0) == 1122338093
  {
    hide Mul, Rol;
    Turns();
    MulIs(0, PRIME_2, 0, 0);
    assert Add(837327883, 0) == 837327883;
    RolParts(837327883, 0x2000, 0x8_0000, 1597, 39947);
    MulIs(327247421, PRIME_1, 202250028, 1122338093);
  }

  lemma ExampleStep7()
    ensures HashKernel.Step(0, 5) == 601790915
  {
    hide Mul, Rol;
    Turns();
    MulIs(5, PRIME_2, 2, 2644178003);
    assert Add(0, 2644178003) == 2644178003;
    RolParts(2644178003, 0x2000, 0x8_0000, 5043, 193619);
    MulIs(1586131891, PRIME_1, 980283416, 601790915);
  }

  lemma ExampleBlocks()
    ensures Add(Add(Add(44, Rol(3358970520, 2, 0x8000_0000)), Rol(1122338093, 0x80, 0x200_0000)), Rol(837327883, 0x1000, 0x10_0000)) == 2364469020
  {
    hide Rol;
    Turns();
    RolParts(3358970520, 2, 0x8000_0000, 1, 1211486872);
    assert Add(44, 2422973745) == 2422973789;
    RolParts(1122338093, 0x80, 0x200_0000, 33, 15041837);
    assert Add(2422973789, 1925355169) == 53361662;
    RolParts(837327883, 0x1000, 0x10_0000, 798, 564235);
    assert Add(53361662, 2311107358) == 2364469020;
  }

  lemma ExampleFold1()
    ensures AddWord(2364469020, 6) == 3917847394
  {
    hide Mul, Rol;
    Turns();
    MulIs(6, PRIME_3, 4, 2419070318);
    assert Add(2364469020, 2419070318) == 488572042;
    RolParts(488572042, 0x2_0000, 0x8000, 14910, 1162);
    MulIs(152320574, PRIME_4, 23699958, 3917847394);
  }

  lemma ExampleFold2()
    ensures AddByte(3917847394, 7) == 2212586367
  {
    hide Mul, Rol;
    Turns();
    MulIs(7, PRIME_5, 0, 2623329751);
    assert Add(3917847394, 2623329751) == 2246209849;
    RolParts(2246209849, 0x800, 0x20_0000, 1071, 160057);
    MulIs(327797807, PRIME_1, 202590185, 2212586367);
  }

  lemma ExampleFold3()
    ensures AddByte(2212586367, 0) == 892139631
  {
    hide Mul, Rol;
    Turns();
    MulIs(0, PRIME_5, 0, 0);
    assert Add(2212586367, 0) == 2212586367;
    RolParts(2212586367, 0x800, 0x20_0000, 1055, 91007);
    MulIs(186383391, PRIME_1, 115191270, 892139631);
  }

  lemma ExampleFold4()
    ensures AddByte(892139631, 1) == 1871977884
  {
    hide Mul, Rol;
    Turns();
    MulIs(1, PRIME_5, 0, 374761393);
    assert Add(892139631, 374761393) == 1266901024;
    RolParts(1266901024, 0x800, 0x20_0000, 604, 221216);
    MulIs(453050972, PRIME_1, 280000898, 1871977884);
  }

  lemma ExampleFold5()
    ensures AddByte(1871977884, 0) == 2733827260
  {
    hide Mul, Rol;
    Turns();
    MulIs(0, PRIME_5, 0, 0);
    assert Add(1871977884, 0) == 1871977884;
    RolParts(1871977884, 0x800, 0x20_0000, 892, 1318300);
    MulIs(2699879292, PRIME_1, 1668617162, 2733827260);
  }

  lemma ExampleFold6()
    ensures AddWord(2733827260, 2) == 28598352
  {
    hide Mul, Rol;
    Turns();
    MulIs(2, PRIME_3, 1, 2238012538);
    assert Add(2733827260, 2238012538) == 676872502;
    RolParts(676872502, 0x2_0000, 0x8000, 20656, 16694);
    MulIs(2188136624, PRIME_4, 340457935, 28598352);
  }

  lemma ExampleLanes()
    ensures var data := [3, 4, 5, 0, 0, 0, 0, 0];
            && Lane(0, Add(Add(0, PRIME_1), PRIME_2), data) == 3358970520
            && Lane(1, Add(0, PRIME_2), data) == 1122338093 && Lane(2, 0, data) == 837327883
  {
    hide Lane, HashKernel.Step;
    var data := [3, 4, 5, 0, 0, 0, 0, 0];
    var s0, s1 := Add(Add(0, PRIME_1), PRIME_2), Add(0, PRIME_2);
    assert data[..8] == data;
    LaneBlock(s0, data, 0);
    LaneBlock(s1, data, 0);
    LaneBlock(0, data, 0);
    LaneStart(s0, s1, 0, data);
    ExampleStep1();
    ExampleStep2();
    ExampleStep3();
    ExampleStep4();
    ExampleStep5();
    ExampleStep6();
    ExampleStep7();
  }

  lemma ExampleBytes()
    ensures forall x :: Get(EXAMPLE, x) == if x == 26 then 1 else if x == 28 then 2 else if x == 32 then 3 else if x == 36 then 4
                                           else if x == 40 then 5 else if x == 64 then 6 else if x == 68 then 7 else 0
  {
  }

  lemma ExampleWord(a: int)
    requires a % 4 == 0 && a > 24
    ensures Word(EXAMPLE, a) == Get(EXAMPLE, a)
  {
    hide Get;
    ExampleBytes();
    assert (a + 1) % 4 == 1 && (a + 2) % 4 == 2 && (a + 3) % 4 == 3;
    assert Get(EXAMPLE, a + 1) == 0 && Get(EXAMPLE, a + 2) == 0 && Get(EXAMPLE, a + 3) == 0;
  }

  lemma ExampleWords()
    ensures Words(EXAMPLE, 32, 8) == [3, 4, 5, 0, 0, 0, 0, 0] && Word(EXAMPLE, 64) == 6 && Word(EXAMPLE, 28) == 2
  {
    ExampleBytes();
    hide Get, Word;
    ExampleWord(64);
    ExampleWord(28);
    forall k | 0 <= k < 8 ensures Words(EXAMPLE, 32, 8)[k] == [3, 4, 5, 0, 0, 0, 0, 0][k] {
      ExampleWord(32 + 4 * k);
    }
  }

  lemma ExampleHash()
    ensures HashOf(EXAMPLE, 26, 44, 0) == 28598352
  {
    hide Lane, Rol, AddWord, AddByte, Words, Word;
    ExampleWords();
    ExampleLanes();
    ExampleBlocks();
    ExampleFold1();
    ExampleFold2();
    ExampleFold3();
    ExampleFold4();
    ExampleFold5();
    ExampleFold6();
    assert Up(26, 4) == 28 && Up(26, 32) == 32 && Down(70, 4) == 68 && Down(70, 32) == 64;
    assert BlockHash(EXAMPLE, 32, 64, 44, 0) == 2364469020;
    assert FoldWords(EXAMPLE, 2364469020, 64, 68) == 3917847394;
    assert FoldBytes(EXAMPLE, 3917847394, 68, 69) == 2212586367;
    assert FoldBytes(EXAMPLE, 3917847394, 68, 70) == 892139631;
    assert FoldBytes(EXAMPLE, 892139631, 26, 27) == 1871977884;
    assert FoldBytes(EXAMPLE, 892139631, 26, 28) == 2733827260;
    assert FoldWords(EXAMPLE, 2733827260, 28, 32) == 28598352;
  }

  /** `z` is `x` exclusive or `y`, as the operator of C has it. */
  lemma XorByte(x: byte, y: byte, z: byte)
    requires OnBytes(XorOp, x as bv8, y as bv8) == z as bv8
    ensures Bitwise(XorOp, x, y) == z
  {
    hide Bitwise, OnBytes;
    ByteBack(x);
    ByteBack(y);
    ByteBack(z);
    OnBytesIs(XorOp, x as bv8, y as bv8);
  }

  lemma XorJoin(a: nat, b: nat, i: byte, j: byte)
    ensures Bitwise(XorOp, 256 * a + i, 256 * b + j) == 256 * Bitwise(XorOp, a, b) + Bitwise(XorOp, i, j)
  {
    hide Bitwise;
    PowTwo8();
    BitwiseSplit(XorOp, 8, a, b, i, j);
  }

  lemma ExampleXor1()
    ensures Bitwise(XorOp, 28598352, 872) == 28599096
  {
    hide Bitwise;
    XorByte(80, 104, 56);
    XorByte(96, 3, 99);
    XorByte(180, 0, 180);
    XorByte(1, 0, 1);
    XorJoin(1, 0, 180, 0);
    XorJoin(436, 0, 96, 3);
    XorJoin(111712, 3, 80, 104);
  }

  lemma ExampleXor2()
    ensures Bitwise(XorOp, 1301040904, 158818) == 1301160810
  {
    hide Bitwise;
    XorByte(8, 98, 106);
    XorByte(79, 108, 35);
    XorByte(140, 2, 142);
    XorByte(77, 0, 77);
    XorJoin(77, 0, 140, 2);
    XorJoin(19852, 2, 79, 108);
    XorJoin(5082191, 620, 8, 98);
  }

  lemma ExampleXor3()
    ensures Bitwise(XorOp, 178551874, 2724) == 178550502
  {
    hide Bitwise;
    XorByte(66, 164, 230);
    XorByte(124, 10, 118);
    XorByte(164, 0, 164);
    XorByte(10, 0, 10);
    XorJoin(10, 0, 164, 0);
    XorJoin(2724, 0, 124, 10);
    XorJoin(697468, 10, 66, 164);
  }

  lemma ExampleMixing()
    ensures Avalanche(28598352) == 178550502
  {
    hide Mul, Bitwise;
    assert Pow(2, 15) == 0x8000 && Pow(2, 13) == 0x2000 && Pow(2, 16) == 0x1_0000;
    ExampleXor1();
    MulIs(28599096, PRIME_2, 14961020, 1301040904);
    ExampleXor2();
    MulIs(1301160810, PRIME_3, 989583476, 178551874);
    ExampleXor3();
  }

  /** The hash of 44 bytes at 26 that hold 1, 0, 2, 0, .., the block 3, 4, 5, 0, .., and behind it 6, 7 and 0. */
  lemma WorkedExample()
    ensures Avalanche(HashOf(EXAMPLE, 26, 44, 0)) == 178550502
  {
    hide HashOf, Avalanche;
    ExampleHash();
    ExampleMixing();
  }
}
