/** The memory hash: a software-pipelined lane loop, and five loops that share out a region. */
module HashKernel {
  import opened Memory
  import Numbers

  const WORD := 0x1_0000_0000
  const PRIME_1 := 2654435761
  const PRIME_2 := 2246822519
  const PRIME_3 := 3266489917
  const PRIME_4 := 668265263
  const PRIME_5 := 374761393

  // ---------------------------------------------------------------------------------------------
  // 32-bit arithmetic

  function Add(a: nat, b: nat): (r: nat)
    ensures r < WORD
  {
    (a + b) % WORD
  }

  function Mul(a: nat, b: nat): (r: nat)
    ensures r < WORD
  {
    a * b % WORD
  }

  /** `x` rotated left by the exponent of `p`; `q` is the rest of the word. */
  function Rol(x: nat, p: nat, q: nat): nat
    requires p > 0 && q > 0
  {
    x * p % WORD + x / q
  }

  function Ror(x: nat, p: nat, q: nat): nat
    requires p > 0 && q > 0
  {
    x / q + x % q * p
  }

  /** The processor rotates right by 19 where the C code rotates left by 13. */
  lemma RotationsAgree(x: nat)
    requires x < WORD
    ensures Ror(x, 0x2000, 0x8_0000) == Rol(x, 0x2000, 0x8_0000)
  {
    var a, b := x / 0x8_0000, x % 0x8_0000;
    assert x * 0x2000 == a * WORD + b * 0x2000;
    assert x * 0x2000 % WORD == b * 0x2000;
  }

  /** The two halves of an accumulation step. */
  function Mix(s: nat, w: nat): nat {
    Rol(Add(s, Mul(w, PRIME_2)), 0x2000, 0x8_0000)
  }

  function Step(s: nat, w: nat): nat {
    Mul(Mix(s, w), PRIME_1)
  }

  // ---------------------------------------------------------------------------------------------
  // Lanes

  /** Lane `n` takes every word whose place in its block of eight leaves `n` when divided by three. */
  function Lane(n: nat, s: nat, data: seq<nat>): nat {
    if data == [] then s else
      var i := |data| - 1;
      var before := Lane(n, s, data[..i]);
      if i % 8 % 3 == n then Step(before, data[i]) else before
  }

  lemma LaneNext(n: nat, s: nat, data: seq<nat>, i: nat)
    requires i < |data|
    ensures Lane(n, s, data[..i + 1]) == if i % 8 % 3 == n then Step(Lane(n, s, data[..i]), data[i]) else Lane(n, s, data[..i])
  {
    assert data[..i + 1][..i] == data[..i];
  }

  /** A block gives three words to the lanes 0 and 1 and two to lane 2. */
  lemma LaneBlock(s: nat, data: seq<nat>, i: nat)
    requires i % 8 == 0 && i + 8 <= |data|
    ensures Lane(0, s, data[..i + 8]) == Step(Step(Step(Lane(0, s, data[..i]), data[i]), data[i + 3]), data[i + 6])
    ensures Lane(1, s, data[..i + 8]) == Step(Step(Step(Lane(1, s, data[..i]), data[i + 1]), data[i + 4]), data[i + 7])
    ensures Lane(2, s, data[..i + 8]) == Step(Step(Lane(2, s, data[..i]), data[i + 2]), data[i + 5])
  {
    hide Lane, Step;
    LaneEight(0, s, data, i);
    LaneEight(1, s, data, i);
    LaneEight(2, s, data, i);
  }

  lemma LaneEight(n: nat, s: nat, data: seq<nat>, i: nat)
    requires n < 3 && i % 8 == 0 && i + 8 <= |data|
    ensures Lane(n, s, data[..i + 8]) == Eight(n, s, data, i)
  {
    hide Lane, Step;
    LaneAt(n, s, data, i, 0);
    LaneAt(n, s, data, i, 1);
    LaneAt(n, s, data, i, 2);
    LaneAt(n, s, data, i, 3);
    LaneAt(n, s, data, i, 4);
    LaneAt(n, s, data, i, 5);
    LaneAt(n, s, data, i, 6);
    LaneAt(n, s, data, i, 7);
  }

  lemma LaneAt(n: nat, s: nat, data: seq<nat>, i: nat, k: nat)
    requires i % 8 == 0 && k < 8 && i + k < |data|
    ensures Lane(n, s, data[..i + k + 1]) == if k % 3 == n then Step(Lane(n, s, data[..i + k]), data[i + k]) else Lane(n, s, data[..i + k])
  {
    hide Lane, Step;
    LaneNext(n, s, data, i + k);
    assert (i + k) % 8 == k;
  }

  function Eight(n: nat, s: nat, data: seq<nat>, i: nat): nat
    requires n < 3 && i + 8 <= |data|
  {
    var b := Lane(n, s, data[..i]);
    if n == 0 then Step(Step(Step(b, data[i]), data[i + 3]), data[i + 6])
    else if n == 1 then Step(Step(Step(b, data[i + 1]), data[i + 4]), data[i + 7])
    else Step(Step(b, data[i + 2]), data[i + 5])
  }

  /** The C loop. */
  method PlainLanes(s0: nat, s1: nat, s2: nat, data: seq<nat>) returns (r0: nat, r1: nat, r2: nat)
    requires |data| % 8 == 0
    ensures r0 == Lane(0, s0, data) && r1 == Lane(1, s1, data) && r2 == Lane(2, s2, data)
  {
    hide Step, Lane;
    LaneStart(s0, s1, s2, data);
    r0, r1, r2 := s0, s1, s2;
    var i := 0;
    while i < |data|
      invariant i <= |data| && i % 8 == 0
      invariant r0 == Lane(0, s0, data[..i]) && r1 == Lane(1, s1, data[..i]) && r2 == Lane(2, s2, data[..i])
    {
      LaneBlock(s0, data, i);
      LaneBlock(s1, data, i);
      LaneBlock(s2, data, i);
      r0 := Step(r0, data[i]);
      r1 := Step(r1, data[i + 1]);
      r2 := Step(r2, data[i + 2]);
      r0 := Step(r0, data[i + 3]);
      r1 := Step(r1, data[i + 4]);
      r2 := Step(r2, data[i + 5]);
      r0 := Step(r0, data[i + 6]);
      r1 := Step(r1, data[i + 7]);
      i := i + 8;
    }
    assert data[..i] == data;
  }

  /** `mla` and `ror #19`, as the assembly has them. */
  method Mla(s: nat, w: nat) returns (r: nat)
    ensures r == Mix(s, w)
  {
    var t := Add(s, Mul(w, PRIME_2));
    RotationsAgree(t);
    r := Ror(t, 0x2000, 0x8_0000);
  }

  /**
   * The assembly loop: the first block is peeled off, the last multiplication of each lane is put off to
   * the next round, and a pointer comparison ends the loop.
   */
  method PipelinedLanes(s0: nat, s1: nat, s2: nat, data: seq<nat>) returns (r0: nat, r1: nat, r2: nat)
    requires |data| % 8 == 0 && |data| >= 16
    ensures r0 == Lane(0, s0, data) && r1 == Lane(1, s1, data) && r2 == Lane(2, s2, data)
  {
    hide Mix, Mul, Lane;
    LaneStart(s0, s1, s2, data);
    r0 := Mla(s0, data[0]);
    r1 := Mla(s1, data[1]);
    r2 := Mla(s2, data[2]);
    r0, r1, r2 := Mul(r0, PRIME_1), Mul(r1, PRIME_1), Mul(r2, PRIME_1);
    r0 := Mla(r0, data[3]);
    r1 := Mla(r1, data[4]);
    r2 := Mla(r2, data[5]);
    r0, r1 := Mul(r0, PRIME_1), Mul(r1, PRIME_1);
    r0 := Mla(r0, data[6]);
    r1 := Mla(r1, data[7]);
    var i := 8;
    LaneBlock(s0, data, 0);
    LaneBlock(s1, data, 0);
    LaneBlock(s2, data, 0);
    while i != |data|
      invariant 8 <= i <= |data| && i % 8 == 0
      invariant Lane(0, s0, data[..i]) == Mul(r0, PRIME_1)
      invariant Lane(1, s1, data[..i]) == Mul(r1, PRIME_1)
      invariant Lane(2, s2, data[..i]) == Mul(r2, PRIME_1)
      decreases |data| - i
    {
      LaneBlock(s0, data, i);
      LaneBlock(s1, data, i);
      LaneBlock(s2, data, i);
      r0, r1, r2 := PipelinedRound(r0, r1, r2, data, i);
      i := i + 8;
    }
    assert data[..i] == data;
    r0, r1, r2 := Mul(r0, PRIME_1), Mul(r1, PRIME_1), Mul(r2, PRIME_1);
  }

  /** One round between the labels. */
  method PipelinedRound(s0: nat, s1: nat, s2: nat, data: seq<nat>, i: nat) returns (r0: nat, r1: nat, r2: nat)
    requires i + 8 <= |data|
    ensures Mul(r0, PRIME_1) == Step(Step(Step(Mul(s0, PRIME_1), data[i]), data[i + 3]), data[i + 6])
    ensures Mul(r1, PRIME_1) == Step(Step(Step(Mul(s1, PRIME_1), data[i + 1]), data[i + 4]), data[i + 7])
    ensures Mul(r2, PRIME_1) == Step(Step(Mul(s2, PRIME_1), data[i + 2]), data[i + 5])
  {
    hide Mix, Mul;
    r0, r1, r2 := Mul(s0, PRIME_1), Mul(s1, PRIME_1), Mul(s2, PRIME_1);
    r0 := Mla(r0, data[i]);
    r1 := Mla(r1, data[i + 1]);
    r2 := Mla(r2, data[i + 2]);
    r0, r1, r2 := Mul(r0, PRIME_1), Mul(r1, PRIME_1), Mul(r2, PRIME_1);
    r0 := Mla(r0, data[i + 3]);
    r1 := Mla(r1, data[i + 4]);
    r2 := Mla(r2, data[i + 5]);
    r0, r1 := Mul(r0, PRIME_1), Mul(r1, PRIME_1);
    r0 := Mla(r0, data[i + 6]);
    r1 := Mla(r1, data[i + 7]);
  }

  lemma LaneStart(s0: nat, s1: nat, s2: nat, data: seq<nat>)
    ensures Lane(0, s0, data[..0]) == s0 && Lane(1, s1, data[..0]) == s1 && Lane(2, s2, data[..0]) == s2
  {
  }

  // ---------------------------------------------------------------------------------------------
  // A whole region

  /** The addresses from `a` up to, but not including, `b`. */
  function Addresses(a: int, b: int): (s: seq<int>)
    ensures |s| == (if a <= b then b - a else 0) && forall i :: 0 <= i < |s| ==> s[i] == a + i
  {
    seq(if a <= b then b - a else 0, i => a + i)
  }

  lemma AddressesJoin(a: int, b: int, c: int)
    requires a <= b <= c
    ensures multiset(Addresses(a, b)) + multiset(Addresses(b, c)) == multiset(Addresses(a, c))
  {
    assert Addresses(a, b) + Addresses(b, c) == Addresses(a, c);
  }

  lemma NoAddresses(a: int, b: int)
    requires b <= a
    ensures multiset(Addresses(a, b)) == multiset{}
  {
    assert Addresses(a, b) == [];
  }

  function Words(m: Mem, a: int, n: nat): (s: seq<nat>)
    ensures |s| == n && forall i :: 0 <= i < n ==> s[i] == Word(m, a + 4 * i)
  {
    seq<nat>(n, i => Word(m, a + 4 * i))
  }

  function AddWord(h: nat, w: nat): nat {
    Mul(Rol(Add(h, Mul(w, PRIME_3)), 0x2_0000, 0x8000), PRIME_4)
  }

  function AddByte(h: nat, b: byte): nat {
    Mul(Rol(Add(h, Mul(b, PRIME_5)), 0x800, 0x20_0000), PRIME_1)
  }

  /** The words, and the bytes, of `[a, b)` folded into `h`. */
  function FoldWords(m: Mem, h: nat, a: int, b: int): nat
    decreases b - a
  {
    if b - a < 4 then h else AddWord(FoldWords(m, h, a, b - 4), Word(m, b - 4))
  }

  function FoldBytes(m: Mem, h: nat, a: int, b: int): nat
    decreases b - a
  {
    if b <= a then h else AddByte(FoldBytes(m, h, a, b - 1), Get(m, b - 1))
  }

  function Up(a: nat, n: nat): nat
    requires n > 0
  {
    (a + n - 1) / n * n
  }

  function Down(a: nat, n: nat): nat
    requires n > 0
  {
    a / n * n
  }

  /** The region holds a multiple of 32, its end included. */
  predicate Touches32(p: nat, size: nat) {
    p <= Down(p + size, 32)
  }

  /** Said without arithmetic: a multiple of 32 lies in the region or right behind it. */
  lemma Touching(p: nat, size: nat)
    ensures Touches32(p, size) <==> exists a: nat :: p <= a <= p + size && a % 32 == 0
  {
    var d := Down(p + size, 32);
    assert d % 32 == 0 && d <= p + size < d + 32;
    if a: nat :| p <= a <= p + size && a % 32 == 0 {
      assert a <= d;
    }
  }

  /** The lanes over the blocks of `[a, b)`, combined with the size. */
  function BlockHash(m: Mem, a: nat, b: nat, size: nat, seed: nat): nat {
    var data := Words(m, a, if a <= b then (b - a) / 4 else 0);
    var s0 := Lane(0, Add(Add(seed, PRIME_1), PRIME_2), data);
    var s1 := Lane(1, Add(seed, PRIME_2), data);
    var s2 := Lane(2, seed, data);
    Add(Add(Add(size, Rol(s0, 2, 0x8000_0000)), Rol(s1, 0x80, 0x200_0000)), Rol(s2, 0x1000, 0x10_0000))
  }

  /** A word with itself, shifted right, laid over it. */
  function XorShift(h: nat, k: nat): nat {
    Numbers.Bitwise(Numbers.XorOp, h, h / Numbers.Pow(2, k))
  }

  /** The final mixing. */
  function Avalanche(h: nat): nat {
    XorShift(Mul(XorShift(Mul(XorShift(h, 15), PRIME_2), 13), PRIME_3), 16)
  }

  /** The hash before its final mixing: blocks, the words and bytes behind them, the bytes and words before them. */
  function HashOf(m: Mem, p: nat, size: nat, seed: nat): nat {
    var stop := p + size;
    var sw, sb, ew, eb := Up(p, 4), Up(p, 32), Down(stop, 4), Down(stop, 32);
    FoldWords(m, FoldBytes(m, FoldBytes(m, FoldWords(m, BlockHash(m, sb, eb, size, seed), eb, ew), ew, stop), p, sw), sw, sb)
  }

  /** A loop over words. */
  method WordLoop(m: Mem, h0: nat, from: nat, to: nat) returns (h: nat, next: nat, ghost seen: multiset<int>)
    requires to <= from || (to - from) % 4 == 0
    ensures h == FoldWords(m, h0, from, to) && next == (if from < to then to else from) && seen == multiset(Addresses(from, to))
  {
    hide AddWord, Word;
    h, next := h0, from;
    seen := multiset{};
    NoAddresses(from, from);
    while next < to
      invariant from <= next && (next <= to || next == from) && (to <= from || (to - next) % 4 == 0)
      invariant h == FoldWords(m, h0, from, next) && seen == multiset(Addresses(from, next))
    {
      h := AddWord(h, Word(m, next));
      AddressesJoin(from, next, next + 4);
      seen := seen + multiset(Addresses(next, next + 4));
      next := next + 4;
    }
    if to <= from {
      NoAddresses(from, to);
    }
  }

  /** A loop over bytes. */
  method ByteLoop(m: Mem, h0: nat, from: nat, to: nat) returns (h: nat, next: nat, ghost seen: multiset<int>)
    ensures h == FoldBytes(m, h0, from, to) && next == (if from < to then to else from) && seen == multiset(Addresses(from, to))
  {
    hide AddByte, Get;
    h, next := h0, from;
    seen := multiset{};
    NoAddresses(from, from);
    while next < to
      invariant from <= next && (next <= to || next == from)
      invariant h == FoldBytes(m, h0, from, next) && seen == multiset(Addresses(from, next))
    {
      h := AddByte(h, Get(m, next));
      AddressesJoin(from, next, next + 1);
      seen := seen + multiset(Addresses(next, next + 1));
      next := next + 1;
    }
    if to <= from {
      NoAddresses(from, to);
    }
  }

  function Least(a: nat, b: nat): nat {
    if a < b then a else b
  }

  lemma Rounding(p: nat, size: nat)
    ensures var stop := p + size;
            && Down(stop, 32) <= Down(stop, 4) <= stop && Down(stop, 32) % 32 == 0 && Down(stop, 4) % 4 == 0
            && (Touches32(p, size) ==> p <= Up(p, 4) <= Up(p, 32) <= Down(stop, 32) && (Up(p, 32) - Up(p, 4)) % 4 == 0)
            && (!Touches32(p, size) ==> Down(stop, 32) < p && Down(stop, 32) < Up(p, 32))
            && Up(p, 32) % 32 == 0
  {
    var stop := p + size;
    Floor(stop, 4);
    Floor(stop, 32);
    Ceiling(p, 4);
    Ceiling(p, 32);
    Multiples(Down(stop, 32), Down(stop, 4), stop);
    if Touches32(p, size) {
      MultiplesUp(p, Up(p, 4), Up(p, 32), Down(stop, 32));
    }
  }

  lemma Floor(a: nat, n: nat)
    requires n == 4 || n == 32
    ensures Down(a, n) % n == 0 && Down(a, n) <= a < Down(a, n) + n
  {
  }

  lemma Ceiling(a: nat, n: nat)
    requires n == 4 || n == 32
    ensures Up(a, n) % n == 0 && a <= Up(a, n) < a + n
  {
    Floor(a + n - 1, n);
  }

  lemma Multiples(b: nat, w: nat, stop: nat)
    requires b % 32 == 0 && w % 4 == 0 && b <= stop && w <= stop < w + 4
    ensures b <= w
  {
    assert b % 4 == 0;
  }

  lemma MultiplesUp(p: nat, w: nat, b: nat, d: nat)
    requires w % 4 == 0 && b % 32 == 0 && d % 32 == 0 && p <= w < p + 4 && p <= b < p + 32 && p <= d
    ensures w <= b <= d && (b - w) % 4 == 0
  {
    assert b % 4 == 0;
  }

  /**
   * `hash_memory`.  It reads every byte of the region exactly once, and nothing else,
   * exactly when the region holds a multiple of 32; and then both versions of the lane loop give one hash.
   */
  method HashMemory(m: Mem, p: nat, size: nat, seed: nat, pipelined: bool) returns (h: nat, ghost seen: multiset<int>)
    ensures seen == multiset(Addresses(p, p + size)) <==> Touches32(p, size)
    ensures Touches32(p, size) ==> h == Avalanche(HashOf(m, p, size, seed))
  {
    hide FoldWords, FoldBytes, BlockHash, Up, Down, Addresses, Least, FiveLoops, XorShift, Mul;
    var stop := p + size;
    Starts(p, size);
    var stopWord, stopBlock := Down(stop, 4), Down(stop, 32);
    var startWord, startBlock := Least(stopWord, Up(p, 4)), Least(stopBlock, Up(p, 32));
    h := BlockLoop(m, startBlock, stopBlock, size, seed, pipelined);
    ghost var r0 := multiset(Addresses(startBlock, stopBlock));
    var data;
    ghost var r1, r2, r3, r4;
    h, data, r1 := WordLoop(m, h, stopBlock, stopWord);
    h, data, r2 := ByteLoop(m, h, data, stop);
    h, data, r3 := ByteLoop(m, h, p, startWord);
    ghost var words := data;
    h, data, r4 := WordLoop(m, h, data, startBlock);
    h := XorShift(h, 15);
    h := Mul(h, PRIME_2);
    h := XorShift(h, 13);
    h := Mul(h, PRIME_3);
    h := XorShift(h, 16);
    seen := r0 + r1 + r2 + r3 + r4;
    FiveIs(p, stop, stopBlock, stopWord, startWord, startBlock, words);
    Shares(p, size, stopBlock, stopWord, startWord, startBlock);
  }

  /** Where the loops begin and end, by whether the region holds a multiple of 32. */
  lemma Starts(p: nat, size: nat)
    ensures var stop := p + size;
            var ew, eb, sw, sb := Down(stop, 4), Down(stop, 32), Least(Down(stop, 4), Up(p, 4)), Least(Down(stop, 32), Up(p, 32));
            && eb <= ew <= stop && (ew - eb) % 4 == 0 && sb <= eb && (eb - sb) % 32 == 0
            && (Touches32(p, size) ==> sw == Up(p, 4) && sb == Up(p, 32) && p <= sw <= sb <= eb && (sb - sw) % 4 == 0)
            && (!Touches32(p, size) ==> eb < p && sb == eb)
  {
    hide Up, Down;
    Rounding(p, size);
    var stop := p + size;
    Apart4(Down(stop, 32), Down(stop, 4));
    Apart32(Up(p, 32), Down(stop, 32));
  }

  lemma Apart4(a: nat, b: nat)
    requires a % 32 == 0 && b % 4 == 0
    ensures (b - a) % 4 == 0
  {
    assert a % 4 == 0;
  }

  lemma Apart32(a: nat, b: nat)
    requires a % 32 == 0 && b % 32 == 0
    ensures (b - a) % 32 == 0
  {
  }

  lemma FiveIs(p: nat, stop: nat, stopBlock: nat, stopWord: nat, startWord: nat, startBlock: nat, data: nat)
    ensures FiveLoops(p, stop, stopBlock, stopWord, startWord, startBlock, data)
         == multiset(Addresses(startBlock, stopBlock)) + multiset(Addresses(stopBlock, stopWord)) + multiset(Addresses(stopWord, stop))
            + multiset(Addresses(p, startWord)) + multiset(Addresses(data, startBlock))
  {
  }

  method BlockLoop(m: Mem, a: nat, b: nat, size: nat, seed: nat, pipelined: bool) returns (h: nat)
    requires a <= b && (b - a) % 32 == 0
    ensures h == BlockHash(m, a, b, size, seed)
  {
    hide Lane, Add, Mul, Rol, Words, Word;
    var s0, s1, s2 := Add(Add(seed, PRIME_1), PRIME_2), Add(seed, PRIME_2), seed;
    var blocks := Words(m, a, (b - a) / 4);
    if pipelined && b - a >= 64 {
      s0, s1, s2 := PipelinedLanes(s0, s1, s2, blocks);
    } else {
      s0, s1, s2 := PlainLanes(s0, s1, s2, blocks);
    }
    h := Add(Add(Add(size, Rol(s0, 2, 0x8000_0000)), Rol(s1, 0x80, 0x200_0000)), Rol(s2, 0x1000, 0x10_0000));
  }

  /** The five loops share out the region, or else one of them begins before it. */
  lemma Shares(p: nat, size: nat, stopBlock: nat, stopWord: nat, startWord: nat, startBlock: nat)
    requires stopBlock <= stopWord <= p + size
    requires p <= stopBlock ==> p <= startWord <= startBlock <= stopBlock
    requires stopBlock < p ==> startBlock <= stopBlock
    ensures var data := if p < startWord then startWord else p;
            FiveLoops(p, p + size, stopBlock, stopWord, startWord, startBlock, data) == multiset(Addresses(p, p + size)) <==> p <= stopBlock
  {
    hide Addresses;
    var stop := p + size;
    var data := if p < startWord then startWord else p;
    if p <= stopBlock {
      AddressesJoin(p, startWord, startBlock);
      AddressesJoin(p, startBlock, stopBlock);
      AddressesJoin(p, stopBlock, stopWord);
      AddressesJoin(p, stopWord, stop);
    } else {
      AddressesJoin(stopBlock, stopWord, stop);
      Holds(stopBlock, stop);
      Lacks(p, stop, stopBlock);
      assert FiveLoops(p, stop, stopBlock, stopWord, startWord, startBlock, data)[stopBlock] > 0;
    }
  }

  /** What the five loops read, from the blocks to the words before them. */
  ghost function FiveLoops(p: nat, stop: nat, stopBlock: nat, stopWord: nat, startWord: nat, startBlock: nat, data: nat): multiset<int> {
    multiset(Addresses(startBlock, stopBlock)) + multiset(Addresses(stopBlock, stopWord)) + multiset(Addresses(stopWord, stop))
    + multiset(Addresses(p, startWord)) + multiset(Addresses(data, startBlock))
  }

  lemma Holds(a: int, b: int)
    requires a < b
    ensures multiset(Addresses(a, b))[a] > 0
  {
    assert Addresses(a, b)[0] == a;
  }

  lemma Lacks(a: int, b: int, x: int)
    requires x < a
    ensures multiset(Addresses(a, b))[x] == 0
  {
    assert x !in Addresses(a, b);
  }
}
