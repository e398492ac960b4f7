/** The LZMA symbol code: which decisions, under which probabilities, spell which symbol. */
module LzmaCode {
  import opened Shared
  import opened Memory
  import opened Numbers
  import opened RangeCoder
  import opened Dictionary

  // ---------------------------------------------------------------------------------------------
  // The probability arrays, in the order in which they lie in memory

  const IS_MATCH := 0
  const IS_REP := 192
  const IS_REP0 := 204
  const IS_REP1 := 216
  const IS_REP2 := 228
  const IS_REP0_LONG := 240
  const DIST_SLOT := 432
  const DIST_SPECIAL := 688
  const DIST_ALIGN := 802
  const MATCH_LEN := 818
  const REP_LEN := 1332
  const LITERAL := 1846
  const PROBS_TOTAL := 1846 + 16 * 0x300

  // ---------------------------------------------------------------------------------------------
  // Decisions that spell numbers

  /** Most significant bit first; `sym` is the number below a leading one. */
  function TreeOps(base: nat, sym: nat): (ops: seq<Choice>)
    requires sym >= 1
  {
    if sym == 1 then [] else TreeOps(base, sym / 2) + [Model(base + sym / 2, sym % 2 == 1)]
  }

  /** The tree index after `n` bits of `v`, least significant first. */
  function RevSym(n: nat, v: nat): (s: nat)
    ensures s >= 1
  {
    if n == 0 then 1 else 2 * RevSym(n - 1, v % P2n(n - 1)) + v / P2n(n - 1) % 2
  }

  /** Least significant bit first. */
  function RevOps(base: nat, n: nat, v: nat): seq<Choice> {
    if n == 0 then []
    else RevOps(base, n - 1, v % P2n(n - 1))
         + [Model(base + RevSym(n - 1, v % P2n(n - 1)), v / P2n(n - 1) % 2 == 1)]
  }

  /** Even odds, most significant bit first. */
  function EvenOps(n: nat, v: nat): seq<Choice> {
    if n == 0 then [] else EvenOps(n - 1, v / 2) + [Even(v % 2 == 1)]
  }

  function P2n(n: nat): (p: nat)
    ensures p >= 1
  {
    if n == 0 then 1 else 2 * P2n(n - 1)
  }

  /** A literal is first compared with the byte `mb` that a match would have continued with. */
  function MatchedSlot(mb: byte, n: nat, v: nat): nat
    requires n < 8
  {
    if v == mb / P2n(8 - n) then 0x100 + 0x100 * (mb / P2n(7 - n) % 2) + P2n(n) + v else P2n(n) + v
  }

  function MatchedOps(base: nat, mb: byte, n: nat, v: nat): seq<Choice>
    requires n <= 8
  {
    if n == 0 then []
    else MatchedOps(base, mb, n - 1, v / 2) + [Model(base + MatchedSlot(mb, n - 1, v / 2), v % 2 == 1)]
  }

  // ---------------------------------------------------------------------------------------------
  // Lengths and distances

  function LenOps(base: nat, posState: nat, len: nat): seq<Choice>
    requires 2 <= len <= 273 && posState < 16
  {
    if len < 10 then [Model(base, false)] + TreeOps(base + 2 + 8 * posState, 8 + len - 2)
    else [Model(base, true)] + LongLenOps(base, posState, len)
  }

  function LongLenOps(base: nat, posState: nat, len: nat): seq<Choice>
    requires 10 <= len <= 273 && posState < 16
  {
    if len < 18 then [Model(base + 1, false)] + TreeOps(base + 130 + 8 * posState, 8 + len - 10)
    else [Model(base + 1, true)] + TreeOps(base + 258, 256 + len - 18)
  }

  /** `lzma_get_dist_state` */
  function DistState(len: nat): (s: nat)
    requires len >= 2
    ensures s < 4
  {
    if len < 6 then len - 2 else 3
  }

  /** The two highest bits of a distance and how many follow: 0..3 stand for themselves. */
  function SlotOf(dist: nat): nat {
    if dist < 4 then dist else SlotOf(dist / 2) + 2
  }

  /** The bits of a distance below its slot's two, and the least distance of a slot. */
  function SlotBits(slot: nat): nat
    requires slot >= 4
  {
    slot / 2 - 1
  }

  function SlotLow(slot: nat): nat
    requires slot >= 4
  {
    (2 + slot % 2) * P2n(SlotBits(slot))
  }

  lemma SlotDoubles(slot: nat)
    requires 4 <= slot
    ensures SlotBits(slot + 2) == SlotBits(slot) + 1 && P2n(SlotBits(slot + 2)) == 2 * P2n(SlotBits(slot))
    ensures SlotLow(slot + 2) == 2 * SlotLow(slot) && P2n(SlotBits(slot)) >= 2 && SlotLow(slot) >= 4
  {
    assert P2n(SlotBits(slot)) == 2 * P2n(SlotBits(slot) - 1);
    Doubled(2 + slot % 2, P2n(SlotBits(slot)));
  }

  lemma Doubled(a: nat, p: nat)
    requires a >= 2 && p >= 2
    ensures a * (2 * p) == 2 * (a * p) && a * p >= 4
  {
    MulMono(a, 2, p);
  }

  /** A slot with `low < 2^bits` below it spells exactly the distances of that slot. */
  lemma {:induction false} SlotRound(slot: nat, low: nat)
    requires 4 <= slot && low < P2n(SlotBits(slot))
    ensures SlotOf(SlotLow(slot) + low) == slot
  {
    hide P2n, SlotLow;
    var d := SlotLow(slot) + low;
    SlotDoubles(slot);
    if slot < 6 {
      SmallSlots();
      assert SlotOf(d / 2) == d / 2;
    } else {
      SlotDoubles(slot - 2);
      assert d / 2 == SlotLow(slot - 2) + low / 2;
      SlotRound(slot - 2, low / 2);
    }
  }

  lemma SmallSlots()
    ensures SlotLow(4) == 4 && SlotLow(5) == 6 && P2n(SlotBits(4)) == 2 && P2n(SlotBits(5)) == 2
  {
    assert P2n(1) == 2;
  }

  lemma {:induction false} SlotSplit(dist: nat)
    requires 4 <= dist
    ensures 4 <= SlotOf(dist) && SlotLow(SlotOf(dist)) <= dist < SlotLow(SlotOf(dist)) + P2n(SlotBits(SlotOf(dist)))
  {
    hide P2n, SlotLow;
    if dist < 8 {
      SmallSlots();
      assert SlotOf(dist / 2) == dist / 2;
    } else {
      SlotSplit(dist / 2);
      SlotDoubles(SlotOf(dist / 2));
    }
  }

  function DistOps(len: nat, dist: nat): seq<Choice>
    requires 2 <= len
  {
    TreeOps(DIST_SLOT + 64 * DistState(len), 64 + SlotOf(dist)) + RestOps(dist)
  }

  /** The bits of a distance that its slot leaves open. */
  function RestOps(dist: nat): seq<Choice> {
    if dist < 4 then [] else SlotSplit(dist); LowOps(SlotOf(dist), dist - SlotLow(SlotOf(dist)))
  }

  function LowOps(slot: nat, low: nat): seq<Choice>
    requires 4 <= slot
  {
    if slot < 14 then RevOps(DIST_SPECIAL + SlotLow(slot) - slot - 1, SlotBits(slot), low)
    else EvenOps(SlotBits(slot) - 4, low / 16) + RevOps(DIST_ALIGN, 4, low % 16)
  }

  // ---------------------------------------------------------------------------------------------
  // Which probabilities are used, and how many decisions there are

  /** Every modelled decision uses a probability in `[lo, hi)`. */
  ghost predicate Within(ops: seq<Choice>, lo: int, hi: int) {
    forall i :: 0 <= i < |ops| && ops[i].Model? ==> lo <= ops[i].slot < hi
  }

  lemma {:induction false} TreeFacts(base: nat, n: nat, sym: nat)
    requires P2n(n) <= sym < 2 * P2n(n)
    ensures Within(TreeOps(base, sym), base + 1, base + P2n(n))
    ensures Models(TreeOps(base, sym)) == n && Evens(TreeOps(base, sym)) == 0
  {
    if n > 0 {
      TreeFacts(base, n - 1, sym / 2);
      assert TreeOps(base, sym)[..|TreeOps(base, sym)| - 1] == TreeOps(base, sym / 2);
    }
  }

  lemma {:induction false} RevSymBounds(n: nat, v: nat)
    ensures P2n(n) <= RevSym(n, v) < 2 * P2n(n)
  {
    if n > 0 {
      RevSymBounds(n - 1, v % P2n(n - 1));
    }
  }

  lemma WithinOne(front: seq<Choice>, op: Choice, lo: int, mid: int, hi: int)
    requires Within(front, lo, mid) && mid <= hi && (op.Model? ==> lo <= op.slot < hi)
    ensures Within(front + [op], lo, hi)
  {
  }

  lemma NoneCounted()
    ensures Models([]) == 0 && Evens([]) == 0
  {
  }

  lemma {:induction false} RevFacts(base: nat, n: nat, v: nat)
    ensures Within(RevOps(base, n, v), base + 1, base + P2n(n))
    ensures Models(RevOps(base, n, v)) == n && Evens(RevOps(base, n, v)) == 0
  {
    hide RevSym, Models, Evens, Within, RevOps;
    NoneCounted();
    if n == 0 {
      NoneReversed(base, v);
      NoneWithin(base + 1, base + P2n(n));
    } else {
      var low, op := RevSplit(base, n, v);
      RevFacts(base, n - 1, low);
      RevSymBounds(n - 1, low);
      OneMore(RevOps(base, n - 1, low), op);
      WithinOne(RevOps(base, n - 1, low), op, base + 1, base + P2n(n - 1), base + P2n(n));
    }
  }

  lemma RevSplit(base: nat, n: nat, v: nat) returns (low: nat, op: Choice)
    requires n > 0
    ensures RevOps(base, n, v) == RevOps(base, n - 1, low) + [op] && op.Model? && op.slot == base + RevSym(n - 1, low)
  {
    hide RevSym, P2n;
    low := v % P2n(n - 1);
    op := Model(base + RevSym(n - 1, low), v / P2n(n - 1) % 2 == 1);
  }

  lemma NoneReversed(base: nat, v: nat)
    ensures RevOps(base, 0, v) == []
  {
  }

  lemma NoneWithin(lo: int, hi: int)
    ensures Within([], lo, hi)
  {
  }

  lemma OneMore(front: seq<Choice>, op: Choice)
    ensures Models(front + [op]) == Models(front) + (if op.Model? then 1 else 0)
    ensures Evens(front + [op]) == Evens(front) + (if op.Model? then 0 else 1)
  {
    assert (front + [op])[..|front|] == front;
  }

  lemma {:induction false} EvenFacts(n: nat, v: nat)
    ensures Within(EvenOps(n, v), 0, 0)
    ensures Models(EvenOps(n, v)) == 0 && Evens(EvenOps(n, v)) == n
  {
    if n > 0 {
      EvenFacts(n - 1, v / 2);
      assert EvenOps(n, v)[..|EvenOps(n, v)| - 1] == EvenOps(n - 1, v / 2);
    }
  }

  lemma {:induction false} P2nMono(i: nat, j: nat)
    requires i <= j
    ensures P2n(i) <= P2n(j)
  {
    if i < j {
      P2nMono(i, j - 1);
    }
  }

  lemma SmallPowers()
    ensures P2n(0) == 1 && P2n(1) == 2 && P2n(2) == 4 && P2n(3) == 8 && P2n(4) == 16
    ensures P2n(5) == 32 && P2n(6) == 64 && P2n(7) == 128 && P2n(8) == 256
  {
  }

  lemma {:induction false} MatchedFacts(base: nat, mb: byte, n: nat, v: nat)
    requires n <= 8 && v < P2n(n)
    ensures Within(MatchedOps(base, mb, n, v), base + 1, base + 0x300)
    ensures Models(MatchedOps(base, mb, n, v)) == n && Evens(MatchedOps(base, mb, n, v)) == 0
  {
    if n > 0 {
      MatchedFacts(base, mb, n - 1, v / 2);
      P2nMono(n - 1, 7);
      SmallPowers();
      var all := MatchedOps(base, mb, n, v);
      assert all[..|all| - 1] == MatchedOps(base, mb, n - 1, v / 2);
    }
  }

  lemma Widened(a: seq<Choice>, lo: int, hi: int)
    requires Within(a, lo, hi) && 0 <= lo && hi <= PROBS_TOTAL
    ensures Within(a, 0, PROBS_TOTAL) && AllKnown(PROBS_TOTAL, a)
  {
  }

  /** A length uses its own decoder's 514 probabilities, and at most ten of them. */
  lemma LenFacts(base: nat, posState: nat, len: nat)
    requires 2 <= len <= 273 && posState < 16
    ensures Within(LenOps(base, posState, len), base, base + 514)
    ensures 4 <= Models(LenOps(base, posState, len)) <= 10 && Evens(LenOps(base, posState, len)) == 0
  {
    hide TreeOps, LongLenOps, Models, Evens;
    One(base, len >= 10);
    if len < 10 {
      var t := base + 2 + 8 * posState;
      SmallPowers();
      TreeFacts(t, 3, 8 + len - 2);
      CountAppend([Model(base, false)], TreeOps(t, 8 + len - 2));
    } else {
      LongLenFacts(base, posState, len);
      CountAppend([Model(base, true)], LongLenOps(base, posState, len));
    }
  }

  lemma LongLenFacts(base: nat, posState: nat, len: nat)
    requires 10 <= len <= 273 && posState < 16
    ensures Within(LongLenOps(base, posState, len), base, base + 514)
    ensures 4 <= Models(LongLenOps(base, posState, len)) <= 9 && Evens(LongLenOps(base, posState, len)) == 0
  {
    hide TreeOps, Models, Evens;
    SmallPowers();
    One(base + 1, len >= 18);
    if len < 18 {
      var t := base + 130 + 8 * posState;
      TreeFacts(t, 3, 8 + len - 10);
      CountAppend([Model(base + 1, false)], TreeOps(t, 8 + len - 10));
    } else {
      TreeFacts(base + 258, 8, 256 + len - 18);
      CountAppend([Model(base + 1, true)], TreeOps(base + 258, 256 + len - 18));
    }
  }

  lemma One(i: nat, a: bool)
    ensures Models([Model(i, a)]) == 1 && Evens([Model(i, a)]) == 0
  {
    assert [Model(i, a)][..0] == [];
  }

  lemma SpecialInside(slot: nat)
    requires 4 <= slot < 14
    ensures DIST_SPECIAL <= DIST_SPECIAL + SlotLow(slot) - slot
    ensures DIST_SPECIAL + SlotLow(slot) - slot - 1 + P2n(SlotBits(slot)) <= DIST_SPECIAL + 114
    ensures SlotBits(slot) <= 5
  {
    SmallPowers();
  }

  lemma LowFacts(slot: nat, low: nat)
    requires 4 <= slot < 64
    ensures Within(LowOps(slot, low), DIST_SPECIAL, MATCH_LEN)
    ensures Models(LowOps(slot, low)) <= 4 || (Models(LowOps(slot, low)) <= 5 && Evens(LowOps(slot, low)) == 0)
    ensures Evens(LowOps(slot, low)) <= 26
    ensures LowOps(slot, low) != [] && LowOps(slot, low)[|LowOps(slot, low)| - 1].Model?
  {
    hide RevOps, EvenOps, Models, Evens, SlotLow, P2n;
    if slot < 14 {
      SpecialInside(slot);
      RevFacts(DIST_SPECIAL + SlotLow(slot) - slot - 1, SlotBits(slot), low);
      RevLast(DIST_SPECIAL + SlotLow(slot) - slot - 1, SlotBits(slot), low);
    } else {
      SmallPowers();
      EvenFacts(SlotBits(slot) - 4, low / 16);
      RevFacts(DIST_ALIGN, 4, low % 16);
      RevLast(DIST_ALIGN, 4, low % 16);
      CountAppend(EvenOps(SlotBits(slot) - 4, low / 16), RevOps(DIST_ALIGN, 4, low % 16));
    }
  }

  lemma RevLast(base: nat, n: nat, v: nat)
    requires n > 0
    ensures RevOps(base, n, v) != [] && RevOps(base, n, v)[|RevOps(base, n, v)| - 1].Model?
  {
  }

  lemma TreeLast(base: nat, sym: nat)
    requires sym > 1
    ensures TreeOps(base, sym) != [] && TreeOps(base, sym)[|TreeOps(base, sym)| - 1].Model?
  {
  }

  lemma {:induction false} SlotBelow64(dist: nat, n: nat)
    requires dist < 4 * P2n(n)
    ensures SlotOf(dist) < 4 + 2 * n
  {
    if dist >= 4 {
      assert n > 0;
      SlotBelow64(dist / 2, n - 1);
    }
  }

  /** A distance takes its slot's six decisions and at most 4 modelled and 26 even ones, or 5 modelled ones. */
  lemma DistFacts(len: nat, dist: nat)
    requires 2 <= len && dist < 0x1_0000_0000
    ensures Within(DistOps(len, dist), DIST_SLOT, MATCH_LEN)
    ensures Models(DistOps(len, dist)) <= 10 || (Models(DistOps(len, dist)) <= 11 && Evens(DistOps(len, dist)) == 0)
    ensures Evens(DistOps(len, dist)) <= 26
    ensures DistOps(len, dist) != [] && DistOps(len, dist)[|DistOps(len, dist)| - 1].Model?
  {
    hide TreeOps, LowOps, Models, Evens, SlotLow, SlotOf, P2n;
    SlotRange(dist);
    SmallPowers();
    var slot := SlotOf(dist);
    TreeFacts(DIST_SLOT + 64 * DistState(len), 6, 64 + slot);
    TreeLast(DIST_SLOT + 64 * DistState(len), 64 + slot);
    if dist >= 4 {
      SlotSplit(dist);
      LowFacts(slot, dist - SlotLow(slot));
      CountAppend(TreeOps(DIST_SLOT + 64 * DistState(len), 64 + slot), LowOps(slot, dist - SlotLow(slot)));
    } else {
      var t := TreeOps(DIST_SLOT + 64 * DistState(len), 64 + slot);
      assert t + [] == t;
    }
  }

  lemma BigPower()
    ensures P2n(30) == 0x4000_0000
  {
    assert P2n(10) == 1024;
    assert P2n(20) == 0x10_0000;
  }

  // ---------------------------------------------------------------------------------------------
  // The code is uniquely decodable

  /** The decoder at `c` takes these decisions on this input. */
  ghost predicate Takes(c: Coder, ops: seq<Choice>, input: seq<byte>) {
    Sound(c) && AllKnown(|c.probs|, ops) && Run(c, ops, input).Some?
  }

  ghost function After(c: Coder, ops: seq<Choice>, input: seq<byte>): (r: Coder)
    requires Takes(c, ops, input)
    ensures Sound(r) && |r.probs| == |c.probs|
  {
    Run(c, ops, input).value
  }

  lemma TakesSplit(c: Coder, a: seq<Choice>, b: seq<Choice>, input: seq<byte>)
    requires Takes(c, a + b, input)
    ensures Takes(c, a, input) && Takes(After(c, a, input), b, input)
    ensures After(c, a + b, input) == After(After(c, a, input), b, input)
  {
    hide Run, Sound;
    assert a == (a + b)[..|a|] && b == (a + b)[|a|..];
    RunAppend(c, a, b, input);
  }

  lemma TakesJoin(c: Coder, a: seq<Choice>, b: seq<Choice>, input: seq<byte>)
    requires Takes(c, a, input) && Takes(After(c, a, input), b, input)
    ensures Takes(c, a + b, input) && After(c, a + b, input) == After(After(c, a, input), b, input)
  {
    hide Run, Sound;
    RunAppend(c, a, b, input);
  }

  /** A decision under a given probability can go only one way. */
  lemma Decided(c: Coder, front: seq<Choice>, a: Choice, b: Choice, input: seq<byte>)
    requires Takes(c, front + [a], input) && Takes(c, front + [b], input)
    requires a.Model? == b.Model? && (a.Model? ==> a.slot == b.slot)
    ensures a == b
  {
    hide Normalize, Taken, Sound, Bound;
    assert (front + [a])[..|front|] == front && (front + [b])[..|front|] == front;
    var n := Normalize(Run(c, front, input).value, input);
    assert Reads(n, a) == Reads(n, b);
  }

  lemma Halved(n: nat, s: nat)
    requires n > 0
    ensures P2n(n) == 2 * P2n(n - 1)
    ensures P2n(n) <= s < 2 * P2n(n) ==> P2n(n - 1) <= s / 2 < 2 * P2n(n - 1)
    ensures s < P2n(n) ==> s / 2 < P2n(n - 1)
    ensures s == 2 * (s / 2) + if s % 2 == 1 then 1 else 0
  {
  }

  lemma TreeUnfold(base: nat, s: nat)
    requires s >= 2
    ensures TreeOps(base, s) == TreeOps(base, s / 2) + [Model(base + s / 2, s % 2 == 1)]
  {
  }

  lemma TreeEnd(s: nat)
    requires P2n(0) <= s < 2 * P2n(0)
    ensures s == 1
  {
  }

  lemma {:induction false} TreeUnique(c: Coder, base: nat, n: nat, s: nat, t: nat, input: seq<byte>)
    requires P2n(n) <= s < 2 * P2n(n) && P2n(n) <= t < 2 * P2n(n)
    requires Takes(c, TreeOps(base, s), input) && Takes(c, TreeOps(base, t), input)
    ensures s == t
  {
    hide Takes, P2n, TreeOps;
    if n > 0 {
      Halved(n, s);
      Halved(n, t);
      TreeUnfold(base, s);
      TreeUnfold(base, t);
      TakesSplit(c, TreeOps(base, s / 2), [Model(base + s / 2, s % 2 == 1)], input);
      TakesSplit(c, TreeOps(base, t / 2), [Model(base + t / 2, t % 2 == 1)], input);
      TreeUnique(c, base, n - 1, s / 2, t / 2, input);
      Decided(c, TreeOps(base, s / 2), Model(base + s / 2, s % 2 == 1), Model(base + t / 2, t % 2 == 1), input);
    } else {
      TreeEnd(s);
      TreeEnd(t);
    }
  }

  lemma RevUnfold(base: nat, n: nat, v: nat)
    requires n > 0
    ensures var p := P2n(n - 1);
            RevOps(base, n, v) == RevOps(base, n - 1, v % p) + [Model(base + RevSym(n - 1, v % p), v / p % 2 == 1)]
    ensures v % P2n(n - 1) < P2n(n - 1) && P2n(n) == 2 * P2n(n - 1)
  {
  }

  lemma NoPower()
    ensures P2n(0) == 1
  {
  }

  lemma {:induction false} RevUnique(c: Coder, base: nat, n: nat, v: nat, w: nat, input: seq<byte>)
    requires v < P2n(n) && w < P2n(n)
    requires Takes(c, RevOps(base, n, v), input) && Takes(c, RevOps(base, n, w), input)
    ensures v == w
  {
    hide Takes, RevSym, RevOps, P2n;
    if n > 0 {
      var p := P2n(n - 1);
      RevUnfold(base, n, v);
      RevUnfold(base, n, w);
      var a, b := Model(base + RevSym(n - 1, v % p), v / p % 2 == 1), Model(base + RevSym(n - 1, w % p), w / p % 2 == 1);
      TakesSplit(c, RevOps(base, n - 1, v % p), [a], input);
      TakesSplit(c, RevOps(base, n - 1, w % p), [b], input);
      RevUnique(c, base, n - 1, v % p, w % p, input);
      Decided(c, RevOps(base, n - 1, v % p), a, b, input);
      TopBit(v, p);
      TopBit(w, p);
    } else {
      NoPower();
    }
  }

  lemma TopBit(v: nat, p: nat)
    requires 0 < p && v < 2 * p
    ensures v == v % p + (if v / p % 2 == 1 then p else 0)
  {
    if v < p {
      DivModUnique(v, p, 0, v);
    } else {
      DivModUnique(v, p, 1, v - p);
    }
  }

  lemma EvenUnfold(n: nat, v: nat)
    requires n > 0
    ensures EvenOps(n, v) == EvenOps(n - 1, v / 2) + [Even(v % 2 == 1)]
  {
  }

  lemma {:induction false} EvenUnique(c: Coder, n: nat, v: nat, w: nat, input: seq<byte>)
    requires v < P2n(n) && w < P2n(n)
    requires Takes(c, EvenOps(n, v), input) && Takes(c, EvenOps(n, w), input)
    ensures v == w
  {
    hide Takes, P2n, EvenOps;
    if n > 0 {
      Halved(n, v);
      Halved(n, w);
      EvenUnfold(n, v);
      EvenUnfold(n, w);
      TakesSplit(c, EvenOps(n - 1, v / 2), [Even(v % 2 == 1)], input);
      TakesSplit(c, EvenOps(n - 1, w / 2), [Even(w % 2 == 1)], input);
      EvenUnique(c, n - 1, v / 2, w / 2, input);
      Decided(c, EvenOps(n - 1, v / 2), Even(v % 2 == 1), Even(w % 2 == 1), input);
    } else {
      NoPower();
    }
  }

  lemma MatchedUnfold(base: nat, mb: byte, n: nat, v: nat)
    requires 0 < n <= 8
    ensures MatchedOps(base, mb, n, v)
         == MatchedOps(base, mb, n - 1, v / 2) + [Model(base + MatchedSlot(mb, n - 1, v / 2), v % 2 == 1)]
  {
  }

  lemma {:induction false} MatchedUnique(c: Coder, base: nat, mb: byte, n: nat, v: nat, w: nat, input: seq<byte>)
    requires n <= 8 && v < P2n(n) && w < P2n(n)
    requires Takes(c, MatchedOps(base, mb, n, v), input) && Takes(c, MatchedOps(base, mb, n, w), input)
    ensures v == w
  {
    hide Takes, MatchedSlot, MatchedOps, P2n;
    if n > 0 {
      Halved(n, v);
      Halved(n, w);
      MatchedUnfold(base, mb, n, v);
      MatchedUnfold(base, mb, n, w);
      var a := Model(base + MatchedSlot(mb, n - 1, v / 2), v % 2 == 1);
      var b := Model(base + MatchedSlot(mb, n - 1, w / 2), w % 2 == 1);
      TakesSplit(c, MatchedOps(base, mb, n - 1, v / 2), [a], input);
      TakesSplit(c, MatchedOps(base, mb, n - 1, w / 2), [b], input);
      MatchedUnique(c, base, mb, n - 1, v / 2, w / 2, input);
      Decided(c, MatchedOps(base, mb, n - 1, v / 2), a, b, input);
    } else {
      NoPower();
    }
  }

  /** Two continuations of one decision agree on it. */
  lemma FirstDecided(c: Coder, a: Choice, x: seq<Choice>, b: Choice, y: seq<Choice>, input: seq<byte>)
    requires Takes(c, [a] + x, input) && Takes(c, [b] + y, input)
    requires a.Model? == b.Model? && (a.Model? ==> a.slot == b.slot)
    ensures a == b && Takes(c, [a], input) && Takes(After(c, [a], input), x, input) && Takes(After(c, [a], input), y, input)
  {
    hide Takes;
    TakesSplit(c, [a], x, input);
    TakesSplit(c, [b], y, input);
    assert [] + [a] == [a] && [] + [b] == [b];
    Decided(c, [], a, b, input);
  }

  lemma LenUnique(c: Coder, base: nat, posState: nat, len: nat, len': nat, input: seq<byte>)
    requires 2 <= len <= 273 && 2 <= len' <= 273 && posState < 16
    requires Takes(c, LenOps(base, posState, len), input) && Takes(c, LenOps(base, posState, len'), input)
    ensures len == len'
  {
    hide Takes, LongLenOps, TreeOps;
    SmallPowers();
    var t := base + 2 + 8 * posState;
    var x := if len < 10 then TreeOps(t, 8 + len - 2) else LongLenOps(base, posState, len);
    var y := if len' < 10 then TreeOps(t, 8 + len' - 2) else LongLenOps(base, posState, len');
    FirstDecided(c, Model(base, len >= 10), x, Model(base, len' >= 10), y, input);
    var d := After(c, [Model(base, len >= 10)], input);
    if len < 10 {
      TreeUnique(d, t, 3, 8 + len - 2, 8 + len' - 2, input);
    } else {
      LongLenUnique(d, base, posState, len, len', input);
    }
  }

  lemma LongLenUnique(c: Coder, base: nat, posState: nat, len: nat, len': nat, input: seq<byte>)
    requires 10 <= len <= 273 && 10 <= len' <= 273 && posState < 16
    requires Takes(c, LongLenOps(base, posState, len), input) && Takes(c, LongLenOps(base, posState, len'), input)
    ensures len == len'
  {
    hide Takes, TreeOps;
    SmallPowers();
    var t := base + 130 + 8 * posState;
    var x := if len < 18 then TreeOps(t, 8 + len - 10) else TreeOps(base + 258, 256 + len - 18);
    var y := if len' < 18 then TreeOps(t, 8 + len' - 10) else TreeOps(base + 258, 256 + len' - 18);
    FirstDecided(c, Model(base + 1, len >= 18), x, Model(base + 1, len' >= 18), y, input);
    var d := After(c, [Model(base + 1, len >= 18)], input);
    if len < 18 {
      TreeUnique(d, t, 3, 8 + len - 10, 8 + len' - 10, input);
    } else {
      TreeUnique(d, base + 258, 8, 256 + len - 18, 256 + len' - 18, input);
    }
  }

  lemma LowUnique(c: Coder, slot: nat, low: nat, low': nat, input: seq<byte>)
    requires 4 <= slot && low < P2n(SlotBits(slot)) && low' < P2n(SlotBits(slot))
    requires Takes(c, LowOps(slot, low), input) && Takes(c, LowOps(slot, low'), input)
    ensures low == low'
  {
    hide Takes, RevOps, EvenOps, P2n, SlotLow;
    if slot < 14 {
      RevUnique(c, DIST_SPECIAL + SlotLow(slot) - slot - 1, SlotBits(slot), low, low', input);
    } else {
      var n := SlotBits(slot) - 4;
      TakesSplit(c, EvenOps(n, low / 16), RevOps(DIST_ALIGN, 4, low % 16), input);
      TakesSplit(c, EvenOps(n, low' / 16), RevOps(DIST_ALIGN, 4, low' % 16), input);
      Sixteenths(n);
      EvenUnique(c, n, low / 16, low' / 16, input);
      SmallPowers();
      RevUnique(After(c, EvenOps(n, low / 16), input), DIST_ALIGN, 4, low % 16, low' % 16, input);
    }
  }

  lemma Sixteenths(n: nat)
    ensures P2n(n + 4) == 16 * P2n(n)
  {
    assert P2n(n + 4) == 2 * P2n(n + 3);
    assert P2n(n + 3) == 2 * P2n(n + 2);
    assert P2n(n + 2) == 2 * P2n(n + 1);
  }

  lemma DistUnique(c: Coder, len: nat, dist: nat, dist': nat, input: seq<byte>)
    requires 2 <= len && dist < 0x1_0000_0000 && dist' < 0x1_0000_0000
    requires Takes(c, DistOps(len, dist), input) && Takes(c, DistOps(len, dist'), input)
    ensures dist == dist'
  {
    hide Takes, TreeOps, RestOps, P2n, SlotOf;
    SlotRange(dist);
    SlotRange(dist');
    SmallPowers();
    var t, slot, slot' := DIST_SLOT + 64 * DistState(len), SlotOf(dist), SlotOf(dist');
    TakesSplit(c, TreeOps(t, 64 + slot), RestOps(dist), input);
    TakesSplit(c, TreeOps(t, 64 + slot'), RestOps(dist'), input);
    TreeUnique(c, t, 6, 64 + slot, 64 + slot', input);
    RestUnique(After(c, TreeOps(t, 64 + slot), input), dist, dist', input);
  }

  lemma RestUnique(c: Coder, dist: nat, dist': nat, input: seq<byte>)
    requires SlotOf(dist) == SlotOf(dist') && Takes(c, RestOps(dist), input) && Takes(c, RestOps(dist'), input)
    ensures dist == dist'
  {
    hide Takes, LowOps, P2n, SlotOf, SlotLow, SlotBits;
    SlotSmall(dist);
    SlotSmall(dist');
    if dist >= 4 {
      SlotSplit(dist);
      SlotSplit(dist');
      var slot := SlotOf(dist);
      LowUnique(c, slot, dist - SlotLow(slot), dist' - SlotLow(slot), input);
    }
  }

  lemma SlotRange(dist: nat)
    requires dist < 0x1_0000_0000
    ensures SlotOf(dist) < 64
  {
    BigPower();
    SlotBelow64(dist, 30);
  }

  lemma SlotSmall(dist: nat)
    ensures if dist < 4 then SlotOf(dist) == dist else SlotOf(dist) >= 4
  {
    if dist >= 4 {
      SlotSplit(dist);
    }
  }
}
