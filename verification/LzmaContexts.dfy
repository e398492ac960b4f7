/**
 * Which probability answers which question: what two decisions have in common when they share one, and
 * what a decision teaches it.
 */
module LzmaContexts {
  import opened Memory
  import opened Numbers
  import opened RangeCoder
  import opened Dictionary
  import opened LzmaCode
  import opened LzmaSymbols

  // ---------------------------------------------------------------------------------------------
  // Odds

  /** A probability is the share of a zero in 2048 parts of the range, but for what is lost to rounding. */
  lemma ZeroShare(range: nat, p: nat)
    requires p <= 2048
    ensures 2048 * Bound(range, p) <= range * p
    ensures p > 0 ==> range * p < 2048 * (Bound(range, p) + p)
    ensures Bound(range, p) + Bound(range, 2048 - p) == range - range % 2048
  {
    var q, r := range / 2048, range % 2048;
    assert range == 2048 * q + r;
    MulSplit(p, 2048 * q, r);
    MulAssoc(p, 2048, q);
    MulAssoc(2048, p, q);
    MulMono(p, r, 2047);
    MulSplit(q, p, 2048 - p);
  }

  lemma MulSplit(a: int, x: int, y: int)
    ensures a * (x + y) == a * x + a * y
  {
  }

  /** A zero takes the lower part of the interval and a one all the rest; even odds take a half each. */
  lemma PartsOfInterval(iv: Interval, op: Choice)
    requires Proper(iv) && (op.Model? ==> op.slot < |iv.probs|)
    ensures var w, zero, one := Widen(iv), Narrow(iv, op.(bit := false)), Narrow(iv, op.(bit := true));
            && zero.low == w.low && one.low == zero.low + zero.range && zero.digits == one.digits == w.digits
            && (op.Model? ==> one.low + one.range == w.low + w.range && zero.range == Bound(w.range, w.probs[op.slot]))
            && (op.Even? ==> zero.range == one.range && w.range - 1 <= zero.range + one.range <= w.range)
  {
    hide Bound;
  }

  /** A decision moves its probability towards itself, until 2017 and 31 stay: the two directions mirror one another. */
  lemma Adapts(p: nat)
    requires Fair(p)
    ensures Lowered(p) <= p <= Raised(p) && Fair(2048 - p) && Lowered(p) == 2048 - Raised(2048 - p)
    ensures (Raised(p) == p <==> p == 2017) && (Lowered(p) == p <==> p == 31)
  {
  }

  /** A decision teaches the probability that it was taken under, and no other. */
  lemma TeachesItsOwn(iv: Interval, slot: nat, bit: bool)
    requires Proper(iv) && slot < |iv.probs|
    ensures var r := Narrow(iv, Model(slot, bit)).probs;
            && |r| == |iv.probs| && (forall k :: 0 <= k < |r| && k != slot ==> r[k] == iv.probs[k])
            && (if bit then r[slot] <= iv.probs[slot] else r[slot] >= iv.probs[slot])
            && (r[slot] == iv.probs[slot] <==> iv.probs[slot] == if bit then 31 else 2017)
  {
    hide Bound;
  }

  // ---------------------------------------------------------------------------------------------
  // The table

  /** The arrays of `struct lzma_dec` follow one another and fill the table. */
  lemma TableTiled()
    ensures IS_MATCH == 0 && IS_REP == IS_MATCH + 12 * 16 && IS_REP0 == IS_REP + 12 && IS_REP1 == IS_REP0 + 12
    ensures IS_REP2 == IS_REP1 + 12 && IS_REP0_LONG == IS_REP2 + 12 && DIST_SLOT == IS_REP0_LONG + 12 * 16
    ensures DIST_SPECIAL == DIST_SLOT + 4 * 64 && DIST_ALIGN == DIST_SPECIAL + (128 - 14) && MATCH_LEN == DIST_ALIGN + 16
    ensures REP_LEN == MATCH_LEN + (2 + 2 * 16 * 8 + 256) && LITERAL == REP_LEN + (2 + 2 * 16 * 8 + 256)
    ensures PROBS_TOTAL == LITERAL + 16 * 0x300
  {
  }

  // ---------------------------------------------------------------------------------------------
  // Trees

  /** Each decision is taken at a node of a binary tree: at the root first, and then at the child that was chosen. */
  ghost predicate Descends(ops: seq<Choice>, base: int) {
    && (forall i :: 0 <= i < |ops| ==> ops[i].Model?)
    && (ops != [] ==> ops[0].slot == base + 1)
    && forall i :: 1 <= i < |ops| ==> Below(ops[i - 1], ops[i], base)
  }

  predicate Below(a: Choice, b: Choice, base: int) {
    a.Model? && b.Model? && b.slot - base == 2 * (a.slot - base) + if a.bit then 1 else 0
  }

  lemma DescendsMore(front: seq<Choice>, base: int, op: Choice)
    requires Descends(front, base) && op.Model?
    requires if front == [] then op.slot == base + 1 else Below(front[|front| - 1], op, base)
    ensures Descends(front + [op], base)
  {
  }

  /** A tree takes the bits of a number from the highest to the lowest. */
  lemma {:induction false} TreeDescends(base: nat, n: nat, sym: nat)
    requires P2n(n) <= sym < 2 * P2n(n)
    ensures Descends(TreeOps(base, sym), base) && |TreeOps(base, sym)| == n
    ensures forall i :: 0 <= i < n ==> (TreeOps(base, sym)[i].bit <==> BitSet(sym, n - 1 - i))
    ensures n > 0 ==> TreeOps(base, sym)[n - 1].slot == base + sym / 2
  {
    hide BitSet, Descends;
    if n == 0 {
      assert TreeOps(base, sym) == [] && Descends([], base) by { NoneDescends(base); }
    } else {
      var front := TreeOps(base, sym / 2);
      TreeDescends(base, n - 1, sym / 2);
      BitHere(sym);
      forall k: nat ensures BitSet(sym, k + 1) == BitSet(sym / 2, k) {
        BitAbove(sym, k + 1);
      }
      BitHere(sym / 2);
      DescendsMore(front, base, Model(base + sym / 2, sym % 2 == 1));
    }
  }

  lemma NoneDescends(base: int)
    ensures Descends([], base)
  {
  }

  lemma BitHere(v: nat)
    ensures BitSet(v, 0) <==> v % 2 == 1
  {
  }

  lemma {:induction false} SamePower(n: nat)
    ensures P2n(n) == Pow(2, n)
  {
    if n > 0 {
      SamePower(n - 1);
    }
  }

  /** A reverse tree takes them from the lowest to the highest. */
  lemma {:induction false} ReverseDescends(base: nat, n: nat, v: nat)
    ensures Descends(RevOps(base, n, v), base) && |RevOps(base, n, v)| == n
    ensures forall i :: 0 <= i < n ==> (RevOps(base, n, v)[i].bit <==> BitSet(v, i))
  {
    hide BitSet, Descends, P2n;
    if n == 0 {
      NoneDescends(base);
    } else {
      var low := v % P2n(n - 1);
      var front, op := RevOps(base, n - 1, low), Model(base + RevSym(n - 1, low), v / P2n(n - 1) % 2 == 1);
      ReverseDescends(base, n - 1, low);
      forall i | 0 <= i < n - 1 ensures BitSet(low, i) == BitSet(v, i) {
        LowBit(v, i, n - 1);
      }
      assert op.bit == BitSet(v, n - 1) by { hide *; BitIs(v, n - 1); }
      RootFirst(base, n, v);
      DescendsMore(front, base, op);
    }
  }

  lemma BitIs(v: nat, k: nat)
    ensures BitSet(v, k) <==> v / P2n(k) % 2 == 1
  {
    SamePower(k);
  }

  lemma RootFirst(base: nat, n: nat, v: nat)
    requires n > 0
    ensures var low := v % P2n(n - 1);
            var front, op := RevOps(base, n - 1, low), Model(base + RevSym(n - 1, low), v / P2n(n - 1) % 2 == 1);
            if n == 1 then front == [] && op.slot == base + 1 else |front| > 0 && Below(front[|front| - 1], op, base)
  {
    hide P2n;
  }

  /** The bits below `k` do not depend on what is above. */
  lemma {:induction false} LowBit(v: nat, i: nat, k: nat)
    requires i < k
    ensures BitSet(v % P2n(k), i) == BitSet(v, i)
    decreases i
  {
    hide BitSet, P2n;
    var w := v % P2n(k);
    assert P2n(k) == 2 * P2n(k - 1) by { PowerDoubles(k); }
    HalfRest(v, P2n(k - 1), P2n(k));
    if i == 0 {
      BitHere(v);
      BitHere(w);
    } else {
      LowBit(v / 2, i - 1, k - 1);
      BitAbove(v, i);
      BitAbove(w, i);
    }
  }

  lemma PowerDoubles(k: nat)
    requires k > 0
    ensures P2n(k) == 2 * P2n(k - 1)
  {
  }

  lemma HalfRest(v: nat, p: nat, d: nat)
    requires p > 0 && d == 2 * p
    ensures v % d / 2 == v / 2 % p && v % d % 2 == v % 2
  {
    Parts(v, d);
    var q, w := v / d, v % d;
    assert v == d * q + w;
    HalfRestFrom(v, p, d, q, w);
  }

  lemma Parts(v: nat, d: nat)
    requires d > 0
    ensures v == d * (v / d) + v % d && 0 <= v % d < d && 0 <= v / d
  {
  }

  lemma HalfRestFrom(v: nat, p: nat, d: nat, q: nat, w: nat)
    requires p > 0 && d == 2 * p && v == d * q + w && w < d
    ensures w / 2 == v / 2 % p && w % 2 == v % 2
  {
    MulAssoc(2, p, q);
    HalfRestOf(v, p, q, p * q, w);
  }

  lemma HalfRestOf(v: nat, p: nat, q: nat, pq: nat, w: nat)
    requires p > 0 && pq == p * q && v == 2 * pq + w && w < 2 * p
    ensures w / 2 == v / 2 % p && w % 2 == v % 2
  {
    var h, r := v / 2, w / 2;
    assert h == pq + r && r < p;
    DivIs(h, p, q, r);
    RestIs(h, p, q);
  }

  lemma RestIs(v: nat, d: nat, q: nat)
    requires d > 0 && v / d == q
    ensures v % d == v - d * q
  {
  }

  // ---------------------------------------------------------------------------------------------
  // Lengths and distances

  /** Lengths 2, 3 and 4 have a tree of distance slots each, and all longer ones share the fourth. */
  lemma DistContext(a: nat, b: nat, x: nat, y: nat)
    requires a >= 2 && b >= 2 && SlotOf(x) < 64 && SlotOf(y) < 64
    ensures DistOps(a, x) != [] && DistOps(b, y) != [] && DistOps(a, x)[0].Model? && DistOps(b, y)[0].Model?
    ensures DistOps(a, x)[0].slot == DistOps(b, y)[0].slot <==> a == b || (a >= 5 && b >= 5)
  {
    hide TreeOps, SlotOf, RestOps;
    SmallPowers();
    TreeDescends(DIST_SLOT + 64 * DistState(a), 6, 64 + SlotOf(x));
    TreeDescends(DIST_SLOT + 64 * DistState(b), 6, 64 + SlotOf(y));
  }

  /** The tree of slots begins with a decision of its length. */
  lemma SlotTree(len: nat, dist: nat)
    requires len >= 2 && SlotOf(dist) < 64
    ensures DistOps(len, dist) != [] && DistOps(len, dist)[0].Model?
    ensures DistOps(len, dist)[0].slot == DIST_SLOT + 1 + 64 * if len == 2 then 0 else if len == 3 then 1 else if len == 4 then 2 else 3
  {
    hide TreeOps, SlotOf, RestOps;
    SmallPowers();
    TreeDescends(DIST_SLOT + 64 * DistState(len), 6, 64 + SlotOf(dist));
  }

  /** The three ranges of lengths, and where the tree begins that tells the length within its range. */
  function LenRange(len: nat): (k: nat)
    ensures k < 3
  {
    if len < 10 then 0 else if len < 18 then 1 else 2
  }

  /** A length takes 4, 5 or 10 decisions, by its range; short and middle lengths have a tree for each place. */
  lemma LenContext(base: nat, p: nat, q: nat, a: nat, b: nat)
    requires p < 16 && q < 16 && 2 <= a <= 273 && 2 <= b <= 273
    ensures |LenOps(base, p, a)| == [4, 5, 10][LenRange(a)] && |LenOps(base, q, b)| == [4, 5, 10][LenRange(b)]
    ensures LenRoot(base, p, a) == LenRoot(base, q, b) <==> LenRange(a) == LenRange(b) && (p == q || LenRange(a) == 2)
    ensures base + 2 <= LenRoot(base, p, a) < base + 514
  {
    hide TreeOps;
    LenShape(base, p, a);
    LenShape(base, q, b);
  }

  /** The probability at the root of the tree that ends a length. */
  function LenRoot(base: nat, ps: nat, len: nat): int
    requires ps < 16 && 2 <= len <= 273
  {
    var ops := LenOps(base, ps, len);
    var k := if len < 10 then 1 else 2;
    if k < |ops| && ops[k].Model? then ops[k].slot else -1
  }

  lemma LenShape(base: nat, ps: nat, len: nat)
    requires ps < 16 && 2 <= len <= 273
    ensures |LenOps(base, ps, len)| == [4, 5, 10][LenRange(len)]
    ensures LenRoot(base, ps, len) == base + [3 + 8 * ps, 131 + 8 * ps, 259][LenRange(len)]
  {
    hide TreeOps;
    SmallPowers();
    if len < 10 {
      TreeDescends(base + 2 + 8 * ps, 3, 8 + len - 2);
    } else if len < 18 {
      TreeDescends(base + 130 + 8 * ps, 3, 8 + len - 10);
    } else {
      TreeDescends(base + 258, 8, 256 + len - 18);
    }
  }

  /** A slot is twice the place of the highest bit, and one more if the bit below is set. */
  lemma {:induction false} SlotIs(dist: nat, n: nat)
    requires n >= 1 && Pow(2, n) <= dist < Pow(2, n + 1)
    ensures SlotOf(dist) == 2 * n + if BitSet(dist, n - 1) then 1 else 0
  {
    hide BitSet;
    assert Pow(2, n) == 2 * Pow(2, n - 1) && Pow(2, n + 1) == 2 * Pow(2, n);
    if n == 1 {
      assert Pow(2, 1) == 2 && Pow(2, 2) == 4;
      assert SlotOf(dist) == dist;
      BitHere(dist);
    } else {
      assert Pow(2, n - 1) >= 2 by { assert Pow(2, n - 1) == 2 * Pow(2, n - 2); }
      SlotIs(dist / 2, n - 1);
      BitAbove(dist, n - 1);
    }
  }

  /** The tree for the low bits of a distance in one of the slots 4 to 13. */
  function SpecialStart(slot: nat): int
    requires slot >= 4
  {
    DIST_SPECIAL + SlotLow(slot) - slot
  }

  /** These trees follow one another and fill their array. */
  lemma SpecialTiled(slot: nat)
    requires 4 <= slot < 14
    ensures SpecialStart(4) == DIST_SPECIAL && SpecialStart(14) == DIST_ALIGN
    ensures SpecialStart(slot) + (P2n(SlotBits(slot)) - 1) == SpecialStart(slot + 1)
  {
    SmallPowers();
  }

  /** Distances below 128 are told by learned decisions alone, the others by even ones down to the last four bits. */
  lemma RestContext(dist: nat)
    ensures dist < 4 ==> RestOps(dist) == []
    ensures dist >= 4 ==> SlotOf(dist) >= 4 && |RestOps(dist)| == SlotBits(SlotOf(dist)) > 0
    ensures forall i :: 0 <= i < |RestOps(dist)| ==> (RestOps(dist)[i].Even? <==> dist >= 128 && i + 4 < |RestOps(dist)|)
    ensures 4 <= dist < 128 ==> RestOps(dist)[0].slot == SpecialStart(SlotOf(dist))
    ensures dist >= 128 ==> var n := |RestOps(dist)|; n > 4 && RestOps(dist)[n - 4].slot == DIST_ALIGN + 1
  {
    hide RevOps, EvenOps, SlotLow, P2n, SlotOf;
    if dist >= 4 {
      SlotSplit(dist);
      SlotLimit(dist);
      var slot, low := SlotOf(dist), dist - SlotLow(SlotOf(dist));
      if slot < 14 {
        ReverseDescends(DIST_SPECIAL + SlotLow(slot) - slot - 1, SlotBits(slot), low);
      } else {
        AllEven(SlotBits(slot) - 4, low / 16);
        ReverseDescends(DIST_ALIGN, 4, low % 16);
      }
    }
  }

  lemma {:induction false} AllEven(n: nat, v: nat)
    ensures |EvenOps(n, v)| == n && forall i :: 0 <= i < n ==> EvenOps(n, v)[i].Even? && (EvenOps(n, v)[i].bit <==> BitSet(v, n - 1 - i))
  {
    hide BitSet;
    if n > 0 {
      AllEven(n - 1, v / 2);
      BitHere(v);
      forall k: nat ensures BitSet(v, k + 1) == BitSet(v / 2, k) {
        BitAbove(v, k + 1);
      }
    }
  }

  /** Slot 14 begins at 128. */
  lemma SlotLimit(dist: nat)
    requires dist >= 4
    ensures SlotOf(dist) < 14 <==> dist < 128
  {
    hide SlotOf;
    var a := SlotOf(dist);
    SlotSplit(dist);
    SmallPowers();
    if a >= 14 {
      LowGrows(14, a);
    } else {
      LowGrows(a, 13);
    }
  }

  /** Slots rise with their distances. */
  lemma {:induction false} LowGrows(a: nat, b: nat)
    requires 4 <= a <= b
    ensures SlotLow(a) <= SlotLow(b) && SlotLow(a) + P2n(SlotBits(a)) <= SlotLow(b) + P2n(SlotBits(b))
  {
    if a < b {
      LowGrows(a, b - 1);
      hide P2n;
      NextSlot(b - 1);
    }
  }

  lemma NextSlot(slot: nat)
    requires slot >= 4
    ensures SlotLow(slot + 1) == SlotLow(slot) + P2n(SlotBits(slot)) && P2n(SlotBits(slot)) <= P2n(SlotBits(slot + 1))
  {
  }

  // ---------------------------------------------------------------------------------------------
  // Kinds and places

  /** The kind of a symbol is asked in the light of the last kinds and of the place modulo 2^pb. */
  lemma KindContext(props: Props, lz: Lz, sym: Symbol, lz': Lz, sym': Symbol)
    requires PropsValid(props) && Spellable(sym) && Spellable(sym')
    requires lz.state < 12 && (!IsLiteralState(lz.state) ==> lz.rep0 < |lz.hist|)
    requires lz'.state < 12 && (!IsLiteralState(lz'.state) ==> lz'.rep0 < |lz'.hist|)
    ensures SymbolOps(props, lz, sym) != [] && SymbolOps(props, lz', sym') != []
    ensures var a, b := SymbolOps(props, lz, sym)[0], SymbolOps(props, lz', sym')[0];
            && a.Model? && b.Model? && (a.bit <==> !sym.Literal?)
            && (a.slot == b.slot <==> lz.state == lz'.state && |lz.hist| % P2n(props.pb) == |lz'.hist| % P2n(props.pb))
  {
    hide LiteralOps, CopyOps, P2n;
  }

  /** Whether and which recent distance is used depends on the last kinds alone, the shortest copy on the place too. */
  lemma RepContext(state: nat, ps: nat, sym: Symbol, state': nat, ps': nat, sym': Symbol)
    requires state < 12 && ps < 16 && !sym.Literal? && Spellable(sym) && state' < 12 && ps' < 16 && !sym'.Literal? && Spellable(sym')
    ensures CopyOps(state, ps, sym)[0].Model? && CopyOps(state', ps', sym')[0].Model?
    ensures CopyOps(state, ps, sym)[0].bit <==> !sym.Match?
    ensures CopyOps(state, ps, sym)[0].slot == CopyOps(state', ps', sym')[0].slot <==> state == state'
    ensures !sym.Match? && !sym'.Match? ==>
              var a, b := CopyOps(state, ps, sym)[1], CopyOps(state', ps', sym')[1];
              a.Model? && b.Model? && (a.bit <==> sym.Rep? && sym.i > 0) && (a.slot == b.slot <==> state == state')
    ensures !sym.Match? && !sym'.Match? ==>
              var a, b := CopyOps(state, ps, sym)[2], CopyOps(state', ps', sym')[2];
              && a.Model? && b.Model?
              && (!(sym.Rep? && sym.i > 0) ==> (a.bit <==> sym.Rep?))
              && (a.slot == b.slot <==> state == state' && ((sym.Rep? && sym.i > 0) <==> (sym'.Rep? && sym'.i > 0))
                                        && (ps == ps' || (sym.Rep? && sym.i > 0)))
  {
    hide LenOps, DistOps;
  }

  /** The lc highest bits of the byte before, and the lp lowest bits of the place. */
  function HighBits(props: Props, h: seq<byte>): int
    requires PropsValid(props)
  {
    Back(h, 0) / P2n(8 - props.lc)
  }

  function LowBits(props: Props, h: seq<byte>): int {
    |h| % P2n(props.lp)
  }

  /** They choose the coder of a literal, and different coders share nothing. */
  lemma LiteralContext(props: Props, g: seq<byte>, h: seq<byte>)
    requires PropsValid(props)
    ensures LiteralBase(props, g) == LiteralBase(props, h) <==>
              HighBits(props, g) == HighBits(props, h) && LowBits(props, g) == LowBits(props, h)
    ensures LiteralBase(props, g) != LiteralBase(props, h) ==>
              LiteralBase(props, g) + 0x300 <= LiteralBase(props, h) || LiteralBase(props, h) + 0x300 <= LiteralBase(props, g)
  {
    hide P2n, HighBits, LowBits, LiteralBase;
    BaseIs(props, g);
    BaseIs(props, h);
    var m := P2n(props.lc);
    TwoDigits(HighBits(props, g), LowBits(props, g), HighBits(props, h), LowBits(props, h), m);
    EvenlySpaced(HighBits(props, g) + LowBits(props, g) * m, HighBits(props, h) + LowBits(props, h) * m);
  }

  lemma BaseIs(props: Props, h: seq<byte>)
    requires PropsValid(props)
    ensures LiteralBase(props, h) == LITERAL + 0x300 * (HighBits(props, h) + LowBits(props, h) * P2n(props.lc))
    ensures 0 <= HighBits(props, h) < P2n(props.lc) && 0 <= LowBits(props, h)
  {
    hide P2n, Back;
    HighBelow(props.lc, Back(h, 0));
  }

  lemma EvenlySpaced(i: int, j: int)
    ensures 0x300 * i == 0x300 * j <==> i == j
    ensures i != j ==> 0x300 * i + 0x300 <= 0x300 * j || 0x300 * j + 0x300 <= 0x300 * i
  {
  }

  lemma HighBelow(lc: nat, b: byte)
    requires lc <= 4
    ensures 0 <= b / P2n(8 - lc) < P2n(lc)
  {
    SmallPowers();
  }

  lemma TwoDigits(a: nat, b: nat, c: nat, d: nat, m: nat)
    requires a < m && c < m
    ensures a + b * m == c + d * m <==> a == c && b == d
  {
    if b < d {
      MulMono(m, b + 1, d);
    } else if d < b {
      MulMono(m, d + 1, b);
    }
  }

  /** The properties taken are exactly those for which sixteen literal coders and sixteen places are enough. */
  lemma PropsExactly(props: Props)
    requires props.lc <= 8 && props.lp <= 4
    ensures PropsValid(props) <==> P2n(props.pb) <= 16 && forall prev: byte, pos: nat :: Coder16(props, prev, pos) < 16
  {
    hide P2n;
    if PropsValid(props) {
      P2nMono(props.pb, 4);
      SmallPowers();
      forall prev: byte, pos: nat ensures Coder16(props, prev, pos) < 16 {
        CoderBelow16(props, prev, pos);
      }
    } else if props.pb > 4 {
      P2nMono(5, props.pb);
      SmallPowers();
    } else {
      TooManyCoders(props);
    }
  }

  lemma TooManyCoders(props: Props)
    requires props.lc <= 8 && props.lp <= 4 && props.lc + props.lp > 4
    ensures Coder16(props, 255, P2n(props.lp) - 1) >= 16
  {
    hide P2n;
    var a, b := P2n(props.lc), P2n(props.lp);
    AllHigh(props.lc);
    P2nAdd(props.lc, props.lp);
    P2nMono(5, props.lc + props.lp);
    assert P2n(5) == 32 by { SmallPowers(); }
    LastOf(b);
    MulSplit(a, b - 1, 1);
    Swap(a, b - 1);
  }

  lemma LastOf(b: nat)
    requires b > 0
    ensures (b - 1) % b == b - 1
  {
  }

  lemma Swap(a: int, b: int)
    ensures a * b == b * a
  {
  }

  lemma AllHigh(lc: nat)
    requires lc <= 8
    ensures 255 / P2n(8 - lc) == P2n(lc) - 1
  {
    SmallPowers();
  }

  lemma {:induction false} P2nAdd(a: nat, b: nat)
    ensures P2n(a) * P2n(b) == P2n(a + b)
  {
    if b > 0 {
      P2nAdd(a, b - 1);
      MulAssoc(P2n(a), 2, P2n(b - 1));
    }
  }

  /** A literal behind a copy follows the byte that the copy would have gone on with as long as their bits agree. */
  lemma {:induction false} MatchedContext(base: nat, mb: byte, n: nat, v: nat, k: nat)
    requires k < n <= 8 && v < P2n(n)
    ensures |MatchedOps(base, mb, n, v)| == n
    ensures var op, top := MatchedOps(base, mb, n, v)[k], v / P2n(n - k);
            && op.Model? && (op.bit <==> v / P2n(n - 1 - k) % 2 == 1)
            && op.slot - base == P2n(k) + top
                                 + if top == mb / P2n(8 - k) then 0x100 * (1 + mb / P2n(7 - k) % 2) else 0
  {
    hide P2n;
    assert P2n(n) == 2 * P2n(n - 1) && P2n(1) == 2 && P2n(0) == 1 by { SmallPowers(); PowerDoubles(n); }
    if k < n - 1 {
      MatchedContext(base, mb, n - 1, v / 2, k);
      HalfFirst(v, P2n(n - 1 - k));
      HalfFirst(v, P2n(n - 2 - k));
      PowerDoubles(n - k);
      PowerDoubles(n - 1 - k);
    } else {
      MatchedLength(base, mb, n - 1, v / 2);
    }
  }

  lemma {:induction false} MatchedLength(base: nat, mb: byte, n: nat, v: nat)
    requires n <= 8
    ensures |MatchedOps(base, mb, n, v)| == n
  {
    if n > 0 {
      MatchedLength(base, mb, n - 1, v / 2);
    }
  }

  // ---------------------------------------------------------------------------------------------
  // What the state and the recent distances remember

  const LIT_LIT := 0
  const MATCH_LIT_LIT := 1
  const REP_LIT_LIT := 2
  const SHORTREP_LIT_LIT := 3
  const MATCH_LIT := 4
  const REP_LIT := 5
  const SHORTREP_LIT := 6
  const LIT_MATCH := 7
  const LIT_LONGREP := 8
  const LIT_SHORTREP := 9
  const NONLIT_MATCH := 10
  const NONLIT_REP := 11

  /** How many literals stand at the end. */
  function Trail(syms: seq<Symbol>): (n: nat)
    ensures n <= |syms|
  {
    if syms == [] || !syms[|syms| - 1].Literal? then 0 else 1 + Trail(syms[..|syms| - 1])
  }

  /** The state by its name: the oldest of the last kinds first.  In the beginning it is as if literals had come before. */
  function NameOf(syms: seq<Symbol>): nat {
    var t := Trail(syms);
    if t == |syms| || t >= 3 then LIT_LIT else
      var x := |syms| - 1 - t;
      var kind, lit := syms[x], x == 0 || syms[x - 1].Literal?;
      if t == 0 then
        if lit then (if kind.Match? then LIT_MATCH else if kind.Rep? then LIT_LONGREP else LIT_SHORTREP)
        else if kind.Match? then NONLIT_MATCH else NONLIT_REP
      else if t == 1 then
        if kind.Match? then MATCH_LIT else if kind.ShortRep? && lit then SHORTREP_LIT else REP_LIT
      else
        if kind.Match? then MATCH_LIT_LIT else if kind.ShortRep? && lit then SHORTREP_LIT_LIT else REP_LIT_LIT
  }

  /** The state is the name of the last kinds of symbol. */
  lemma {:induction false} StateIsName(lz: Lz, syms: seq<Symbol>, window: nat)
    requires AllFit(lz, syms, window) && lz.state == LIT_LIT
    ensures ApplyAll(lz, syms, window).state == NameOf(syms)
    ensures IsLiteralState(NameOf(syms)) <==> syms == [] || syms[|syms| - 1].Literal?
  {
    hide NameOf, LzValid, Spellable, Reaches;
    if syms == [] {
      NoName();
    } else {
      var n := |syms| - 1;
      StateIsName(lz, syms[..n], window);
      NameNext(syms[..n], syms[n]);
      assert syms[..n] + [syms[n]] == syms;
    }
  }

  lemma NoName()
    ensures NameOf([]) == LIT_LIT
  {
  }

  lemma NameNext(front: seq<Symbol>, sym: Symbol)
    requires IsLiteralState(NameOf(front)) <==> front == [] || front[|front| - 1].Literal?
    ensures NameOf(front) < 12
    ensures NameOf(front + [sym]) == match sym
              case Literal(_) => AfterLiteral(NameOf(front))
              case Match(_, _) => AfterMatch(NameOf(front))
              case Rep(_, _) => AfterLongRep(NameOf(front))
              case ShortRep => AfterShortRep(NameOf(front))
    ensures IsLiteralState(NameOf(front + [sym])) <==> sym.Literal?
  {
    hide NameOf;
    if sym.Literal? {
      LiteralNext(front, sym);
    } else {
      CopyNext(front, sym);
    }
  }

  lemma LiteralNext(front: seq<Symbol>, sym: Symbol)
    requires sym.Literal?
    ensures NameOf(front) < 12 && NameOf(front + [sym]) == AfterLiteral(NameOf(front))
  {
    assert (front + [sym])[..|front|] == front;
    assert Trail(front + [sym]) == 1 + Trail(front);
    hide Trail;
    var t := Trail(front);
    if t < |front| {
      var x := |front| - 1 - t;
      assert (front + [sym])[x] == front[x];
      assert x > 0 ==> (front + [sym])[x - 1] == front[x - 1];
    }
  }

  lemma CopyNext(front: seq<Symbol>, sym: Symbol)
    requires !sym.Literal? && (IsLiteralState(NameOf(front)) <==> front == [] || front[|front| - 1].Literal?)
    ensures NameOf(front) < 12 && !IsLiteralState(NameOf(front + [sym]))
    ensures NameOf(front + [sym]) == if sym.Match? then AfterMatch(NameOf(front))
              else if sym.Rep? then AfterLongRep(NameOf(front)) else AfterShortRep(NameOf(front))
  {
    assert Trail(front + [sym]) == 0;
    assert NameOf(front) < 12 by { NameBelow12(front); }
    hide Trail;
    assert front != [] ==> (front + [sym])[|front| - 1] == front[|front| - 1];
  }

  lemma NameBelow12(syms: seq<Symbol>)
    ensures NameOf(syms) < 12
  {
    hide Trail;
  }

  function Recents(lz: Lz): seq<nat> {
    [lz.rep0, lz.rep1, lz.rep2, lz.rep3]
  }

  /** A new distance comes in front of the recent ones and the oldest is lost; one that is used again moves to the front. */
  lemma MovesToFront(lz: Lz, sym: Symbol)
    requires lz.state < 12 && Spellable(sym)
    ensures var r, r' := Recents(lz), Recents(Noted(lz, sym));
            match sym
            case Match(_, dist) => r' == [dist] + r[..3]
            case Rep(i, _) => r' == [r[i]] + r[..i] + r[i + 1..]
            case _ => r' == r
  {
  }

  /** `h'` is `h` and `n` more bytes, each the one that stands `dist + 1` places before it. */
  ghost predicate Repeats(h: seq<byte>, h': seq<byte>, dist: nat, n: nat) {
    |h'| == |h| + n && h'[..|h|] == h && forall k :: |h| <= k < |h'| && dist < k ==> h'[k] == h'[k - 1 - dist]
  }

  /** What each symbol does to the history. */
  lemma SymbolMeans(lz: Lz, sym: Symbol, window: nat)
    requires Fits(lz, sym, window)
    ensures var h, h' := lz.hist, Apply(lz, sym, window).hist;
            match sym
            case Literal(b) => h' == h + [b]
            case ShortRep => lz.rep0 < |h| && h' == h + [h[|h| - 1 - lz.rep0]]
            case Match(len, dist) => dist < |h| && Repeats(h, h', dist, len)
            case Rep(i, len) => Recents(lz)[i] < |h| && Repeats(h, h', Recents(lz)[i], len)
  {
    var n := Noted(lz, sym);
    MovesToFront(lz, sym);
    match sym
    case Literal(_) =>
    case ShortRep =>
      assert Copy(lz.hist, n.rep0, 0) == lz.hist;
    case Match(len, dist) => CopyRepeats(lz.hist, dist, len);
    case Rep(i, len) => CopyRepeats(lz.hist, n.rep0, len);
  }

  lemma CopyRepeats(h: seq<byte>, dist: nat, n: nat)
    requires dist < |h|
    ensures Repeats(h, Copy(h, dist, n), dist, n)
  {
    hide Copy;
    var r := Copy(h, dist, n);
    forall k | |h| <= k < |r| && dist < k ensures r[k] == r[k - 1 - dist] {
      CopyPeriodic(h, dist, n, k);
    }
  }
}
