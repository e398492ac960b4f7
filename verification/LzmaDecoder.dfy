/** The LZMA decoder: one symbol after another, from the range decoder into the dictionary. */
module LzmaDecoder {
  import opened Memory
  import opened Numbers
  import opened RangeCoder
  import opened LzmaCode
  import opened LzmaSymbols
  import LzmaContexts
  import opened Dictionary
  import opened RangeDecoder

  // ---------------------------------------------------------------------------------------------
  // Facts about masks and match bytes

  /** The ring is a multiple of sixteen long, so its positions agree with the history's in the low bits. */
  lemma PosBits(pos: nat, n: nat, k: nat)
    requires pos <= n && (n - pos) % 16 == 0 && k <= 4
    ensures n % P2n(k) == pos % P2n(k)
  {
    hide P2n;
    SmallPowers();
    var j := (n - pos) / 16;
    assert n == pos + 16 * j;
    if k == 0 {
      SameRest(pos, j, 1, 16);
    } else if k == 1 {
      SameRest(pos, j, 2, 8);
    } else if k == 2 {
      SameRest(pos, j, 4, 4);
    } else if k == 3 {
      SameRest(pos, j, 8, 2);
    } else {
      SameRest(pos, j, 16, 1);
    }
  }

  lemma SameRest(pos: nat, j: nat, m: nat, c: nat)
    requires m > 0 && m * c == 16
    ensures (pos + 16 * j) % m == pos % m
  {
    var q, r := pos / m, pos % m;
    MulAssoc(m, c, j);
    assert pos + 16 * j == m * q + m * (c * j) + r;
    assert m * q + m * (c * j) == m * (q + c * j);
    DivModUnique(pos + 16 * j, m, q + c * j, r);
  }

  function MatchBit(mb: nat, offset: nat): nat {
    if offset == 0 then 0 else 0x100 * (mb / 0x100 % 2)
  }

  lemma MatchBits(mb: byte, k: nat)
    requires k < 8
    ensures mb * P2n(k + 1) / 0x100 % 2 == mb / P2n(7 - k) % 2
    ensures mb / P2n(7 - k) == 2 * (mb / P2n(8 - k)) + mb / P2n(7 - k) % 2
  {
    hide P2n;
    var p, q := P2n(7 - k), P2n(k + 1);
    assert p * q == 0x100 && P2n(8 - k) == p * 2 by { ProductOfPowers(k); }
    ScaledDiv(mb, p, q);
    DivDiv(mb, p, 2);
  }

  lemma ProductOfPowers(k: nat)
    requires k < 8
    ensures P2n(7 - k) * P2n(k + 1) == 0x100 && P2n(8 - k) == P2n(7 - k) * 2
  {
    SmallPowers();
  }

  lemma ScaledDiv(v: nat, p: nat, q: nat)
    requires p > 0 && q > 0 && p * q > 0
    ensures v * q / (p * q) == v / p
  {
    var t, r := v / p, v % p;
    assert v == p * t + r;
    assert v * q == (p * q) * t + r * q by { Spread(p, t, r, q); }
    MulMono(q, r, p - 1);
    assert 0 <= r * q <= (p - 1) * q;
    assert (p - 1) * q == p * q - q;
    DivModUnique(v * q, p * q, t, r * q);
  }

  lemma Spread(p: int, t: int, r: int, q: int)
    ensures (p * t + r) * q == (p * q) * t + r * q
  {
    MulAssoc(p, q, t);
    MulAssoc(p, t, q);
  }

  /** Where the decision is taken, and how long the byte is followed. */
  lemma Follows(mb: byte, k: nat, v: nat, symbol: nat, matchByte: nat, offset: nat)
    requires k < 8 && v < P2n(k) && symbol == P2n(k) + v && matchByte == mb * P2n(k + 1)
    requires offset == if v == mb / P2n(8 - k) then 0x100 else 0
    ensures var matchBit := MatchBit(matchByte, offset);
            && offset + matchBit + symbol == MatchedSlot(mb, k, v) < 0x300
            && (k < 7 ==> (if matchBit == 0 then 0 else offset) == (if 2 * v + 1 == mb / P2n(7 - k) then 0x100 else 0))
            && (k < 7 ==> (if matchBit == 0 then offset else 0) == (if 2 * v == mb / P2n(7 - k) then 0x100 else 0))
  {
    hide P2n;
    P2nMono(k, 7);
    SmallPowers();
    MatchBits(mb, k);
  }

  lemma MatchedExtend(base: nat, mb: byte, k: nat, v: nat, bit: bool)
    requires k < 8
    ensures MatchedOps(base, mb, k + 1, 2 * v + if bit then 1 else 0)
         == MatchedOps(base, mb, k, v) + [Model(base + MatchedSlot(mb, k, v), bit)]
  {
  }

  class Lzma {
    const rc: Rc
    const dict: Dict
    var rep0: nat
    var rep1: nat
    var rep2: nat
    var rep3: nat
    var state: nat
    var len: nat
    var lc: nat
    var literalPosMask: nat
    var posMask: nat

    ghost var props: Props

    constructor (rc: Rc, dict: Dict)
      ensures this.rc == rc && this.dict == dict && state == 0 && len == 0 && rep0 == 0
      ensures MasksValid() && rep1 == rep2 == rep3 == 0
    {
      this.rc, this.dict := rc, dict;
      rep0, rep1, rep2, rep3, state, len := 0, 0, 0, 0, 0, 0;
      lc, literalPosMask, posMask, props := 0, 0, 0, Props(0, 0, 0);
    }

    ghost predicate MasksValid()
      reads this
    {
      && PropsValid(props) && lc == props.lc
      && literalPosMask == P2n(props.lp) - 1 && posMask == P2n(props.pb) - 1
    }

    ghost function View(): Lz
      reads this, dict
    {
      Lz(dict.hist, state, rep0, rep1, rep2, rep3)
    }

    ghost predicate Ready()
      reads this, dict, dict.buf
    {
      MasksValid() && dict.Valid() && LzValid(View(), dict.end)
    }

    /** `lzma_literal_probs` */
    method LiteralProbs() returns (base: nat)
      requires Ready()
      ensures base == LiteralBase(props, dict.hist) && base + 0x300 <= PROBS_TOTAL
    {
      hide P2n;
      var prev := dict.Get(0);
      ghost var h := dict.hist;
      PosBits(dict.pos, |h|, props.lp);
      SmallPowers();
      var low := prev / Power(8 - lc);
      var high := dict.pos % (literalPosMask + 1) * Power(lc);
      CoderBelow16(props, prev, |h|);
      base := LITERAL + 0x300 * (low + high);
    }

    /** `lzma_literal`: one byte, with the help of the byte a match would have continued with. */
    method Literal() returns (ghost b: byte)
      requires Ready() && rc.Valid() && rc.Room(8) && dict.pos < dict.end
      modifies this`state, dict`pos, dict`full, dict`hist, dict.buf
      modifies rc`range, rc`code, rc`inPos, rc`probs, rc`ops, rc`m, rc`d
      ensures rc.Valid() && Ready()
      ensures rc.ops == old(rc.ops) + LiteralOps(props, old(View()), b)
      ensures rc.m == old(rc.m) + 8 && rc.d == old(rc.d)
      ensures View() == old(View()).(hist := old(dict.hist) + [b], state := AfterLiteral(old(state)))
      ensures dict.pos == old(dict.pos) + 1
    {
      hide P2n, TreeOps, MatchedOps, LiteralBase, Rc.Valid, Dict.Valid;
      SmallPowers();
      var base := LiteralProbs();
      var symbol;
      if IsLiteralState(state) {
        symbol := rc.BitTree(base, 8, 0x100);
      } else {
        symbol := MatchedLiteral(base);
      }
      b := symbol - 0x100;
      dict.Put(symbol % 0x100);
      state := if state <= 3 then 0 else if state <= 9 then state - 3 else state - 6;
    }

    /** The loop of `lzma_literal` that follows the match byte as long as the bits agree. */
    method MatchedLiteral(base: nat) returns (symbol: nat)
      requires Ready() && rc.Valid() && rc.Room(8) && !IsLiteralState(state) && base + 0x300 <= PROBS_TOTAL
      modifies rc`range, rc`code, rc`inPos, rc`probs, rc`ops, rc`m, rc`d
      ensures rc.Valid() && 0x100 <= symbol < 0x200
      ensures rc.ops == old(rc.ops) + MatchedOps(base, Back(dict.hist, rep0), 8, symbol - 0x100)
      ensures rc.m == old(rc.m) + 8 && rc.d == old(rc.d)
    {
      hide Rc.Valid, MatchedOps, P2n, MatchedSlot, MatchBit;
      var mb := dict.Get(rep0);
      symbol := 1;
      var matchByte, offset := mb * 2, 0x100;
      ghost var k: nat, v: nat := 0, 0;
      SmallPowers();
      MatchedNone(base, mb);
      while symbol < 0x100
        invariant rc.Valid() && k <= 8 && rc.m == old(rc.m) + k && rc.d == old(rc.d)
        invariant v < P2n(k) && symbol == P2n(k) + v && (k < 8 ==> matchByte == mb * P2n(k + 1))
        invariant k < 8 ==> offset == if v == mb / P2n(8 - k) then 0x100 else 0
        invariant rc.ops == old(rc.ops) + MatchedOps(base, mb, k, v)
        decreases 8 - k
      {
        P2nMono(k, 7);
        var matchBit := MatchBit(matchByte, offset);
        Follows(mb, k, v, symbol, matchByte, offset);
        matchByte := 2 * matchByte;
        var i := offset + matchBit + symbol;
        var bit := rc.Bit(base + i);
        MatchedExtend(base, mb, k, v, bit);
        if bit {
          symbol := 2 * symbol + 1;
          offset := if matchBit == 0 then 0 else offset;
        } else {
          symbol := 2 * symbol;
          offset := if matchBit == 0 then offset else 0;
        }
        MatchedStep(mb, k);
        v := 2 * v + if bit then 1 else 0;
        k := k + 1;
      }
      P2nMono(k, 8);
      AtEight(k);
    }

    /** `lzma_len` */
    method Len(base: nat, ps: nat)
      requires rc.Valid() && rc.Room(10) && ps < 16 && base + 514 <= PROBS_TOTAL
      modifies this`len, rc`range, rc`code, rc`inPos, rc`probs, rc`ops, rc`m, rc`d
      ensures rc.Valid() && 2 <= len <= 273
      ensures rc.ops == old(rc.ops) + LenOps(base, ps, len)
      ensures rc.m <= old(rc.m) + 10 && rc.d == old(rc.d)
    {
      hide Rc.Valid, P2n, TreeOps;
      SmallPowers();
      ghost var at := rc.ops;
      var slots, limit;
      ghost var n;
      var choice := rc.Bit(base);
      if !choice {
        slots, limit, n := base + 2 + 8 * ps, 8, 3;
        len := 2;
      } else {
        var choice2 := rc.Bit(base + 1);
        if !choice2 {
          slots, limit, n := base + 130 + 8 * ps, 8, 3;
          len := 2 + 8;
        } else {
          slots, limit, n := base + 258, 256, 8;
          len := 2 + 8 + 8;
        }
      }
      ghost var mid := rc.ops;
      var symbol := rc.BitTree(slots, n, limit);
      len := len + symbol - limit;
      LenJoins(at, mid, base, ps, len);
    }

    /** `lzma_match`: a length and a new distance, which becomes the most recent one. */
    method Match(ps: nat)
      requires rc.Valid() && rc.m == 2 && rc.d == 0 && ps < 16 && state < 12
      modifies this`len, this`state, this`rep0, this`rep1, this`rep2, this`rep3
      modifies rc`range, rc`code, rc`inPos, rc`probs, rc`ops, rc`m, rc`d
      ensures rc.Valid() && 2 <= len <= 273 && rep0 < WORD
      ensures rc.ops == old(rc.ops) + (LenOps(MATCH_LEN, ps, len) + DistOps(len, rep0))
      ensures rep1 == old(rep0) && rep2 == old(rep1) && rep3 == old(rep2) && state == AfterMatch(old(state))
      ensures var k := |old(rc.ops)| + |LenOps(MATCH_LEN, ps, len)|;
              && k < |rc.ops| && rc.ops[k].Model?
              && rc.ops[k].slot == DIST_SLOT + 1 + 64 * if len == 2 then 0 else if len == 3 then 1 else if len == 4 then 2 else 3
    {
      hide Rc.Valid, P2n, TreeOps, LenOps, RestOps;
      state := if state < 7 then 7 else 10;
      rep3 := rep2;
      rep2 := rep1;
      rep1 := rep0;
      Len(MATCH_LEN, ps);
      SmallPowers();
      ghost var at := rc.ops;
      var symbol := rc.BitTree(DIST_SLOT + 64 * DistState(len), 6, 64);
      Distance(symbol - 64);
      assert rc.ops == at + DistOps(len, rep0);
      LzmaContexts.SlotTree(len, rep0);
      assert rc.ops[|at|] == DistOps(len, rep0)[0];
    }

    /** The part of `lzma_match` behind the distance slot. */
    method Distance(slot: nat)
      requires rc.Valid() && rc.m <= 18 && rc.d == 0 && slot < 64
      modifies this`rep0, rc`range, rc`code, rc`inPos, rc`probs, rc`ops, rc`m, rc`d
      ensures rc.Valid() && rep0 < WORD && SlotOf(rep0) == slot
      ensures rc.ops == old(rc.ops) + RestOps(rep0)
    {
      hide Rc.Valid, P2n, RevOps, EvenOps, LowOps, RestOps;
      if slot < 4 {
        rep0 := slot;
        ShortRest(slot);
      } else {
        var limit := slot / 2 - 1;
        rep0 := 2 + slot % 2;
        if slot < 14 {
          SpecialInside(slot);
          rep0 := rep0 * Power(limit);
          var low := rc.BitTreeReverse(DIST_SPECIAL + rep0 - slot - 1, limit);
          rep0 := rep0 + low;
          LowSpecial(slot, low);
          RestIs(slot, low);
        } else {
          AlignedDistance(slot, limit);
        }
      }
    }

    /** Even bits and four modelled ones below a distance's two highest bits. */
    method AlignedDistance(slot: nat, limit: nat)
      requires rc.Valid() && rc.m <= 18 && rc.d == 0 && 14 <= slot < 64 && limit == slot / 2 - 1 && rep0 == 2 + slot % 2
      modifies this`rep0, rc`range, rc`code, rc`inPos, rc`probs, rc`ops, rc`m, rc`d
      ensures rc.Valid() && rep0 < WORD && SlotOf(rep0) == slot
      ensures rc.ops == old(rc.ops) + RestOps(rep0)
    {
      hide Rc.Valid, P2n, RevOps, EvenOps, LowOps, RestOps, SlotOf;
      SmallPowers();
      ghost var at := rc.ops;
      ghost var v;
      rep0, v := rc.Direct(rep0, limit - 4);
      rep0 := rep0 * 16;
      var low := rc.BitTreeReverse(DIST_ALIGN, 4);
      rep0 := rep0 + low;
      LowAligned(slot, v, low);
      RestIs(slot, 16 * v + low);
      Regroup(at, [], EvenOps(limit - 4, v), RevOps(DIST_ALIGN, 4, low));
    }

    /** `lzma_rep_match`: one of the four recent distances, which becomes the most recent one. */
    method RepMatch(ps: nat) returns (ghost sym: Symbol)
      requires rc.Valid() && rc.m == 2 && rc.d == 0 && ps < 16 && state < 12
      modifies this`len, this`state, this`rep0, this`rep1, this`rep2, this`rep3
      modifies rc`range, rc`code, rc`inPos, rc`probs, rc`ops, rc`m, rc`d
      ensures rc.Valid() && (sym.Rep? || sym.ShortRep?) && Spellable(sym) && len == CopyLength(sym)
      ensures rc.ops == old(rc.ops) + RepOps(old(state), ps, sym)
      ensures View() == Noted(old(View()), sym)
    {
      hide Rc.Valid, LenOps, OlderOps;
      ghost var at, st := rc.ops, state;
      var older := rc.Bit(IS_REP0 + state);
      if !older {
        var long := rc.Bit(IS_REP0_LONG + 16 * state + ps);
        if !long {
          state := if state < 7 then 9 else 11;
          len := 1;
          sym := ShortRep;
          RepJoins(at, st, ps, sym);
          return;
        }
        RepTail(ps);
        sym := Rep(0, len);
        RepJoins(at, st, ps, sym);
      } else {
        ghost var i := Older();
        RepTail(ps);
        sym := Rep(i, len);
        OlderJoins(at + [Model(IS_REP0 + st, true)], st, ps, sym);
        RepJoins(at, st, ps, sym);
      }
    }

    /** The end of `lzma_rep_match`, which every long repeat shares. */
    method RepTail(ps: nat)
      requires rc.Valid() && rc.m <= 5 && rc.d == 0 && ps < 16 && state < 12
      modifies this`len, this`state, rc`range, rc`code, rc`inPos, rc`probs, rc`ops, rc`m, rc`d
      ensures rc.Valid() && 2 <= len <= 273 && state == AfterLongRep(old(state))
      ensures rc.ops == old(rc.ops) + LenOps(REP_LEN, ps, len)
    {
      state := if state < 7 then 8 else 11;
      Len(REP_LEN, ps);
    }

    /** Which of the three older distances it is; they move down behind it. */
    method Older() returns (ghost i: nat)
      requires rc.Valid() && rc.m == 3 && rc.d == 0 && state < 12
      modifies this`rep0, this`rep1, this`rep2, this`rep3
      modifies rc`range, rc`code, rc`inPos, rc`probs, rc`ops, rc`m, rc`d
      ensures rc.Valid() && 1 <= i <= 3 && rc.m <= 5 && rc.d == 0
      ensures rc.ops == old(rc.ops) + OlderBits(state, i)
      ensures i == 1 ==> View() == old(View()).(rep0 := old(rep1), rep1 := old(rep0))
      ensures i == 2 ==> View() == old(View()).(rep0 := old(rep2), rep1 := old(rep0), rep2 := old(rep1))
      ensures i == 3 ==> View() == old(View()).(rep0 := old(rep3), rep1 := old(rep0), rep2 := old(rep1), rep3 := old(rep2))
    {
      hide Rc.Valid;
      var tmp;
      var second := rc.Bit(IS_REP1 + state);
      if !second {
        tmp, i := rep1, 1;
      } else {
        var third := rc.Bit(IS_REP2 + state);
        if !third {
          tmp, i := rep2, 2;
        } else {
          tmp, i := rep3, 3;
          rep3 := rep2;
        }
        rep2 := rep1;
      }
      rep1 := rep0;
      rep0 := tmp;
    }

    /** `pos_state` */
    method PosStateNow() returns (ps: nat)
      requires Ready()
      ensures ps == PosState(props, dict.hist)
    {
      hide P2n, Dict.Valid;
      DictShape();
      PosBits(dict.pos, |dict.hist|, props.pb);
      ps := dict.pos % (posMask + 1);
    }

    /** The rest of a symbol that is not a literal. */
    method CopySymbol(ps: nat) returns (ghost sym: Symbol)
      requires rc.Valid() && rc.m == 1 && rc.d == 0 && ps < 16 && state < 12
      modifies this`len, this`state, this`rep0, this`rep1, this`rep2, this`rep3
      modifies rc`range, rc`code, rc`inPos, rc`probs, rc`ops, rc`m, rc`d
      ensures rc.Valid() && !sym.Literal? && Spellable(sym) && len == CopyLength(sym)
      ensures rc.ops == old(rc.ops) + CopyOps(old(state), ps, sym)
      ensures View() == Noted(old(View()), sym)
    {
      hide Rc.Valid, LenOps, DistOps, RepOps;
      ghost var at := rc.ops;
      var rep := rc.Bit(IS_REP + state);
      if rep {
        sym := RepMatch(ps);
        Regroup(at, [], [Model(IS_REP + old(state), true)], RepOps(old(state), ps, sym));
      } else {
        Match(ps);
        sym := Symbol.Match(len, rep0);
        Regroup(at, [], [Model(IS_REP + old(state), false)], LenOps(MATCH_LEN, ps, len) + DistOps(len, rep0));
      }
    }

    /** The symbol that the next iteration of `lzma_main` reads; a literal is also written. */
    method NextSymbol() returns (copy: bool, ghost sym: Symbol)
      requires Ready() && rc.Valid() && rc.ops == [] && rc.m == 0 && rc.d == 0 && dict.pos < dict.end && len == 0
      modifies this`len, this`state, this`rep0, this`rep1, this`rep2, this`rep3
      modifies dict`pos, dict`full, dict`hist, dict.buf
      modifies rc`range, rc`code, rc`inPos, rc`probs, rc`ops, rc`m, rc`d
      ensures rc.Valid() && dict.Valid() && Spellable(sym) && copy == !sym.Literal? && len == CopyLength(sym)
      ensures rc.ops == SymbolOps(props, old(View()), sym)
      ensures copy ==> View() == Noted(old(View()), sym) && dict.pos == old(dict.pos)
      ensures !copy ==> Ready() && View() == Apply(old(View()), sym, dict.end) && dict.pos == old(dict.pos) + 1
    {
      hide Rc.Valid, Dict.Valid, CopyOps, LiteralOps, PosState;
      var ps := PosStateNow();
      copy := rc.Bit(IS_MATCH + 16 * state + ps);
      assert rc.ops == [Model(IS_MATCH + 16 * state + ps, copy)];
      if !copy {
        ghost var b := Literal();
        sym := Symbol.Literal(b);
      } else {
        sym := CopySymbol(ps);
      }
    }

    lemma DictShape()
      requires dict.Valid()
      ensures dict.pos <= |dict.hist| && (|dict.hist| - dict.pos) % 16 == 0 && dict.limit <= dict.end
    {
    }

    /** The distance of an unfinished copy is known to be good. */
    ghost predicate Pending()
      reads this, dict
    {
      len > 0 ==> Reaches(dict.hist, rep0, dict.end)
    }

    /** Where the decoder stands once the copy it has begun is finished. */
    ghost function Ahead(): Lz
      requires Pending()
      reads this, dict
    {
      if len == 0 then View() else View().(hist := Copy(dict.hist, rep0, len))
    }

    /** A whole symbol, with what it cost. */
    method ReadSymbol() returns (copy: bool, ghost sym: Symbol)
      requires Ready() && Sound(rc.Now()) && |rc.probs| == PROBS_TOTAL && rc.inPos + 21 <= |rc.input|
      requires dict.pos < dict.limit && len == 0
      modifies this`len, this`state, this`rep0, this`rep1, this`rep2, this`rep3
      modifies dict`pos, dict`full, dict`hist, dict.buf
      modifies rc`range, rc`code, rc`inPos, rc`probs, rc`ops, rc`m, rc`d, rc`origin
      ensures dict.Valid() && |rc.probs| == PROBS_TOTAL && Spells(old(rc.Now()), props, old(View()), sym, rc.input)
      ensures After(old(rc.Now()), SymbolOps(props, old(View()), sym), rc.input) == rc.Now()
      ensures Normalize(rc.Now(), rc.input).pos <= old(rc.inPos) + 21 && rc.inPos <= old(rc.inPos) + 20
      ensures copy == !sym.Literal? && len == CopyLength(sym)
      ensures copy ==> View() == Noted(old(View()), sym) && dict.pos == old(dict.pos)
      ensures !copy ==> Ready() && View() == Apply(old(View()), sym, dict.end) && dict.pos == old(dict.pos) + 1
    {
      hide Rc.Valid, Dict.Valid, SymbolOps, Takes, Apply, Noted;
      DictShape();
      rc.Begin();
      copy, sym := NextSymbol();
      RcUnfold(old(rc.Now()));
      SymbolIsShort(old(rc.Now()), props, old(View()), sym, rc.input);
    }

    /** Repeat as much of the copy of `len` bytes as the limit allows. */
    method Repeat() returns (ok: bool)
      requires dict.Valid() && dict.pos < dict.limit && len > 0
      modifies this`len, dict`pos, dict`full, dict`hist, dict.buf
      ensures dict.Valid() && (ok <==> Reaches(old(dict.hist), rep0, dict.end))
      ensures !ok ==> len == old(len) && dict.hist == old(dict.hist)
      ensures ok ==> Pending() && Ahead().hist == Copy(old(dict.hist), rep0, old(len)) && |old(dict.hist)| < |dict.hist|
      ensures ok ==> old(dict.pos) < dict.pos <= dict.limit && (dict.pos < dict.limit ==> len == 0)
    {
      hide Dict.Valid, Copy;
      var left;
      ok, left := dict.Repeat(len, rep0);
      if ok {
        CopySplit(old(dict.hist), rep0, len - left, left);
        len := left;
      }
    }

    /** One iteration of `lzma_main`: a symbol is read and carried out as far as the limit allows. */
    method Round() returns (ok: bool, ghost sym: Symbol)
      requires Ready() && Sound(rc.Now()) && |rc.probs| == PROBS_TOTAL && rc.inPos + 21 <= |rc.input|
      requires dict.pos < dict.limit && len == 0
      modifies this`len, this`state, this`rep0, this`rep1, this`rep2, this`rep3
      modifies dict`pos, dict`full, dict`hist, dict.buf
      modifies rc`range, rc`code, rc`inPos, rc`probs, rc`ops, rc`m, rc`d, rc`origin
      ensures dict.Valid() && |rc.probs| == PROBS_TOTAL && Spells(old(rc.Now()), props, old(View()), sym, rc.input)
      ensures After(old(rc.Now()), SymbolOps(props, old(View()), sym), rc.input) == rc.Now()
      ensures Normalize(rc.Now(), rc.input).pos <= old(rc.inPos) + 21 && rc.inPos <= old(rc.inPos) + 20
      ensures ok <==> Fits(old(View()), sym, dict.end)
      ensures ok ==> Ready() && Pending() && Ahead() == Apply(old(View()), sym, dict.end)
      ensures ok ==> old(dict.pos) < dict.pos <= dict.limit && (dict.pos < dict.limit ==> len == 0)
    {
      hide Rc.Valid, Dict.Valid, SymbolOps, Takes, Normalize, Copy;
      var copy;
      copy, sym := ReadSymbol();
      ok := true;
      if copy {
        ok := Repeat();
      }
    }

    lemma RcUnfold(c: Coder)
      requires rc.Valid() && rc.origin == c
      ensures Takes(c, rc.ops, rc.input) && After(c, rc.ops, rc.input) == rc.Now() && |rc.probs| == PROBS_TOTAL == |c.probs|
    {
      hide Takes;
    }

    /** A copy that the limit cut off goes on. */
    method FinishPending()
      requires Ready() && Pending() && dict.pos <= dict.limit
      modifies this`len, dict`pos, dict`full, dict`hist, dict.buf
      ensures Ready() && Pending() && Ahead() == old(Ahead())
      ensures old(dict.pos) <= dict.pos <= dict.limit && (dict.pos < dict.limit ==> len == 0)
    {
      hide Dict.Valid, Copy, LzValid;
      var space := dict.HasSpace();
      if space && len > 0 {
        var repeated := Repeat();
        LzLonger(old(View()), dict.hist, dict.end);
      }
    }

    /**
     * `lzma_main`: finish a pending copy, then decode symbols until the dictionary limit or the input
     * limit is reached.  The input must reach 21 bytes beyond its limit; nothing behind that is read.
     */
    method RunSymbols() returns (ok: bool, ghost syms: seq<Symbol>, ghost bad: Symbol, ghost last: Coder)
      requires Ready() && Pending() && Sound(rc.Now()) && |rc.probs| == PROBS_TOTAL && TOP <= rc.range
      requires rc.inPos <= rc.inLimit && rc.inLimit + 21 <= |rc.input| && dict.pos <= dict.limit
      modifies this`len, this`state, this`rep0, this`rep1, this`rep2, this`rep3
      modifies dict`pos, dict`full, dict`hist, dict.buf
      modifies rc`range, rc`code, rc`inPos, rc`probs, rc`ops, rc`m, rc`d, rc`origin
      ensures dict.Valid() && |rc.probs| == PROBS_TOTAL && rc.inPos <= rc.inLimit + 21
      ensures ok ==> Ready() && Pending() && Sound(rc.Now()) && TOP <= rc.range
      ensures ok ==> Sound(last) && rc.Now() == Normalize(last, rc.input)
      ensures ok ==> Decoded(props, dict.end, rc.input, old(rc.Now()), old(Ahead()), syms, last, Ahead())
      ensures ok ==> old(dict.pos) <= dict.pos <= dict.limit && (dict.pos < dict.limit ==> rc.inPos > rc.inLimit && len == 0)
      ensures ok && old(dict.pos) < dict.limit ==> old(dict.pos) < dict.pos
      ensures ok ==> Wanted(old(Ahead()), syms, dict.end, |old(dict.hist)| + (dict.limit - old(dict.pos)))
      ensures !ok ==> Blocked(props, dict.end, rc.input, old(rc.Now()), old(Ahead()), syms, bad,
                              |old(dict.hist)| + (dict.limit - old(dict.pos)), rc.inLimit + 21)
    {
      hide Dict.Valid, Normalize, Copy, Spells, Fits, Apply, LzValid, Sound, Decoded, Blocked, Wanted, SymbolOps, Takes, MasksValid;
      ghost var lz0, c0 := Ahead(), rc.Now();
      AlreadyNormal(c0, rc.input);
      syms, bad := [], ShortRep;
      ReadyFacts();
      DecodedNone(props, dict.end, rc.input, c0, lz0);
      WantedNone(lz0, dict.end, |dict.hist| + (dict.limit - dict.pos));
      ghost var room := |dict.hist| + (dict.limit - dict.pos);
      dict.Lengths();
      FinishPending();
      while dict.pos < dict.limit && !(rc.inPos > rc.inLimit)
        invariant Ready() && Pending() && Sound(rc.Now()) && |rc.probs| == PROBS_TOTAL
        invariant old(dict.pos) <= dict.pos <= dict.limit && (dict.pos < dict.limit ==> len == 0)
        invariant dict.pos == old(dict.pos) ==> rc.inPos <= rc.inLimit
        invariant Normalize(rc.Now(), rc.input).pos <= rc.inLimit + 21
        invariant Decoded(props, dict.end, rc.input, c0, lz0, syms, rc.Now(), Ahead())
        invariant Wanted(lz0, syms, dict.end, room)
        decreases dict.limit - dict.pos
      {
        ghost var c, lz := rc.Now(), View();
        ghost var sym;
        dict.Lengths();
        ok, sym := Round();
        if !ok {
          bad := sym;
          BlockedBy(props, dict.end, rc.input, c0, lz0, syms, c, lz, sym, room, rc.inLimit + 21);
          last := rc.Now();
          return false, syms, bad, last;
        }
        DecodedOne(props, dict.end, rc.input, c0, lz0, syms, c, lz, sym);
        WantedOne(props, dict.end, rc.input, c0, lz0, syms, c, lz, sym, room);
        syms := syms + [sym];
      }
      last := rc.Now();
      MayNormalize(last, rc.input);
      rc.NormalizeRange();
      ok := true;
    }

    lemma ReadyFacts()
      requires Ready() && Pending()
      ensures PropsValid(props) && LzValid(Ahead(), dict.end) && dict.limit <= dict.end
    {
    }
  }

  lemma MatchedNone(base: nat, mb: byte)
    ensures MatchedOps(base, mb, 0, 0) == []
  {
  }

  lemma MatchedStep(mb: nat, k: nat)
    ensures P2n(k + 1) == 2 * P2n(k) && mb * P2n(k + 2) == 2 * (mb * P2n(k + 1))
  {
  }

  lemma AtEight(k: nat)
    requires k <= 8
    ensures k < 8 ==> P2n(k) <= 128
  {
    if k < 8 {
      P2nMono(k, 7);
      SmallPowers();
    }
  }

  function Power(n: nat): (p: nat)
    ensures p == P2n(n) && p >= 1
  {
    P2n(n)
  }

  /** The decisions that name one of the three older distances. */
  function OlderBits(state: nat, i: nat): seq<Choice> {
    if i == 1 then [Model(IS_REP1 + state, false)] else [Model(IS_REP1 + state, true), Model(IS_REP2 + state, i == 3)]
  }

  lemma OlderJoins(at: seq<Choice>, state: nat, ps: nat, sym: Symbol)
    requires state < 12 && ps < 16 && sym.Rep? && Spellable(sym) && sym.i > 0
    ensures at + OlderBits(state, sym.i) + LenOps(REP_LEN, ps, sym.rlen) == at + OlderOps(state, ps, sym)
  {
    hide LenOps;
    var tail := LenOps(REP_LEN, ps, sym.rlen);
    if sym.i == 1 {
      Regroup(at, [], [Model(IS_REP1 + state, false)], tail);
    } else {
      var x, y := Model(IS_REP1 + state, true), Model(IS_REP2 + state, sym.i == 3);
      assert [x, y] == [x] + [y] && at + ([x] + [y]) == at + [x] + [y];
      Regroup(at, [x], [y], tail);
    }
  }

  lemma RepJoins(at: seq<Choice>, state: nat, ps: nat, sym: Symbol)
    requires state < 12 && ps < 16 && (sym.Rep? || sym.ShortRep?) && Spellable(sym)
    ensures var next := at + [Model(IS_REP0 + state, !Newest(sym))];
            var both := next + [Model(IS_REP0_LONG + 16 * state + ps, sym.Rep?)];
            at + RepOps(state, ps, sym) ==
              if sym.ShortRep? then both
              else if sym.i == 0 then both + LenOps(REP_LEN, ps, sym.rlen)
              else next + OlderOps(state, ps, sym)
  {
    hide LenOps, OlderOps;
  }

  lemma LenJoins(at: seq<Choice>, mid: seq<Choice>, base: nat, ps: nat, len: nat)
    requires 2 <= len <= 273 && ps < 16
    ensures len < 10 && mid == at + [Model(base, false)] ==>
              mid + TreeOps(base + 2 + 8 * ps, 8 + len - 2) == at + LenOps(base, ps, len)
    ensures 10 <= len < 18 && mid == at + [Model(base, true)] + [Model(base + 1, false)] ==>
              mid + TreeOps(base + 130 + 8 * ps, 8 + len - 10) == at + LenOps(base, ps, len)
    ensures 18 <= len && mid == at + [Model(base, true)] + [Model(base + 1, true)] ==>
              mid + TreeOps(base + 258, 256 + len - 18) == at + LenOps(base, ps, len)
  {
    hide TreeOps;
    if len < 10 {
      Regroup(at, [], [Model(base, false)], TreeOps(base + 2 + 8 * ps, 8 + len - 2));
    } else if len < 18 {
      Regroup(at, [Model(base, true)], [Model(base + 1, false)], TreeOps(base + 130 + 8 * ps, 8 + len - 10));
    } else {
      Regroup(at, [Model(base, true)], [Model(base + 1, true)], TreeOps(base + 258, 256 + len - 18));
    }
  }

  lemma Regroup<T>(a: seq<T>, b: seq<T>, c: seq<T>, d: seq<T>)
    ensures a + b + c + d == a + (b + (c + d)) && a + c + d == a + (c + d)
  {
  }

  lemma ShortRest(dist: nat)
    requires dist < 4
    ensures SlotOf(dist) == dist && RestOps(dist) == []
  {
  }

  lemma RestIs(slot: nat, low: nat)
    requires 4 <= slot < 64 && low < P2n(SlotBits(slot))
    ensures SlotOf(SlotLow(slot) + low) == slot && SlotLow(slot) + low < WORD
    ensures RestOps(SlotLow(slot) + low) == LowOps(slot, low)
  {
    hide P2n, LowOps;
    SlotRound(slot, low);
    P2nMono(SlotBits(slot), 30);
    BigPower();
    SlotSmall(SlotLow(slot) + low);
  }

  lemma LowSpecial(slot: nat, low: nat)
    requires 4 <= slot < 14
    ensures LowOps(slot, low) == RevOps(DIST_SPECIAL + SlotLow(slot) - slot - 1, SlotBits(slot), low)
  {
  }

  lemma LowAligned(slot: nat, v: nat, low: nat)
    requires 14 <= slot && v < P2n(SlotBits(slot) - 4) && low < 16
    ensures LowOps(slot, 16 * v + low) == EvenOps(SlotBits(slot) - 4, v) + RevOps(DIST_ALIGN, 4, low)
    ensures 16 * v + low < P2n(SlotBits(slot))
    ensures ((2 + slot % 2) * P2n(SlotBits(slot) - 4) + v) * 16 + low == SlotLow(slot) + (16 * v + low)
  {
    hide EvenOps, RevOps, P2n;
    Sixteenths(SlotBits(slot) - 4);
  }

  // ---------------------------------------------------------------------------------------------
  // What a run of the decoder has established

  /** From `c0` and `lz0` the input spells `syms`, which end at `c` and `lz`. */
  ghost predicate Decoded(props: Props, window: nat, input: seq<byte>, c0: Coder, lz0: Lz, syms: seq<Symbol>, c: Coder, lz: Lz) {
    && PropsValid(props) && AllFit(lz0, syms, window)
    && Takes(c0, AllOps(props, lz0, syms, window), input)
    && After(c0, AllOps(props, lz0, syms, window), input) == c
    && ApplyAll(lz0, syms, window) == lz
  }

  /**
   From `c0` and `lz0` the input spells `syms` and then a copy from outside the window, before the
   history has `room` bytes and without a look at any byte from `reach` on.
   */
  ghost predicate Blocked(props: Props, window: nat, input: seq<byte>, c0: Coder, lz0: Lz, syms: seq<Symbol>, bad: Symbol,
                          room: int, reach: nat) {
    && PropsValid(props) && AllFit(lz0, syms, window)
    && Takes(c0, AllOps(props, lz0, syms, window), input)
    && var c, lz := After(c0, AllOps(props, lz0, syms, window), input), ApplyAll(lz0, syms, window);
       && Spells(c, props, lz, bad, input) && !Fits(lz, bad, window)
       && |lz.hist| < room && After(c, SymbolOps(props, lz, bad), input).pos <= reach
  }

  /** Before the last of the symbols the history had less than `room` bytes. */
  ghost predicate Wanted(lz0: Lz, syms: seq<Symbol>, window: nat, room: int) {
    AllFit(lz0, syms, window) && (syms != [] ==> |ApplyAll(lz0, syms[..|syms| - 1], window).hist| < room)
  }

  lemma WantedNone(lz0: Lz, window: nat, room: int)
    requires LzValid(lz0, window)
    ensures Wanted(lz0, [], window, room)
  {
  }

  lemma WantedOne(props: Props, window: nat, input: seq<byte>, c0: Coder, lz0: Lz, syms: seq<Symbol>, c: Coder, lz: Lz, sym: Symbol, room: int)
    requires Decoded(props, window, input, c0, lz0, syms, c, lz) && Fits(lz, sym, window) && |lz.hist| < room
    ensures Wanted(lz0, syms + [sym], window, room)
  {
    hide Takes, Fits, Apply, AllOps;
    assert (syms + [sym])[..|syms|] == syms;
    assert LzValid(lz0, window) by { FitsStart(lz0, syms, window); }
  }

  lemma DecodedNone(props: Props, window: nat, input: seq<byte>, c0: Coder, lz0: Lz)
    requires PropsValid(props) && LzValid(lz0, window) && Sound(c0)
    ensures Decoded(props, window, input, c0, lz0, [], c0, lz0)
  {
  }

  lemma DecodedOne(props: Props, window: nat, input: seq<byte>, c0: Coder, lz0: Lz, syms: seq<Symbol>, c: Coder, lz: Lz, sym: Symbol)
    requires Decoded(props, window, input, c0, lz0, syms, c, lz)
    requires Spells(c, props, lz, sym, input) && Fits(lz, sym, window)
    ensures Decoded(props, window, input, c0, lz0, syms + [sym], After(c, SymbolOps(props, lz, sym), input), Apply(lz, sym, window))
  {
    hide Takes, SymbolOps, Fits, Apply, LzValid;
    assert (syms + [sym])[..|syms|] == syms;
    TakesJoin(c0, AllOps(props, lz0, syms, window), SymbolOps(props, lz, sym), input);
    assert LzValid(lz0, window) by { FitsStart(lz0, syms, window); }
  }

  lemma FitsStart(lz0: Lz, syms: seq<Symbol>, window: nat)
    requires AllFit(lz0, syms, window)
    ensures LzValid(lz0, window)
  {
  }

  lemma BlockedBy(props: Props, window: nat, input: seq<byte>, c0: Coder, lz0: Lz, syms: seq<Symbol>, c: Coder, lz: Lz, bad: Symbol,
                  room: int, reach: nat)
    requires Decoded(props, window, input, c0, lz0, syms, c, lz)
    requires Spells(c, props, lz, bad, input) && !Fits(lz, bad, window)
    requires |lz.hist| < room && After(c, SymbolOps(props, lz, bad), input).pos <= reach
    ensures Blocked(props, window, input, c0, lz0, syms, bad, room, reach)
  {
    hide AllOps, SymbolOps, Run;
  }

  lemma LzLonger(lz: Lz, hist: seq<byte>, window: nat)
    requires LzValid(lz, window) && |lz.hist| <= |hist|
    ensures LzValid(lz.(hist := hist), window)
  {
  }

  lemma AlreadyNormal(c: Coder, input: seq<byte>)
    requires Sound(c) && TOP <= c.range
    ensures Normalize(c, input) == c
  {
  }

  lemma MayNormalize(c: Coder, input: seq<byte>)
    requires Sound(c) && Normalize(c, input).pos <= |input|
    ensures c.range < TOP ==> c.pos < |input|
  {
  }
}
