/** LZMA symbols: what they do to a history, and how a stream of them is spelled. */
module LzmaSymbols {
  import opened Memory
  import opened RangeCoder
  import opened Dictionary
  import opened LzmaCode

  /** The properties byte, taken apart: literal context, literal position and position bits. */
  datatype Props = Props(lc: nat, lp: nat, pb: nat)

  predicate PropsValid(p: Props) {
    p.lc + p.lp <= 4 && p.pb <= 4
  }

  datatype Symbol = Literal(b: byte) | Match(len: nat, dist: nat) | Rep(i: nat, rlen: nat) | ShortRep

  /** What a symbol's meaning depends on: the history, the recent kinds and the recent distances. */
  datatype Lz = Lz(hist: seq<byte>, state: nat, rep0: nat, rep1: nat, rep2: nat, rep3: nat)

  // ---------------------------------------------------------------------------------------------
  // Recent kinds of symbol

  predicate IsLiteralState(state: nat) {
    state < 7
  }

  function AfterLiteral(state: nat): (s: nat)
    requires state < 12
    ensures IsLiteralState(s)
  {
    if state <= 3 then 0 else if state <= 9 then state - 3 else state - 6
  }

  function AfterMatch(state: nat): (s: nat)
    ensures s < 12 && !IsLiteralState(s)
  {
    if IsLiteralState(state) then 7 else 10
  }

  function AfterLongRep(state: nat): (s: nat)
    ensures s < 12 && !IsLiteralState(s)
  {
    if IsLiteralState(state) then 8 else 11
  }

  function AfterShortRep(state: nat): (s: nat)
    ensures s < 12 && !IsLiteralState(s)
  {
    if IsLiteralState(state) then 9 else 11
  }

  // ---------------------------------------------------------------------------------------------
  // Meaning

  /** A distance reaches back to a byte that is still in a window of `window` bytes. */
  predicate Reaches(hist: seq<byte>, dist: nat, window: nat) {
    dist < |hist| && dist < window
  }

  predicate LzValid(lz: Lz, window: nat) {
    && lz.state < 12
    && lz.rep0 < WORD && lz.rep1 < WORD && lz.rep2 < WORD && lz.rep3 < WORD
    && (!IsLiteralState(lz.state) ==> Reaches(lz.hist, lz.rep0, window))
  }

  /** Symbols that the format can spell, whatever the history. */
  predicate Spellable(sym: Symbol) {
    match sym
    case Literal(_) => true
    case Match(len, dist) => 2 <= len <= 273 && dist < WORD
    case Rep(i, len) => i < 4 && 2 <= len <= 273
    case ShortRep => true
  }

  /** Recent kinds and distances once the symbol has been read, before it is carried out. */
  function Noted(lz: Lz, sym: Symbol): Lz
    requires lz.state < 12 && Spellable(sym)
  {
    match sym
    case Literal(_) => lz.(state := AfterLiteral(lz.state))
    case Match(_, dist) =>
      lz.(state := AfterMatch(lz.state), rep0 := dist, rep1 := lz.rep0, rep2 := lz.rep1, rep3 := lz.rep2)
    case ShortRep => lz.(state := AfterShortRep(lz.state))
    case Rep(i, _) =>
      var s := lz.(state := AfterLongRep(lz.state));
      if i == 0 then s
      else if i == 1 then s.(rep0 := lz.rep1, rep1 := lz.rep0)
      else if i == 2 then s.(rep0 := lz.rep2, rep1 := lz.rep0, rep2 := lz.rep1)
      else s.(rep0 := lz.rep3, rep1 := lz.rep0, rep2 := lz.rep1, rep3 := lz.rep2)
  }

  function CopyLength(sym: Symbol): nat {
    match sym
    case Literal(_) => 0
    case Match(len, _) => len
    case Rep(_, len) => len
    case ShortRep => 1
  }

  predicate Fits(lz: Lz, sym: Symbol, window: nat) {
    && LzValid(lz, window) && Spellable(sym)
    && (!sym.Literal? ==> Reaches(lz.hist, Noted(lz, sym).rep0, window))
  }

  function Apply(lz: Lz, sym: Symbol, window: nat): (r: Lz)
    requires Fits(lz, sym, window)
    ensures LzValid(r, window) && |lz.hist| < |r.hist|
  {
    var n := Noted(lz, sym);
    if sym.Literal? then n.(hist := lz.hist + [sym.b]) else n.(hist := Copy(lz.hist, n.rep0, CopyLength(sym)))
  }

  // ---------------------------------------------------------------------------------------------
  // Spelling

  function PosState(props: Props, hist: seq<byte>): (s: nat)
    requires PropsValid(props)
    ensures s < 16
  {
    P2nMono(props.pb, 4);
    SmallPowers();
    |hist| % P2n(props.pb)
  }

  /** Which of the sixteen literal coders is in use. */
  function LiteralCoder(props: Props, hist: seq<byte>): nat {
    Coder16(props, Back(hist, 0), |hist|)
  }

  function Coder16(props: Props, prev: byte, pos: nat): nat {
    (if props.lc <= 8 then prev / P2n(8 - props.lc) else 0) + pos % P2n(props.lp) * P2n(props.lc)
  }

  lemma CoderBelow16(props: Props, prev: byte, pos: nat)
    requires PropsValid(props)
    ensures Coder16(props, prev, pos) < 16
  {
    SmallPowers();
  }

  function LiteralBase(props: Props, hist: seq<byte>): nat {
    LITERAL + 0x300 * LiteralCoder(props, hist)
  }

  function LiteralOps(props: Props, lz: Lz, b: byte): seq<Choice>
    requires !IsLiteralState(lz.state) ==> lz.rep0 < |lz.hist|
  {
    var base := LiteralBase(props, lz.hist);
    if IsLiteralState(lz.state) then TreeOps(base, 0x100 + b) else MatchedOps(base, Back(lz.hist, lz.rep0), 8, b)
  }

  function RepOps(state: nat, ps: nat, sym: Symbol): seq<Choice>
    requires state < 12 && ps < 16 && (sym.Rep? || sym.ShortRep?) && Spellable(sym)
  {
    if sym.ShortRep? || sym.i == 0 then
      [Model(IS_REP0 + state, false)] + [Model(IS_REP0_LONG + 16 * state + ps, sym.Rep?)] + RepLenOps(ps, sym)
    else [Model(IS_REP0 + state, true)] + OlderOps(state, ps, sym)
  }

  function OlderOps(state: nat, ps: nat, sym: Symbol): seq<Choice>
    requires state < 12 && ps < 16 && sym.Rep? && Spellable(sym) && sym.i > 0
  {
    if sym.i == 1 then [Model(IS_REP1 + state, false)] + RepLenOps(ps, sym)
    else [Model(IS_REP1 + state, true)] + ([Model(IS_REP2 + state, sym.i == 3)] + RepLenOps(ps, sym))
  }

  function RepLenOps(ps: nat, sym: Symbol): seq<Choice>
    requires ps < 16 && (sym.Rep? || sym.ShortRep?) && Spellable(sym)
  {
    if sym.Rep? then LenOps(REP_LEN, ps, sym.rlen) else []
  }

  function CopyOps(state: nat, ps: nat, sym: Symbol): seq<Choice>
    requires state < 12 && ps < 16 && !sym.Literal? && Spellable(sym)
  {
    if sym.Match? then [Model(IS_REP + state, false)] + (LenOps(MATCH_LEN, ps, sym.len) + DistOps(sym.len, sym.dist))
    else [Model(IS_REP + state, true)] + RepOps(state, ps, sym)
  }

  function SymbolOps(props: Props, lz: Lz, sym: Symbol): seq<Choice>
    requires PropsValid(props) && lz.state < 12 && (!IsLiteralState(lz.state) ==> lz.rep0 < |lz.hist|) && Spellable(sym)
  {
    var ps := PosState(props, lz.hist);
    [Model(IS_MATCH + 16 * lz.state + ps, !sym.Literal?)]
    + if sym.Literal? then LiteralOps(props, lz, sym.b) else CopyOps(lz.state, ps, sym)
  }

  // ---------------------------------------------------------------------------------------------
  // How long a spelling is

  /** A piece of a symbol: `m` modelled and `d` even decisions, the last of them modelled. */
  ghost predicate Piece(ops: seq<Choice>, m: nat, d: nat) {
    && Within(ops, 0, PROBS_TOTAL)
    && Evens(ops) <= d
    && (Models(ops) <= m || (Models(ops) <= m + 1 && Evens(ops) == 0))
    && ops != [] && ops[|ops| - 1].Model?
  }

  lemma Prepend(i: nat, bit: bool, ops: seq<Choice>, m: nat, d: nat)
    requires Piece(ops, m, d) && i < PROBS_TOTAL
    ensures Piece([Model(i, bit)] + ops, m + 1, d)
  {
    hide Models, Evens;
    One(i, bit);
    CountAppend([Model(i, bit)], ops);
  }

  lemma Looser(ops: seq<Choice>, m: nat, d: nat, m': nat, d': nat)
    requires Piece(ops, m, d) && m <= m' && d <= d'
    ensures Piece(ops, m', d')
  {
  }

  lemma LiteralPiece(props: Props, lz: Lz, b: byte)
    requires PropsValid(props) && lz.state < 12 && (!IsLiteralState(lz.state) ==> lz.rep0 < |lz.hist|)
    ensures Piece(LiteralOps(props, lz, b), 8, 0)
  {
    hide TreeOps, MatchedOps, Models, Evens, Coder16;
    SmallPowers();
    CoderBelow16(props, Back(lz.hist, 0), |lz.hist|);
    var base := LiteralBase(props, lz.hist);
    if IsLiteralState(lz.state) {
      TreeFacts(base, 8, 0x100 + b);
      TreeLast(base, 0x100 + b);
    } else {
      var mb := Back(lz.hist, lz.rep0);
      MatchedFacts(base, mb, 8, b);
      MatchedLast(base, mb, 8, b);
    }
  }

  lemma MatchedLast(base: nat, mb: byte, n: nat, v: nat)
    requires 0 < n <= 8
    ensures MatchedOps(base, mb, n, v) != [] && MatchedOps(base, mb, n, v)[|MatchedOps(base, mb, n, v)| - 1].Model?
  {
  }

  lemma LenPiece(base: nat, ps: nat, len: nat)
    requires 2 <= len <= 273 && ps < 16 && base + 514 <= PROBS_TOTAL
    ensures Piece(LenOps(base, ps, len), 10, 0)
  {
    hide TreeOps, Models, Evens;
    LenFacts(base, ps, len);
    if len < 10 {
      TreeLast(base + 2 + 8 * ps, 8 + len - 2);
    } else if len < 18 {
      TreeLast(base + 130 + 8 * ps, 8 + len - 10);
    } else {
      TreeLast(base + 258, 256 + len - 18);
    }
  }

  lemma MatchPiece(ps: nat, len: nat, dist: nat)
    requires ps < 16 && 2 <= len <= 273 && dist < WORD
    ensures Piece(LenOps(MATCH_LEN, ps, len) + DistOps(len, dist), 20, 26)
  {
    hide LenOps, DistOps, Models, Evens;
    LenFacts(MATCH_LEN, ps, len);
    DistFacts(len, dist);
    CountAppend(LenOps(MATCH_LEN, ps, len), DistOps(len, dist));
  }

  lemma RepPiece(state: nat, ps: nat, sym: Symbol)
    requires state < 12 && ps < 16 && (sym.Rep? || sym.ShortRep?) && Spellable(sym)
    ensures Piece(RepOps(state, ps, sym), 13, 0)
  {
    hide LenOps, Piece;
    if sym.ShortRep? {
      var last := [Model(IS_REP0_LONG + 16 * state + ps, false)];
      Single(IS_REP0_LONG + 16 * state + ps, false);
      Prepend(IS_REP0 + state, false, last, 1, 0);
      assert RepOps(state, ps, sym) == [Model(IS_REP0 + state, false)] + last;
      Looser(RepOps(state, ps, sym), 2, 0, 13, 0);
    } else {
      var tail := LenOps(REP_LEN, ps, sym.rlen);
      LenPiece(REP_LEN, ps, sym.rlen);
      if sym.i == 0 {
        Prepend(IS_REP0_LONG + 16 * state + ps, true, tail, 10, 0);
        Prepend(IS_REP0 + state, false, [Model(IS_REP0_LONG + 16 * state + ps, true)] + tail, 11, 0);
        assert RepOps(state, ps, sym)
            == [Model(IS_REP0 + state, false)] + ([Model(IS_REP0_LONG + 16 * state + ps, true)] + tail);
        Looser(RepOps(state, ps, sym), 12, 0, 13, 0);
      } else {
        OlderPiece(state, ps, sym);
        Prepend(IS_REP0 + state, true, OlderOps(state, ps, sym), 12, 0);
      }
    }
  }

  lemma OlderPiece(state: nat, ps: nat, sym: Symbol)
    requires state < 12 && ps < 16 && sym.Rep? && Spellable(sym) && sym.i > 0
    ensures Piece(OlderOps(state, ps, sym), 12, 0)
  {
    hide LenOps, Piece;
    var tail := LenOps(REP_LEN, ps, sym.rlen);
    LenPiece(REP_LEN, ps, sym.rlen);
    if sym.i == 1 {
      Prepend(IS_REP1 + state, false, tail, 10, 0);
      Looser([Model(IS_REP1 + state, false)] + tail, 11, 0, 12, 0);
    } else {
      Prepend(IS_REP2 + state, sym.i == 3, tail, 10, 0);
      Prepend(IS_REP1 + state, true, [Model(IS_REP2 + state, sym.i == 3)] + tail, 11, 0);
    }
  }

  lemma Single(i: nat, bit: bool)
    requires i < PROBS_TOTAL
    ensures Piece([Model(i, bit)], 1, 0)
  {
    One(i, bit);
  }

  /** Every symbol is spelled by at most 22 modelled and 26 even decisions, or by 23 modelled ones. */
  lemma SymbolPiece(props: Props, lz: Lz, sym: Symbol)
    requires PropsValid(props) && lz.state < 12 && (!IsLiteralState(lz.state) ==> lz.rep0 < |lz.hist|) && Spellable(sym)
    ensures Piece(SymbolOps(props, lz, sym), 22, 26)
  {
    hide Piece, LiteralOps, LenOps, DistOps, RepOps, PosState;
    var ps, i := PosState(props, lz.hist), IS_MATCH + 16 * lz.state + PosState(props, lz.hist);
    match sym
    case Literal(b) =>
      LiteralPiece(props, lz, b);
      Prepend(i, false, LiteralOps(props, lz, b), 8, 0);
      Looser(SymbolOps(props, lz, sym), 9, 0, 22, 26);
    case Match(len, dist) =>
      MatchPiece(ps, len, dist);
      Prepend(IS_REP + lz.state, false, LenOps(MATCH_LEN, ps, len) + DistOps(len, dist), 20, 26);
      Prepend(i, true, CopyOps(lz.state, ps, sym), 21, 26);
    case _ =>
      RepPiece(lz.state, ps, sym);
      Prepend(IS_REP + lz.state, true, RepOps(lz.state, ps, sym), 13, 0);
      Prepend(i, true, CopyOps(lz.state, ps, sym), 14, 0);
      Looser(SymbolOps(props, lz, sym), 15, 0, 22, 26);
  }

  /** So no symbol takes more than 20 bytes, nor 21 with the closing normalization. */
  lemma SymbolIsShort(c: Coder, props: Props, lz: Lz, sym: Symbol, input: seq<byte>)
    requires PropsValid(props) && lz.state < 12 && (!IsLiteralState(lz.state) ==> lz.rep0 < |lz.hist|) && Spellable(sym)
    requires |c.probs| == PROBS_TOTAL && Takes(c, SymbolOps(props, lz, sym), input)
    ensures After(c, SymbolOps(props, lz, sym), input).pos <= c.pos + 20
    ensures Normalize(After(c, SymbolOps(props, lz, sym), input), input).pos <= c.pos + 21
  {
    hide SymbolOps, Models, Evens, Normalize, Run;
    SymbolPiece(props, lz, sym);
    SymbolBytes(c, SymbolOps(props, lz, sym), input);
  }

  // ---------------------------------------------------------------------------------------------
  // Unique decodability

  ghost predicate Spells(c: Coder, props: Props, lz: Lz, sym: Symbol, input: seq<byte>) {
    && PropsValid(props) && lz.state < 12 && (!IsLiteralState(lz.state) ==> lz.rep0 < |lz.hist|) && Spellable(sym)
    && Takes(c, SymbolOps(props, lz, sym), input)
  }

  lemma RepLenUnique(c: Coder, ps: nat, a: Symbol, b: Symbol, input: seq<byte>)
    requires ps < 16 && a.Rep? && b.Rep? && Spellable(a) && Spellable(b)
    requires Takes(c, RepLenOps(ps, a), input) && Takes(c, RepLenOps(ps, b), input)
    ensures a.rlen == b.rlen
  {
    LenUnique(c, REP_LEN, ps, a.rlen, b.rlen, input);
  }

  lemma OlderUnique(c: Coder, state: nat, ps: nat, a: Symbol, b: Symbol, input: seq<byte>)
    requires state < 12 && ps < 16 && a.Rep? && b.Rep? && Spellable(a) && Spellable(b) && a.i > 0 && b.i > 0
    requires Takes(c, OlderOps(state, ps, a), input) && Takes(c, OlderOps(state, ps, b), input)
    ensures a == b
  {
    hide Takes, RepLenOps;
    var x2, y2 := Model(IS_REP2 + state, a.i == 3), Model(IS_REP2 + state, b.i == 3);
    var x := if a.i == 1 then RepLenOps(ps, a) else [x2] + RepLenOps(ps, a);
    var y := if b.i == 1 then RepLenOps(ps, b) else [y2] + RepLenOps(ps, b);
    var one := Model(IS_REP1 + state, a.i != 1);
    FirstDecided(c, one, x, Model(IS_REP1 + state, b.i != 1), y, input);
    var d := After(c, [one], input);
    if a.i == 1 {
      RepLenUnique(d, ps, a, b, input);
    } else {
      FirstDecided(d, x2, RepLenOps(ps, a), y2, RepLenOps(ps, b), input);
      RepLenUnique(After(d, [x2], input), ps, a, b, input);
    }
  }

  predicate Newest(sym: Symbol) {
    sym.ShortRep? || (sym.Rep? && sym.i == 0)
  }

  lemma RepUnique(c: Coder, state: nat, ps: nat, a: Symbol, b: Symbol, input: seq<byte>)
    requires state < 12 && ps < 16 && Spellable(a) && Spellable(b)
    requires (a.Rep? || a.ShortRep?) && (b.Rep? || b.ShortRep?)
    requires Takes(c, RepOps(state, ps, a), input) && Takes(c, RepOps(state, ps, b), input)
    ensures a == b
  {
    hide Takes, RepLenOps, OlderOps;
    var x2, y2 := Model(IS_REP0_LONG + 16 * state + ps, a.Rep?), Model(IS_REP0_LONG + 16 * state + ps, b.Rep?);
    var x := if Newest(a) then [x2] + RepLenOps(ps, a) else OlderOps(state, ps, a);
    var y := if Newest(b) then [y2] + RepLenOps(ps, b) else OlderOps(state, ps, b);
    var one := Model(IS_REP0 + state, !Newest(a));
    assert RepOps(state, ps, a) == [one] + x;
    assert RepOps(state, ps, b) == [Model(IS_REP0 + state, !Newest(b))] + y;
    FirstDecided(c, one, x, Model(IS_REP0 + state, !Newest(b)), y, input);
    var d := After(c, [one], input);
    if Newest(a) {
      FirstDecided(d, x2, RepLenOps(ps, a), y2, RepLenOps(ps, b), input);
      if a.Rep? {
        RepLenUnique(After(d, [x2], input), ps, a, b, input);
      }
    } else {
      OlderUnique(d, state, ps, a, b, input);
    }
  }

  lemma CopyUnique(c: Coder, state: nat, ps: nat, a: Symbol, b: Symbol, input: seq<byte>)
    requires state < 12 && ps < 16 && Spellable(a) && Spellable(b) && !a.Literal? && !b.Literal?
    requires Takes(c, CopyOps(state, ps, a), input) && Takes(c, CopyOps(state, ps, b), input)
    ensures a == b
  {
    hide Takes, LenOps, DistOps, RepOps;
    var x := if a.Match? then LenOps(MATCH_LEN, ps, a.len) + DistOps(a.len, a.dist) else RepOps(state, ps, a);
    var y := if b.Match? then LenOps(MATCH_LEN, ps, b.len) + DistOps(b.len, b.dist) else RepOps(state, ps, b);
    var one := Model(IS_REP + state, !a.Match?);
    FirstDecided(c, one, x, Model(IS_REP + state, !b.Match?), y, input);
    var d := After(c, [one], input);
    if a.Match? {
      MatchUnique(d, ps, a, b, input);
    } else {
      RepUnique(d, state, ps, a, b, input);
    }
  }

  lemma MatchUnique(c: Coder, ps: nat, a: Symbol, b: Symbol, input: seq<byte>)
    requires ps < 16 && Spellable(a) && Spellable(b) && a.Match? && b.Match?
    requires Takes(c, LenOps(MATCH_LEN, ps, a.len) + DistOps(a.len, a.dist), input)
    requires Takes(c, LenOps(MATCH_LEN, ps, b.len) + DistOps(b.len, b.dist), input)
    ensures a == b
  {
    hide Takes, LenOps, DistOps;
    TakesSplit(c, LenOps(MATCH_LEN, ps, a.len), DistOps(a.len, a.dist), input);
    TakesSplit(c, LenOps(MATCH_LEN, ps, b.len), DistOps(b.len, b.dist), input);
    LenUnique(c, MATCH_LEN, ps, a.len, b.len, input);
    DistUnique(After(c, LenOps(MATCH_LEN, ps, a.len), input), a.len, a.dist, b.dist, input);
  }

  /** No input spells two different symbols. */
  lemma SymbolUnique(c: Coder, props: Props, lz: Lz, a: Symbol, b: Symbol, input: seq<byte>)
    requires Spells(c, props, lz, a, input) && Spells(c, props, lz, b, input)
    ensures a == b
  {
    hide Takes, LiteralOps, CopyOps, PosState;
    var ps := PosState(props, lz.hist);
    var x := if a.Literal? then LiteralOps(props, lz, a.b) else CopyOps(lz.state, ps, a);
    var y := if b.Literal? then LiteralOps(props, lz, b.b) else CopyOps(lz.state, ps, b);
    var one := Model(IS_MATCH + 16 * lz.state + ps, !a.Literal?);
    FirstDecided(c, one, x, Model(IS_MATCH + 16 * lz.state + ps, !b.Literal?), y, input);
    var d := After(c, [one], input);
    if a.Literal? {
      LiteralUnique(d, props, lz, a.b, b.b, input);
    } else {
      CopyUnique(d, lz.state, ps, a, b, input);
    }
  }

  lemma LiteralUnique(c: Coder, props: Props, lz: Lz, a: byte, b: byte, input: seq<byte>)
    requires !IsLiteralState(lz.state) ==> lz.rep0 < |lz.hist|
    requires Takes(c, LiteralOps(props, lz, a), input) && Takes(c, LiteralOps(props, lz, b), input)
    ensures a == b
  {
    hide Takes, TreeOps, MatchedOps;
    SmallPowers();
    var base := LiteralBase(props, lz.hist);
    if IsLiteralState(lz.state) {
      TreeUnique(c, base, 8, 0x100 + a, 0x100 + b, input);
    } else {
      MatchedUnique(c, base, Back(lz.hist, lz.rep0), 8, a, b, input);
    }
  }

  // ---------------------------------------------------------------------------------------------
  // Streams of symbols

  ghost predicate AllFit(lz: Lz, syms: seq<Symbol>, window: nat)
    decreases |syms|, 0
  {
    LzValid(lz, window)
    && (syms != [] ==>
          AllFit(lz, syms[..|syms| - 1], window)
          && Fits(ApplyAll(lz, syms[..|syms| - 1], window), syms[|syms| - 1], window))
  }

  ghost function ApplyAll(lz: Lz, syms: seq<Symbol>, window: nat): (r: Lz)
    requires AllFit(lz, syms, window)
    ensures LzValid(r, window) && |lz.hist| + |syms| <= |r.hist|
    decreases |syms|, 1
  {
    if syms == [] then lz else Apply(ApplyAll(lz, syms[..|syms| - 1], window), syms[|syms| - 1], window)
  }

  ghost function AllOps(props: Props, lz: Lz, syms: seq<Symbol>, window: nat): (ops: seq<Choice>)
    requires PropsValid(props) && AllFit(lz, syms, window)
    ensures AllKnown(PROBS_TOTAL, ops)
    decreases |syms|
  {
    if syms == [] then [] else
      var front := syms[..|syms| - 1];
      SymbolPiece(props, ApplyAll(lz, front, window), syms[|syms| - 1]);
      AllOps(props, lz, front, window) + SymbolOps(props, ApplyAll(lz, front, window), syms[|syms| - 1])
  }

  lemma {:induction false} PrefixFits(lz: Lz, syms: seq<Symbol>, k: nat, window: nat)
    requires k <= |syms| && AllFit(lz, syms, window)
    ensures AllFit(lz, syms[..k], window)
  {
    if k < |syms| {
      PrefixFits(lz, syms[..|syms| - 1], k, window);
      assert syms[..|syms| - 1][..k] == syms[..k];
    } else {
      assert syms[..k] == syms;
    }
  }

  lemma {:induction false} PrefixTakes(c: Coder, props: Props, lz: Lz, syms: seq<Symbol>, k: nat, window: nat, input: seq<byte>)
    requires k <= |syms| && PropsValid(props) && AllFit(lz, syms, window)
    requires Takes(c, AllOps(props, lz, syms, window), input)
    ensures AllFit(lz, syms[..k], window) && Takes(c, AllOps(props, lz, syms[..k], window), input)
  {
    hide Takes, SymbolOps;
    PrefixFits(lz, syms, k, window);
    if k < |syms| {
      var front := syms[..|syms| - 1];
      TakesSplit(c, AllOps(props, lz, front, window), SymbolOps(props, ApplyAll(lz, front, window), syms[|syms| - 1]), input);
      PrefixTakes(c, props, lz, front, k, window, input);
      assert front[..k] == syms[..k];
    } else {
      assert syms[..k] == syms;
    }
  }

  lemma LastUnique(c: Coder, props: Props, lz: Lz, front: seq<Symbol>, a: Symbol, b: Symbol, window: nat, input: seq<byte>)
    requires PropsValid(props) && AllFit(lz, front + [a], window) && AllFit(lz, front + [b], window)
    requires Takes(c, AllOps(props, lz, front + [a], window), input) && Takes(c, AllOps(props, lz, front + [b], window), input)
    ensures a == b
  {
    hide Takes, SymbolOps;
    var n := |front|;
    assert (front + [a])[..n] == front && (front + [b])[..n] == front;
    var x, at := AllOps(props, lz, front, window), ApplyAll(lz, front, window);
    TakesSplit(c, x, SymbolOps(props, at, a), input);
    TakesSplit(c, x, SymbolOps(props, at, b), input);
    SymbolUnique(After(c, x, input), props, at, a, b, input);
  }

  /** Of two streams of symbols that one input spells, one is a prefix of the other. */
  lemma {:induction false} StreamUnique(c: Coder, props: Props, lz: Lz, a: seq<Symbol>, b: seq<Symbol>, window: nat, input: seq<byte>)
    requires PropsValid(props) && AllFit(lz, a, window) && AllFit(lz, b, window) && |a| <= |b|
    requires Takes(c, AllOps(props, lz, a, window), input) && Takes(c, AllOps(props, lz, b, window), input)
    ensures a == b[..|a|]
  {
    hide Takes, SymbolOps, AllOps, ApplyAll, AllFit;
    if a != [] {
      var n := |a| - 1;
      PrefixTakes(c, props, lz, b, |a|, window, input);
      PrefixTakes(c, props, lz, a, n, window, input);
      StreamUnique(c, props, lz, a[..n], b, window, input);
      var front := a[..n];
      assert a == front + [a[n]] && b[..|a|] == front + [b[n]];
      LastUnique(c, props, lz, front, a[n], b[n], window, input);
    }
  }

  /**
   * The round trip for whole chunks.  Let an encoder spell `sent` and the input lie in the interval it
   * ended with.  Then whatever symbols a decoder finds there, in however many pieces the input reaches
   * it, are the ones that were sent, in order, and its history is a prefix of the encoder's.
   */
  lemma DecodesWhatWasSent(props: Props, lz: Lz, probs: seq<nat>, sent: seq<Symbol>, found: seq<Symbol>, window: nat, input: seq<byte>)
    requires PropsValid(props) && AllFit(lz, sent, window) && AllFit(lz, found, window)
    requires |probs| == PROBS_TOTAL && AllFair(probs) && |found| <= |sent|
    requires Contains(NarrowAll(Blank(probs), AllOps(props, lz, sent, window)), input)
    requires Takes(Fresh(probs, input), AllOps(props, lz, found, window), input)
    ensures found == sent[..|found|]
    ensures ApplyAll(lz, found, window).hist <= ApplyAll(lz, sent, window).hist
    ensures Takes(Fresh(probs, input), AllOps(props, lz, sent, window), input)
  {
    hide SymbolOps, NarrowAll, Contains, Run, Leading;
    FreshTracks(probs, input);
    DecodesEncoded(Fresh(probs, input), Blank(probs), AllOps(props, lz, sent, window), input);
    StreamUnique(Fresh(probs, input), props, lz, found, sent, window, input);
    PrefixFits(lz, sent, |found|, window);
    HistoryGrows(lz, sent, |found|, window);
  }

  lemma {:induction false} HistoryGrows(lz: Lz, syms: seq<Symbol>, k: nat, window: nat)
    requires k <= |syms| && AllFit(lz, syms, window) && AllFit(lz, syms[..k], window)
    ensures ApplyAll(lz, syms[..k], window).hist <= ApplyAll(lz, syms, window).hist
  {
    if k < |syms| {
      var front := syms[..|syms| - 1];
      assert front[..k] == syms[..k];
      HistoryGrows(lz, front, k, window);
      Extends(ApplyAll(lz, front, window), syms[|syms| - 1], window);
    } else {
      assert syms[..k] == syms;
    }
  }

  lemma Extends(lz: Lz, sym: Symbol, window: nat)
    requires Fits(lz, sym, window)
    ensures lz.hist <= Apply(lz, sym, window).hist
  {
  }
}
