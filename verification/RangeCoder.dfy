/** The adaptive binary range decoder, and the interval arithmetic that it inverts. */
module RangeCoder {
  import opened Shared
  import opened Memory
  import opened Numbers

  const TOP := 0x100_0000
  const WORD := 0x1_0000_0000

  /** The least range that a modelled bit can leave behind: 31/2048 of a normalized range. */
  const LEAST := 253952

  const FIRST := 0xFFFF_FFFF

  /** One binary decision: under an adaptive probability, or at even odds. */
  datatype Choice = Model(slot: nat, bit: bool) | Even(bit: bool)

  /** The decoder's registers, the number of bytes it has taken, and its probabilities. */
  datatype Coder = Coder(range: nat, code: nat, pos: nat, probs: seq<nat>)

  predicate Fair(p: nat) {
    31 <= p <= 2017
  }

  predicate AllFair(probs: seq<nat>) {
    forall i :: 0 <= i < |probs| ==> Fair(probs[i])
  }

  predicate Sound(c: Coder) {
    LEAST <= c.range < WORD && c.code < WORD && AllFair(c.probs)
  }

  /** Does the decision use a probability that exists? */
  predicate Known(c: Coder, op: Choice) {
    op.Model? ==> op.slot < |c.probs|
  }

  predicate AllKnown(n: nat, ops: seq<Choice>) {
    forall i :: 0 <= i < |ops| && ops[i].Model? ==> ops[i].slot < n
  }

  function ByteAt(input: seq<byte>, i: nat): byte {
    if i < |input| then input[i] else 0
  }

  // ---------------------------------------------------------------------------------------------
  // The decoder

  function Normalize(c: Coder, input: seq<byte>): (n: Coder)
    requires Sound(c)
    ensures Sound(n) && TOP <= n.range && n.probs == c.probs
    ensures n.pos == if c.range < TOP then c.pos + 1 else c.pos
  {
    if c.range < TOP
    then Coder(c.range * 0x100, (c.code * 0x100 + ByteAt(input, c.pos)) % WORD, c.pos + 1, c.probs)
    else c
  }

  function Bound(range: nat, p: nat): nat {
    range / 2048 * p
  }

  function Raised(p: nat): (q: nat)
    requires Fair(p)
    ensures Fair(q)
  {
    p + (2048 - p) / 32
  }

  function Lowered(p: nat): (q: nat)
    requires Fair(p)
    ensures Fair(q)
  {
    p - p / 32
  }

  lemma BoundSplits(range: nat, p: nat)
    requires TOP <= range < WORD && Fair(p)
    ensures LEAST <= Bound(range, p) && Bound(range, p) + LEAST <= range
    ensures 2 * range <= 133 * Bound(range, p) && 2 * range <= 133 * (range - Bound(range, p))
  {
    var q := range / 2048;
    assert 8192 <= q && 2048 * q <= range < 2048 * q + 2048;
    MulMono(q, 31, p);
    MulMono(q, p, 2017);
    assert 31 * q <= Bound(range, p) <= 2017 * q;
  }

  /** Does the decoder, once normalized, read a one? */
  function Reads(n: Coder, op: Choice): bool
    requires Known(n, op)
  {
    match op
    case Model(slot, _) => n.code >= Bound(n.range, n.probs[slot])
    case Even(_) => (n.code - n.range / 2) % WORD < 0x8000_0000
  }

  /** The registers after a normalized decoder has taken the decision `op`. */
  function Taken(n: Coder, op: Choice): (r: Coder)
    requires Sound(n) && TOP <= n.range && Known(n, op) && Reads(n, op) == op.bit
    ensures Sound(r) && r.pos == n.pos && |r.probs| == |n.probs|
  {
    match op
    case Model(slot, bit) =>
      var p := n.probs[slot];
      BoundSplits(n.range, p);
      var bound := Bound(n.range, p);
      if bit then Coder(n.range - bound, n.code - bound, n.pos, n.probs[slot := Lowered(p)])
      else Coder(bound, n.code, n.pos, n.probs[slot := Raised(p)])
    case Even(bit) =>
      var half := n.range / 2;
      Coder(half, if bit then (n.code - half) % WORD else n.code, n.pos, n.probs)
  }

  /** Runs the decoder along given decisions; fails where it would have decided otherwise. */
  function Run(c: Coder, ops: seq<Choice>, input: seq<byte>): (r: Option<Coder>)
    requires Sound(c) && AllKnown(|c.probs|, ops)
    ensures r.Some? ==> Sound(r.value) && |r.value.probs| == |c.probs|
  {
    if ops == [] then Some(c) else
      var before := Run(c, ops[..|ops| - 1], input);
      var op := ops[|ops| - 1];
      if before.None? then None else
        var n := Normalize(before.value, input);
        if Reads(n, op) == op.bit then Some(Taken(n, op)) else None
  }

  lemma {:induction false} RunAppend(c: Coder, a: seq<Choice>, b: seq<Choice>, input: seq<byte>)
    requires Sound(c) && AllKnown(|c.probs|, a) && AllKnown(|c.probs|, b)
    ensures AllKnown(|c.probs|, a + b)
    ensures Run(c, a, input).None? ==> Run(c, a + b, input).None?
    ensures Run(c, a, input).Some? ==> Run(c, a + b, input) == Run(Run(c, a, input).value, b, input)
  {
    hide Normalize, Reads, Taken;
    if b == [] {
      assert a + b == a;
    } else {
      RunAppend(c, a, b[..|b| - 1], input);
      assert (a + b)[..|a + b| - 1] == a + b[..|b| - 1];
    }
  }

  // ---------------------------------------------------------------------------------------------
  // How much input a symbol can take

  function Models(ops: seq<Choice>): nat {
    if ops == [] then 0 else Models(ops[..|ops| - 1]) + if ops[|ops| - 1].Model? then 1 else 0
  }

  function Evens(ops: seq<Choice>): nat {
    if ops == [] then 0 else Evens(ops[..|ops| - 1]) + if ops[|ops| - 1].Even? then 1 else 0
  }

  lemma {:induction false} CountAppend(a: seq<Choice>, b: seq<Choice>)
    ensures Models(a + b) == Models(a) + Models(b)
    ensures Evens(a + b) == Evens(a) + Evens(b)
  {
    if b == [] {
      assert a + b == a;
    } else {
      CountAppend(a, b[..|b| - 1]);
      assert (a + b)[..|a + b| - 1] == a + b[..|b| - 1];
    }
  }

  /** What `m` modelled and `d` even decisions may shrink the range by, as a fraction. */
  function Shrink(m: nat, d: nat): nat {
    Pow(133, m) * Pow(2001, d)
  }

  function Kept(m: nat, d: nat): nat {
    Pow(2, m) * Pow(1000, d)
  }

  /** The range that is left pays for the bytes that were read. */
  predicate Budget(range: nat, m: nat, d: nat, bytes: nat) {
    range * Shrink(m, d) >= LEAST * Kept(m, d) * Pow(256, bytes)
  }

  lemma BudgetStart(range: nat)
    requires LEAST <= range
    ensures Budget(range, 0, 0, 0)
  {
  }

  lemma BudgetByte(range: nat, m: nat, d: nat, bytes: nat)
    requires Budget(range, m, d, bytes)
    ensures Budget(range * 256, m, d, bytes + 1)
  {
    hide Shrink, Kept, Pow;
    var s, k, p := Shrink(m, d), Kept(m, d), Pow(256, bytes);
    assert Pow(256, bytes + 1) == 256 * p by { PowStep(256, bytes); }
    Scale(range, s, LEAST * k, p);
  }

  lemma Scale(range: nat, s: nat, k: nat, p: nat)
    requires range * s >= k * p
    ensures range * 256 * s >= k * (256 * p)
  {
    assert range * 256 * s == 256 * (range * s);
    assert k * (256 * p) == 256 * (k * p);
  }

  lemma PowStep(b: nat, n: nat)
    ensures Pow(b, n + 1) == b * Pow(b, n)
  {
  }

  lemma ShrinkModel(m: nat, d: nat)
    ensures Shrink(m + 1, d) == 133 * Shrink(m, d) && Kept(m + 1, d) == 2 * Kept(m, d)
  {
    hide Pow;
    PowStep(133, m);
    PowStep(2, m);
    MulAssoc(133, Pow(133, m), Pow(2001, d));
    MulAssoc(2, Pow(2, m), Pow(1000, d));
  }

  lemma ShrinkEven(m: nat, d: nat)
    ensures Shrink(m, d + 1) == 2001 * Shrink(m, d) && Kept(m, d + 1) == 1000 * Kept(m, d)
  {
    hide Pow;
    PowStep(2001, d);
    PowStep(1000, d);
    Swap(Pow(133, m), 2001, Pow(2001, d));
    Swap(Pow(2, m), 1000, Pow(1000, d));
  }

  lemma Swap(a: nat, b: nat, c: nat)
    ensures a * (b * c) == b * (a * c)
  {
  }

  lemma BudgetModel(range: nat, range': nat, m: nat, d: nat, bytes: nat)
    requires Budget(range, m, d, bytes) && 2 * range <= 133 * range'
    ensures Budget(range', m + 1, d, bytes)
  {
    hide Shrink, Kept, Pow;
    ShrinkModel(m, d);
    Trade(range, range', Shrink(m, d), LEAST * Kept(m, d), Pow(256, bytes), 2, 133);
    assert LEAST * Kept(m + 1, d) == 2 * (LEAST * Kept(m, d));
  }

  lemma BudgetEven(range: nat, range': nat, m: nat, d: nat, bytes: nat)
    requires Budget(range, m, d, bytes) && 1000 * range <= 2001 * range'
    ensures Budget(range', m, d + 1, bytes)
  {
    hide Shrink, Kept, Pow;
    ShrinkEven(m, d);
    Trade(range, range', Shrink(m, d), LEAST * Kept(m, d), Pow(256, bytes), 1000, 2001);
    assert LEAST * Kept(m, d + 1) == 1000 * (LEAST * Kept(m, d));
  }

  lemma Trade(range: nat, range': nat, s: nat, k: nat, p: nat, a: nat, b: nat)
    requires range * s >= k * p && a * range <= b * range'
    ensures range' * (b * s) >= (a * k) * p
  {
    calc {
      range' * (b * s);
      (b * range') * s;
      >= { MulMono(s, a * range, b * range'); }
      (a * range) * s;
      a * (range * s);
      >= { MulMono(a, k * p, range * s); }
      a * (k * p);
      (a * k) * p;
    }
  }

  /** A budget for fewer decisions is a budget for more. */
  lemma {:induction false} BudgetPad(range: nat, m: nat, d: nat, m': nat, d': nat, bytes: nat)
    requires Budget(range, m, d, bytes) && m <= m' && d <= d'
    ensures Budget(range, m', d', bytes)
    decreases m' - m + d' - d
  {
    if m < m' {
      BudgetModel(range, range, m, d, bytes);
      BudgetPad(range, m + 1, d, m', d', bytes);
    } else if d < d' {
      BudgetEven(range, range, m, d, bytes);
      BudgetPad(range, m, d + 1, m', d', bytes);
    }
  }

  lemma {:induction false} BudgetFewer(range: nat, m: nat, d: nat, bytes: nat, fewer: nat)
    requires Budget(range, m, d, bytes) && fewer <= bytes
    ensures Budget(range, m, d, fewer)
  {
    hide Shrink, Kept;
    PowMono(256, fewer, bytes);
    MulMono(LEAST * Kept(m, d), Pow(256, fewer), Pow(256, bytes));
  }

  lemma {:induction false} PowMono(b: nat, i: nat, j: nat)
    requires i <= j && b > 0
    ensures Pow(b, i) <= Pow(b, j)
  {
    if i < j {
      PowMono(b, i, j - 1);
      MulMono(Pow(b, j - 1), 1, b);
    }
  }

  /** Few enough decisions that the next byte is one of the symbol's first `20`. */
  predicate Early(m: nat, d: nat) {
    (m <= 21 && d <= 26) || (m <= 22 && d == 0)
  }

  lemma TwentyBytes(range: nat, m: nat, d: nat, bytes: nat)
    requires Budget(range, m, d, bytes) && range < TOP && Early(m, d)
    ensures bytes < 20
  {
    hide Shrink, Kept, Pow;
    if bytes >= 20 {
      var m', d' := if m <= 21 then 21 else 22, if m <= 21 then 26 else 0;
      BudgetPad(range, m, d, m', d', bytes);
      BudgetFewer(range, m', d', bytes, 20);
      Magnitudes();
      MulMono(Shrink(m', d'), range, TOP);
      assert false;
    }
  }

  /** The decisions of any whole symbol leave at most one more byte to the closing normalization. */
  predicate Whole(m: nat, d: nat) {
    (m <= 22 && d <= 26) || (m <= 23 && d == 0)
  }

  lemma TwentyOneBytes(range: nat, m: nat, d: nat, bytes: nat)
    requires Budget(range, m, d, bytes) && range < TOP && Whole(m, d)
    ensures bytes < 21
  {
    hide Shrink, Kept, Pow;
    if bytes >= 21 {
      var m', d' := if m <= 22 then 22 else 23, if m <= 22 then 26 else 0;
      BudgetPad(range, m, d, m', d', bytes);
      BudgetFewer(range, m', d', bytes, 21);
      Magnitudes();
      MulMono(Shrink(m', d'), range, TOP);
      assert false;
    }
  }

  lemma PowOne(b: nat)
    ensures Pow(b, 0) == 1 && Pow(b, 1) == b
  {
    PowStep(b, 0);
  }

  lemma PowersOf133()
    ensures Pow(133, 21) == 398918759908541644876291345090846585316290933
    ensures Pow(133, 22) == 53056195067836038768546748897082595847066694089
    ensures Pow(133, 23) == 7056473944022193156216717603311985247659870313837
  {
    hide Pow;
    PowOne(133);
    PowAdd(133, 1, 1);
    PowAdd(133, 2, 2);
    PowAdd(133, 4, 1);
    PowAdd(133, 5, 5);
    PowAdd(133, 10, 10);
    PowAdd(133, 20, 1);
    PowAdd(133, 21, 1);
    PowAdd(133, 22, 1);
  }

  lemma PowersOf2001()
    ensures Pow(2001, 0) == 1
    ensures Pow(2001, 26) == 67986753700423837217499077306980794087878088967816496809626613136825199220801300052001
  {
    hide Pow;
    PowOne(2001);
    PowAdd(2001, 1, 1);
    PowAdd(2001, 2, 1);
    PowAdd(2001, 3, 3);
    PowAdd(2001, 6, 6);
    PowAdd(2001, 12, 1);
    PowAdd(2001, 13, 13);
  }

  lemma PowersOf2()
    ensures Pow(2, 21) == 2097152
    ensures Pow(2, 22) == 4194304
    ensures Pow(2, 23) == 8388608
  {
    hide Pow;
    PowOne(2);
    PowAdd(2, 1, 1);
    PowAdd(2, 2, 2);
    PowAdd(2, 4, 1);
    PowAdd(2, 5, 5);
    PowAdd(2, 10, 10);
    PowAdd(2, 20, 1);
    PowAdd(2, 21, 1);
    PowAdd(2, 22, 1);
  }

  lemma PowersOf1000()
    ensures Pow(1000, 0) == 1
    ensures Pow(1000, 26) == 1000000000000000000000000000000000000000000000000000000000000000000000000000000
  {
    hide Pow;
    PowOne(1000);
    PowAdd(1000, 1, 1);
    PowAdd(1000, 2, 1);
    PowAdd(1000, 3, 3);
    PowAdd(1000, 6, 6);
    PowAdd(1000, 12, 1);
    PowAdd(1000, 13, 13);
  }

  lemma PowersOf256()
    ensures Pow(256, 20) == 1461501637330902918203684832716283019655932542976
    ensures Pow(256, 21) == 374144419156711147060143317175368453031918731001856
  {
    hide Pow;
    PowOne(256);
    PowAdd(256, 1, 1);
    PowAdd(256, 2, 2);
    PowAdd(256, 4, 1);
    PowAdd(256, 5, 5);
    PowAdd(256, 10, 10);
    PowAdd(256, 20, 1);
  }

  lemma Magnitudes()
    ensures TOP * Shrink(21, 26) < LEAST * Kept(21, 26) * Pow(256, 20)
    ensures TOP * Shrink(22, 0) < LEAST * Kept(22, 0) * Pow(256, 20)
    ensures TOP * Shrink(22, 26) < LEAST * Kept(22, 26) * Pow(256, 21)
    ensures TOP * Shrink(23, 0) < LEAST * Kept(23, 0) * Pow(256, 21)
  {
    hide Pow;
    PowersOf133();
    PowersOf2001();
    PowersOf2();
    PowersOf1000();
    PowersOf256();
  }

  lemma StepBudget(c: Coder, op: Choice, input: seq<byte>, m: nat, d: nat, bytes: nat)
    requires Sound(c) && Known(c, op) && Budget(c.range, m, d, bytes)
    requires Reads(Normalize(c, input), op) == op.bit
    ensures var n := Normalize(c, input);
            Budget(Taken(n, op).range, if op.Model? then m + 1 else m, if op.Model? then d else d + 1,
                   bytes + (n.pos - c.pos))
  {
    hide Budget;
    var n := Normalize(c, input);
    if c.range < TOP {
      BudgetByte(c.range, m, d, bytes);
    }
    var range', bytes' := Taken(n, op).range, bytes + (n.pos - c.pos);
    if op.Model? {
      BoundSplits(n.range, n.probs[op.slot]);
      BudgetModel(n.range, range', m, d, bytes');
    } else {
      BudgetEven(n.range, range', m, d, bytes');
    }
  }

  lemma {:induction false} RunBudget(c: Coder, ops: seq<Choice>, input: seq<byte>)
    requires Sound(c) && AllKnown(|c.probs|, ops) && Run(c, ops, input).Some?
    ensures var r := Run(c, ops, input).value;
            c.pos <= r.pos && Budget(r.range, Models(ops), Evens(ops), r.pos - c.pos)
  {
    hide Budget, Normalize, Reads, Taken;
    if ops == [] {
      BudgetStart(c.range);
    } else {
      var front, op := ops[..|ops| - 1], ops[|ops| - 1];
      RunBudget(c, front, input);
      var b := Run(c, front, input).value;
      StepBudget(b, op, input, Models(front), Evens(front), b.pos - c.pos);
    }
  }

  /** Decisions taken while `Early` holds use at most 20 bytes between them. */
  lemma {:induction false} EarlyBytes(c: Coder, ops: seq<Choice>, input: seq<byte>)
    requires Sound(c) && AllKnown(|c.probs|, ops) && Run(c, ops, input).Some?
    requires ops != [] ==> Early(Models(ops[..|ops| - 1]), Evens(ops[..|ops| - 1]))
    ensures Run(c, ops, input).value.pos <= c.pos + 20
  {
    hide Budget, Reads, Taken;
    if ops != [] {
      var front := ops[..|ops| - 1];
      EarlyBytes(c, front, input);
      RunBudget(c, front, input);
      var b := Run(c, front, input).value;
      if b.range < TOP {
        TwentyBytes(b.range, Models(front), Evens(front), b.pos - c.pos);
      }
    }
  }

  /**
   * From any reachable range and any probabilities, a symbol of at most 22 modelled and 26 even
   * decisions (or 23 modelled ones) that ends in a modelled one takes at most 20 bytes, and the
   * normalization behind it at most one more.
   */
  lemma SymbolBytes(c: Coder, ops: seq<Choice>, input: seq<byte>)
    requires Sound(c) && AllKnown(|c.probs|, ops) && Run(c, ops, input).Some?
    requires Whole(Models(ops), Evens(ops)) && ops != [] && ops[|ops| - 1].Model?
    ensures var r := Run(c, ops, input).value;
            r.pos <= c.pos + 20 && Normalize(r, input).pos <= c.pos + 21
  {
    hide Budget, Reads, Taken;
    RunBudget(c, ops, input);
    EarlyBytes(c, ops, input);
    var r := Run(c, ops, input).value;
    if r.range < TOP {
      TwentyOneBytes(r.range, Models(ops), Evens(ops), r.pos - c.pos);
    }
  }

  // ---------------------------------------------------------------------------------------------
  // What the decoder inverts

  /** The integers `low <= v < low + range` that `digits` leading base-256 digits of the input may form. */
  datatype Interval = Interval(low: nat, range: nat, digits: nat, probs: seq<nat>)

  /** The input's first `n` bytes as a number, most significant first. */
  function Leading(input: seq<byte>, n: nat): nat {
    if n == 0 then 0 else 0x100 * Leading(input, n - 1) + ByteAt(input, n - 1)
  }

  lemma {:induction false} LeadingStable(s: seq<byte>, t: seq<byte>, n: nat)
    requires n <= |s| && s <= t
    ensures Leading(s, n) == Leading(t, n)
  {
    if n > 0 {
      LeadingStable(s, t, n - 1);
    }
  }

  predicate Contains(iv: Interval, input: seq<byte>) {
    iv.low <= Leading(input, iv.digits) < iv.low + iv.range
  }

  predicate Proper(iv: Interval) {
    LEAST <= iv.range < WORD && AllFair(iv.probs)
  }

  function Widen(iv: Interval): (r: Interval)
    requires Proper(iv)
    ensures Proper(r) && TOP <= r.range && r.probs == iv.probs
  {
    if iv.range < TOP then Interval(iv.low * 0x100, iv.range * 0x100, iv.digits + 1, iv.probs) else iv
  }

  /** How an encoder narrows its interval to record one decision. */
  function Narrow(iv: Interval, op: Choice): (r: Interval)
    requires Proper(iv) && (op.Model? ==> op.slot < |iv.probs|)
    ensures Proper(r) && |r.probs| == |iv.probs|
  {
    var w := Widen(iv);
    match op
    case Model(slot, bit) =>
      var p := w.probs[slot];
      BoundSplits(w.range, p);
      var bound := Bound(w.range, p);
      if bit then Interval(w.low + bound, w.range - bound, w.digits, w.probs[slot := Lowered(p)])
      else Interval(w.low, bound, w.digits, w.probs[slot := Raised(p)])
    case Even(bit) =>
      var half := w.range / 2;
      Interval(if bit then w.low + half else w.low, half, w.digits, w.probs)
  }

  function NarrowAll(iv: Interval, ops: seq<Choice>): (r: Interval)
    requires Proper(iv) && AllKnown(|iv.probs|, ops)
    ensures Proper(r) && |r.probs| == |iv.probs|
  {
    if ops == [] then iv else Narrow(NarrowAll(iv, ops[..|ops| - 1]), ops[|ops| - 1])
  }

  /** The decoder stands where the encoder stood: its code is the input's offset in the interval. */
  predicate Tracks(c: Coder, iv: Interval, input: seq<byte>) {
    && Contains(iv, input)
    && c == Coder(iv.range, Leading(input, iv.digits) - iv.low, iv.digits, iv.probs)
  }

  lemma WidenTracks(c: Coder, iv: Interval, input: seq<byte>)
    requires Sound(c) && Proper(iv) && Tracks(c, iv, input)
    ensures Tracks(Normalize(c, input), Widen(iv), input)
  {
  }

  lemma WidenContains(iv: Interval, input: seq<byte>)
    requires Proper(iv) && Contains(Widen(iv), input)
    ensures Contains(iv, input)
  {
    var v := Leading(input, iv.digits);
    if iv.range < TOP {
      assert Leading(input, iv.digits + 1) == 0x100 * v + ByteAt(input, iv.digits);
    }
  }

  lemma NarrowContains(iv: Interval, op: Choice, input: seq<byte>)
    requires Proper(iv) && (op.Model? ==> op.slot < |iv.probs|) && Contains(Narrow(iv, op), input)
    ensures Contains(Widen(iv), input) && Contains(iv, input)
  {
    hide Widen, Bound, Fair, AllFair, Leading;
    if op.Model? {
      assert AllFair(iv.probs) && Fair(iv.probs[op.slot]) by { FairAt(iv.probs, op.slot); }
      BoundSplits(Widen(iv).range, iv.probs[op.slot]);
    }
    WidenContains(iv, input);
  }

  lemma FairAt(probs: seq<nat>, i: nat)
    requires AllFair(probs) && i < |probs|
    ensures Fair(probs[i])
  {
  }

  /** A decoder in step with the encoder decides as the encoder did exactly when the input allows it. */
  lemma StepTracks(n: Coder, w: Interval, op: Choice, input: seq<byte>)
    requires Sound(n) && TOP <= n.range && Known(n, op) && Tracks(n, w, input) && Proper(w) && Widen(w) == w
    requires op.Even? ==> n.code < n.range / 2 * 2
    ensures Reads(n, op) == op.bit <==> Contains(Narrow(w, op), input)
    ensures Reads(n, op) == op.bit ==> Tracks(Taken(n, op), Narrow(w, op), input)
  {
    if op.Model? {
      BoundSplits(n.range, n.probs[op.slot]);
    } else {
      var half := n.range / 2;
      if n.code < half {
        assert (n.code - half) % WORD == n.code - half + WORD;
      }
    }
  }

  /**
   * The round trip: on every input that lies in the interval an encoder ended with, a decoder that
   * starts in step takes the encoder's decisions one by one and ends in step.
   */
  lemma {:induction false} DecodesEncoded(c: Coder, iv: Interval, ops: seq<Choice>, input: seq<byte>)
    requires Sound(c) && Proper(iv) && AllKnown(|c.probs|, ops) && |iv.probs| == |c.probs|
    requires Contains(iv, input) ==> Tracks(c, iv, input)
    requires Contains(NarrowAll(iv, ops), input)
    ensures Run(c, ops, input).Some?
    ensures Tracks(Run(c, ops, input).value, NarrowAll(iv, ops), input)
  {
    hide Reads, Taken, Narrow, Normalize, Widen, Contains, Tracks, AllFair;
    if ops != [] {
      var front, op := ops[..|ops| - 1], ops[|ops| - 1];
      var j := NarrowAll(iv, front);
      assert (op.Model? ==> op.slot < |j.probs|);
      NarrowContains(j, op, input);
      DecodesEncoded(c, iv, front, input);
      var b := Run(c, front, input).value;
      WidenTracks(b, j, input);
      NarrowWidened(j, op);
      EvenInside(Normalize(b, input), Widen(j), op, input);
      StepTracks(Normalize(b, input), Widen(j), op, input);
    }
  }

  lemma NarrowWidened(iv: Interval, op: Choice)
    requires Proper(iv) && (op.Model? ==> op.slot < |iv.probs|)
    ensures Widen(Widen(iv)) == Widen(iv) && Narrow(Widen(iv), op) == Narrow(iv, op)
  {
  }

  lemma EvenInside(n: Coder, w: Interval, op: Choice, input: seq<byte>)
    requires Proper(w) && Widen(w) == w && (op.Model? ==> op.slot < |w.probs|)
    requires Tracks(n, w, input) && Contains(Narrow(w, op), input)
    ensures op.Even? ==> n.code < n.range / 2 * 2
  {
    if op.Even? {
      assert w.range == n.range;
    }
  }

  /** A fresh decoder: the first of its five bytes falls out of the register. */
  function Fresh(probs: seq<nat>, input: seq<byte>): Coder {
    Coder(FIRST, Leading(input, 5) % WORD, 5, probs)
  }

  /** A fresh encoder covers five digits, the first of them zero. */
  function Blank(probs: seq<nat>): (iv: Interval)
    requires AllFair(probs)
    ensures Proper(iv) && iv.probs == probs
  {
    Interval(0, FIRST, 5, probs)
  }

  lemma FreshTracks(probs: seq<nat>, input: seq<byte>)
    requires AllFair(probs)
    ensures Sound(Fresh(probs, input))
    ensures Contains(Blank(probs), input) ==> Tracks(Fresh(probs, input), Blank(probs), input)
  {
  }
}
