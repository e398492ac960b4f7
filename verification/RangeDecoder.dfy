/** The range decoder as the program runs it: registers and probabilities that are updated in place. */
module RangeDecoder {
  import opened Memory
  import opened Numbers
  import opened RangeCoder
  import opened LzmaCode

  lemma StepTaken(c: Coder, front: seq<Choice>, op: Choice, input: seq<byte>)
    requires Takes(c, front, input) && Known(After(c, front, input), op)
    requires Reads(Normalize(After(c, front, input), input), op) == op.bit
    ensures Takes(c, front + [op], input)
    ensures After(c, front + [op], input) == Taken(Normalize(After(c, front, input), input), op)
  {
    hide Normalize, Taken, Reads;
    assert (front + [op])[..|front|] == front;
  }

  lemma Counted(front: seq<Choice>, op: Choice)
    ensures Models(front + [op]) == Models(front) + if op.Model? then 1 else 0
    ensures Evens(front + [op]) == Evens(front) + if op.Model? then 0 else 1
  {
    assert (front + [op])[..|front|] == front;
  }

  lemma HalfBack(code: nat, half: nat)
    requires code < WORD && half < 0x8000_0000
    ensures ((code - half) % WORD + half) % WORD == code
  {
  }

  class Rc {
    var range: nat
    var code: nat
    var initLeft: nat
    var input: seq<byte>
    var inPos: nat
    var inLimit: nat
    var probs: seq<nat>

    /** The registers when the current symbol began, and the decisions taken since. */
    ghost var origin: Coder
    ghost var ops: seq<Choice>
    ghost var m: nat
    ghost var d: nat

    constructor ()
      ensures range == FIRST && code == 0 && initLeft == 5 && input == [] && inPos == 0
      ensures probs == seq(PROBS_TOTAL, _ => 1024)
    {
      range, code, initLeft, input, inPos, inLimit := FIRST, 0, 5, [], 0, 0;
      probs := seq(PROBS_TOTAL, _ => 1024);
    }

    ghost function Now(): Coder
      reads this
    {
      Coder(range, code, inPos, probs)
    }

    ghost predicate Valid()
      reads this
    {
      && |probs| == PROBS_TOTAL
      && Takes(origin, ops, input) && After(origin, ops, input) == Now()
      && m == Models(ops) && d == Evens(ops)
      && origin.pos + 21 <= |input|
    }

    /** A new symbol begins here. */
    ghost method Begin()
      requires Sound(Now()) && |probs| == PROBS_TOTAL && inPos + 21 <= |input|
      modifies this`origin, this`ops, this`m, this`d
      ensures Valid() && ops == [] && m == 0 && d == 0 && origin == Now()
    {
      origin, ops, m, d := Now(), [], 0, 0;
    }

    /** `rc_normalize` */
    method NormalizeRange()
      requires Sound(Now()) && (range < TOP ==> inPos < |input|)
      modifies this`range, this`code, this`inPos
      ensures Now() == Normalize(old(Now()), input)
    {
      if range < TOP {
        range := range * 0x100;
        code := (code * 0x100 + input[inPos]) % WORD;
        inPos := inPos + 1;
      }
    }

    lemma MayRead()
      requires Valid() && Early(m, d)
      ensures range < TOP ==> inPos < |input|
    {
      hide Budget, Run, Sound, Early, Models, Evens;
      if range < TOP {
        RunBudget(origin, ops, input);
        TwentyBytes(range, m, d, inPos - origin.pos);
      }
    }

    /** `rc_bit`: one decision under the probability at `slot`, which moves towards the outcome. */
    method Bit(slot: nat) returns (bit: bool)
      requires Valid() && Early(m, d) && slot < PROBS_TOTAL
      modifies this`range, this`code, this`inPos, this`probs, this`ops, this`m, this`d
      ensures Valid() && ops == old(ops) + [Model(slot, bit)] && m == old(m) + 1 && d == old(d)
    {
      hide Normalize, Takes, Early, Models, Evens, Run, AllFair;
      MayRead();
      NormalizeRange();
      ghost var n := Now();
      var p := probs[slot];
      FairAt(probs, slot);
      BoundSplits(range, p);
      var bound := range / 2048 * p;
      if code < bound {
        range := bound;
        probs := probs[slot := p + (2048 - p) / 32];
        bit := false;
      } else {
        range := range - bound;
        code := code - bound;
        probs := probs[slot := p - p / 32];
        bit := true;
      }
      ghost var op := Model(slot, bit);
      assert Reads(n, op) == bit && Taken(n, op) == Now();
      StepTaken(origin, ops, op, input);
      Counted(ops, op);
      ops, m := ops + [op], m + 1;
    }

    /** One round of `rc_direct`: a decision at even odds, by the sign of a subtraction. */
    method EvenBit() returns (bit: nat)
      requires Valid() && Early(m, d)
      modifies this`range, this`code, this`inPos, this`ops, this`m, this`d
      ensures bit <= 1 && Valid() && ops == old(ops) + [Even(bit == 1)] && d == old(d) + 1 && m == old(m)
    {
      hide Normalize, Takes, Early, Models, Evens, Run, AllFair;
      MayRead();
      NormalizeRange();
      ghost var n := Now();
      range := range / 2;
      var rest := (code - range) % WORD;
      HalfBack(code, range);
      var mask := if rest / 0x8000_0000 == 1 then 0xFFFF_FFFF else 0;
      code := (rest + (if mask == 0 then 0 else range)) % WORD;
      bit := (mask + 1) % WORD;
      ghost var op := Even(bit == 1);
      assert Reads(n, op) == op.bit && Taken(n, op) == Now();
      StepTaken(origin, ops, op, input);
      Counted(ops, op);
      ops, d := ops + [op], d + 1;
    }

    /** Room for `n` more modelled decisions in this symbol. */
    ghost predicate Room(n: nat)
      reads this
    {
      (m + n <= 22 && d <= 26) || (m + n <= 23 && d == 0)
    }

    /** `rc_bittree`: a number below a leading one, most significant bit first. */
    method BitTree(base: nat, ghost n: nat, limit: nat) returns (symbol: nat)
      requires Valid() && limit == P2n(n) && 0 < n && Room(n) && base + limit <= PROBS_TOTAL
      modifies this`range, this`code, this`inPos, this`probs, this`ops, this`m, this`d
      ensures Valid() && limit <= symbol < 2 * limit && ops == old(ops) + TreeOps(base, symbol)
      ensures m == old(m) + n && d == old(d)
    {
      hide Valid, TreeOps, P2n;
      TreeStart(base);
      symbol := 1;
      ghost var k := 0;
      while symbol < limit
        invariant Valid() && k <= n && m == old(m) + k && d == old(d)
        invariant P2n(k) <= symbol < 2 * P2n(k)
        invariant ops == old(ops) + TreeOps(base, symbol)
        decreases n - k
      {
        StillBelow(k, n);
        var bit := Bit(base + symbol);
        TreeExtend(base, symbol, bit, k);
        symbol := 2 * symbol + (if bit then 1 else 0);
        k := k + 1;
      }
      Reached(k, n);
    }

    /** `rc_bittree_reverse`: a number, least significant bit first. */
    method BitTreeReverse(base: nat, n: nat) returns (value: nat)
      requires Valid() && 0 < n && Room(n) && base + P2n(n) <= PROBS_TOTAL
      modifies this`range, this`code, this`inPos, this`probs, this`ops, this`m, this`d
      ensures Valid() && ops == old(ops) + RevOps(base, n, value) && value < P2n(n)
      ensures m == old(m) + n && d == old(d)
    {
      hide Valid, P2n, RevOps, RevSym;
      RevStart(base);
      var symbol, i, place := 1, 0, 1;
      value := 0;
      while i < n
        invariant Valid() && i <= n && m == old(m) + i && d == old(d)
        invariant place == P2n(i) && value < place && symbol == RevSym(i, value)
        invariant ops == old(ops) + RevOps(base, i, value)
      {
        RevSymBounds(i, value);
        P2nMono(i + 1, n);
        PowerNext(i);
        var bit := Bit(base + symbol);
        RevExtend(base, i, value, bit);
        if bit {
          symbol := 2 * symbol + 1;
          value := value + place;
        } else {
          symbol := 2 * symbol;
        }
        place := 2 * place;
        i := i + 1;
      }
    }

    /** `rc_direct`: `n` bits at even odds, shifted into `dest`. */
    method Direct(dest: nat, n: nat) returns (r: nat, ghost v: nat)
      requires Valid() && 0 < n && m <= 21 && d + n <= 26
      modifies this`range, this`code, this`inPos, this`ops, this`m, this`d
      ensures Valid() && ops == old(ops) + EvenOps(n, v) && v < P2n(n) && r == dest * P2n(n) + v
      ensures m == old(m) && d == old(d) + n
    {
      hide Valid;
      r, v := dest, 0;
      var i := 0;
      while i < n
        invariant Valid() && i <= n && m == old(m) && d == old(d) + i
        invariant v < P2n(i) && r == dest * P2n(i) + v
        invariant ops == old(ops) + EvenOps(i, v)
      {
        var bit := EvenBit();
        assert EvenOps(i + 1, 2 * v + bit) == EvenOps(i, v) + [Even(bit == 1)];
        assert dest * P2n(i + 1) == 2 * (dest * P2n(i));
        r, v := 2 * r + bit, 2 * v + bit;
        i := i + 1;
      }
    }
  }

  lemma TreeStart(base: nat)
    ensures TreeOps(base, 1) == [] && P2n(0) == 1
  {
  }

  lemma TreeExtend(base: nat, symbol: nat, bit: bool, k: nat)
    requires symbol >= 1
    ensures TreeOps(base, 2 * symbol + (if bit then 1 else 0)) == TreeOps(base, symbol) + [Model(base + symbol, bit)]
    ensures P2n(k + 1) == 2 * P2n(k)
  {
  }

  lemma StillBelow(k: nat, n: nat)
    ensures k >= n ==> P2n(n) <= P2n(k)
  {
    if k >= n {
      P2nMono(n, k);
    }
  }

  lemma Reached(k: nat, n: nat)
    requires k <= n && P2n(n) < 2 * P2n(k)
    ensures k == n
  {
    if k < n {
      P2nMono(k + 1, n);
    }
  }

  lemma RevStart(base: nat)
    ensures P2n(0) == 1 && RevSym(0, 0) == 1 && RevOps(base, 0, 0) == []
  {
  }

  lemma PowerNext(i: nat)
    ensures P2n(i + 1) == 2 * P2n(i)
  {
  }

  lemma RevExtend(base: nat, i: nat, value: nat, bit: bool)
    requires value < P2n(i)
    ensures var next := if bit then value + P2n(i) else value;
            && next < P2n(i + 1)
            && RevSym(i + 1, next) == 2 * RevSym(i, value) + (if bit then 1 else 0)
            && RevOps(base, i + 1, next) == RevOps(base, i, value) + [Model(base + RevSym(i, value), bit)]
  {
    var p := P2n(i);
    var next := if bit then value + p else value;
    DivModUnique(next, p, if bit then 1 else 0, value);
  }
}
