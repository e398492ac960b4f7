/** That there is an encoder: every sequence of symbols that fits has a chunk that spells it. */
module LzmaEncoder {
  import opened Memory
  import opened Numbers
  import opened RangeCoder
  import opened LzmaCode
  import opened LzmaSymbols
  import opened LzmaHonest

  /** The last `n` base-256 digits of a number, most significant first. */
  function Digits(v: nat, n: nat): (s: seq<byte>)
    ensures |s| == n
  {
    if n == 0 then [] else Digits(v / 256, n - 1) + [v % 256]
  }

  lemma {:induction false} DigitsLead(v: nat, n: nat)
    requires v < Pow(256, n)
    ensures Leading(Digits(v, n), n) == v
  {
    if n > 0 {
      var front := Digits(v / 256, n - 1);
      assert Pow(256, n) == 256 * Pow(256, n - 1);
      DigitsLead(v / 256, n - 1);
      LeadingStable(front, Digits(v, n), n - 1);
    }
  }

  /** The interval lies inside the one that a fresh encoder starts from. */
  ghost predicate Framed(iv: Interval) {
    iv.digits >= 5 && iv.low + iv.range <= FIRST * Pow(256, iv.digits - 5)
  }

  lemma WidenFramed(iv: Interval)
    requires Proper(iv) && Framed(iv)
    ensures Framed(Widen(iv)) && Widen(iv).digits <= iv.digits + 1
  {
    hide Pow, AllFair;
    if iv.range < TOP {
      var p := Pow(256, iv.digits - 5);
      PowStep(256, iv.digits - 5);
      assert FIRST * (256 * p) == 256 * (FIRST * p);
      assert iv.low * 0x100 + iv.range * 0x100 == 256 * (iv.low + iv.range);
    }
  }

  lemma NarrowFramed(iv: Interval, op: Choice)
    requires Proper(iv) && Framed(iv) && (op.Model? ==> op.slot < |iv.probs|)
    ensures Framed(Narrow(iv, op)) && Narrow(iv, op).digits <= iv.digits + 1
  {
    hide Pow, Bound;
    WidenFramed(iv);
    if op.Model? {
      BoundSplits(Widen(iv).range, iv.probs[op.slot]);
    }
  }

  lemma {:induction false} NarrowAllFramed(iv: Interval, ops: seq<Choice>)
    requires Proper(iv) && Framed(iv) && AllKnown(|iv.probs|, ops)
    ensures Framed(NarrowAll(iv, ops)) && NarrowAll(iv, ops).digits <= iv.digits + |ops|
  {
    hide Framed, Proper, Narrow;
    if ops != [] {
      var n := |ops| - 1;
      NarrowAllFramed(iv, ops[..n]);
      NarrowFramed(NarrowAll(iv, ops[..n]), ops[n]);
    }
  }

  lemma BlankFramed(probs: seq<nat>)
    requires AllFair(probs)
    ensures Framed(Blank(probs))
  {
    PowOne(256);
  }

  lemma FramedIsShort(iv: Interval)
    requires Framed(iv) && iv.range > 0
    ensures iv.low < Pow(256, iv.digits)
  {
    hide Pow;
    var k := iv.digits - 5;
    PowAdd(256, 5, k);
    PowOne(256);
    PowAdd(256, 1, 1);
    PowAdd(256, 2, 2);
    PowAdd(256, 4, 1);
    var p := Pow(256, k);
    assert Pow(256, 5) == 0x100_0000_0000;
    MulMono(p, FIRST, 0x100_0000_0000);
  }

  /** What an encoder writes for symbols that fit: the low end of its interval, one byte for each digit. */
  lemma EncoderWrites(props: Props, window: nat, probs: seq<nat>, lz0: Lz, sent: seq<Symbol>) returns (full: seq<byte>)
    requires PropsValid(props) && AllFit(lz0, sent, window) && AllFair(probs) && |probs| == PROBS_TOTAL
    ensures Genuine(props, window, Fresh(probs, full), lz0, full, sent)
    ensures 5 <= |full| <= 6 + |AllOps(props, lz0, sent, window)|
  {
    hide AllFit, AllOps, NarrowAll, Pow, Leading, Widen, Framed, AllFair;
    var iv := Standing(props, window, probs, lz0, sent);
    BlankFramed(probs);
    NarrowAllFramed(Blank(probs), AllOps(props, lz0, sent, window));
    WidenFramed(iv);
    var e := Widen(iv);
    FramedIsShort(e);
    full := Digits(e.low, e.digits);
    DigitsLead(e.low, e.digits);
    assert e.digits >= 5 by { FramedIsLong(e); }
  }

  lemma FramedIsLong(iv: Interval)
    requires Framed(iv)
    ensures iv.digits >= 5
  {
  }
}
