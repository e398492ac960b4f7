/** The branch filter for ARM: resumable, in place, and independent of how the data is cut up. */
module Bcj {
  import opened Shared
  import opened Memory
  import opened Dictionary
  import opened Lzma2Format
  import opened Lzma2

  const WORD := 0x1_0000_0000

  // ---------------------------------------------------------------------------------------------
  // The filter on whole sequences

  /** The 24-bit operand of a branch with link at `at`: its absolute target becomes a relative one. */
  function Relative(operand: int, at: int): (r: int)
    ensures 0 <= r < WORD / 4
  {
    (operand * 4 - (at + 8)) % WORD / 4
  }

  /** What the compressing side does to the same operand. */
  function Absolute(operand: int, at: int): (r: int)
    ensures 0 <= r < WORD / 4
  {
    (operand * 4 + (at + 8)) % WORD / 4
  }

  /** The conversion restores what the compressing side replaced, at every aligned address. */
  lemma RelativeUndoesAbsolute(operand: int, at: int)
    requires 0 <= operand < 0x100_0000 && at % 4 == 0
    ensures Relative(Absolute(operand, at) % 0x100_0000, at) % 0x100_0000 == operand
  {
    var x := operand * 4 + (at + 8);
    var a := x % WORD / 4;
    assert x % WORD == 4 * a;
    var q := x / WORD;
    assert x == q * WORD + 4 * a;
    var k := a / 0x100_0000;
    assert a % 0x100_0000 * 4 - (at + 8) == operand * 4 - q * WORD - 4 * (k * 0x100_0000);
    var y := operand * 4 - (q * 64 + k) * 0x400_0000;
    LowBits(operand, q * 64 + k);
  }

  lemma LowBits(operand: int, j: int)
    requires 0 <= operand < 0x100_0000
    ensures (operand * 4 - j * 0x400_0000) % WORD / 4 % 0x100_0000 == operand
  {
    var y := operand * 4 - j * 0x400_0000;
    var r, p := y % WORD, y / WORD;
    assert r == operand * 4 - (j + 64 * p) * 0x400_0000;
    var d := -(j + 64 * p);
    assert r / 4 == operand + d * 0x100_0000;
  }

  function Operand(s: seq<byte>, g: nat): int
    requires g + 4 <= |s|
  {
    s[g] + 0x100 * s[g + 1] as int + 0x1_0000 * s[g + 2] as int
  }

  /** The three bytes of an operand, low byte first. */
  function Third(operand: int, k: nat): byte {
    if k == 0 then operand % 0x100 else if k == 1 then operand / 0x100 % 0x100 else operand / 0x1_0000 % 0x100
  }

  /** Byte `i` of `s` once every whole group of four that ends in 0xEB has been converted. */
  function ArmByte(s: seq<byte>, pos: int, i: nat): byte
    requires i < |s|
  {
    var g := i / 4 * 4;
    if g + 4 <= |s| && s[g + 3] == 0xEB && i < g + 3 then Third(Relative(Operand(s, g), pos + g), i - g) else s[i]
  }

  function Arm(s: seq<byte>, pos: int): (r: seq<byte>)
    ensures |r| == |s| && forall i :: 0 <= i < |s| ==> r[i] == ArmByte(s, pos, i)
  {
    seq<byte>(|s|, i requires 0 <= i < |s| => ArmByte(s, pos, i))
  }

  lemma ArmByteMoved(s: seq<byte>, n: nat, pos: int, i: nat)
    requires n % 4 == 0 && n <= i < |s| && pos % WORD == n % WORD
    ensures ArmByte(s, 0, i) == ArmByte(s[n..], pos, i - n)
  {
    hide Relative;
    var g := i / 4 * 4;
    GroupMoved(i, n);
    if g + 4 <= |s| {
      assert Operand(s, g) == Operand(s[n..], g - n);
      SameRelative(Operand(s, g), g, pos + (g - n));
    }
  }

  lemma GroupMoved(i: nat, n: nat)
    requires n % 4 == 0 && n <= i
    ensures (i - n) / 4 * 4 == i / 4 * 4 - n && n <= i / 4 * 4
  {
    var k := n / 4;
    assert n == 4 * k;
    assert (i - 4 * k) / 4 == i / 4 - k;
  }

  lemma SameRelative(operand: int, a: int, b: int)
    requires a % WORD == b % WORD
    ensures Relative(operand, a) == Relative(operand, b)
  {
    var d := b / WORD - a / WORD;
    assert b == a + d * WORD;
    SameRest(operand * 4 - (b + 8), d);
  }

  lemma SameRest(y: int, d: int)
    ensures (y + d * WORD) % WORD == y % WORD
  {
    var q := y / WORD;
    assert y + d * WORD == (q + d) * WORD + y % WORD;
  }

  /** Filtering may stop at any multiple of four and go on from there. */
  lemma ArmSuffix(s: seq<byte>, n: nat, pos: int)
    requires n % 4 == 0 && n <= |s| && pos % WORD == n % WORD
    ensures Arm(s, 0)[n..] == Arm(s[n..], pos)
  {
    hide ArmByte;
    forall i | n <= i < |s|
      ensures Arm(s, 0)[i] == Arm(s[n..], pos)[i - n]
    {
      ArmByteMoved(s, n, pos, i);
    }
  }

  /** Whole groups do not depend on what follows them. */
  lemma ArmPrefix(s: seq<byte>, t: seq<byte>, k: nat)
    requires s <= t && k <= |s| && k % 4 == 0
    ensures Arm(s, 0)[..k] == Arm(t, 0)[..k]
  {
    forall i: nat | i < k
      ensures Arm(s, 0)[i] == Arm(t, 0)[i]
    {
      ArmByteStable(s, t, k, i);
    }
  }

  lemma ArmByteStable(s: seq<byte>, t: seq<byte>, k: nat, i: nat)
    requires s <= t && i < k <= |s| && k % 4 == 0
    ensures ArmByte(s, 0, i) == ArmByte(t, 0, i)
  {
    var g := i / 4 * 4;
    assert g + 4 <= k;
    assert s[g] == t[g] && s[g + 1] == t[g + 1] && s[g + 2] == t[g + 2] && s[g + 3] == t[g + 3] && s[i] == t[i];
  }

  /** Byte `i` as the compressing side leaves it. */
  function LinkedByte(s: seq<byte>, i: nat): byte
    requires i < |s|
  {
    var g := i / 4 * 4;
    if g + 4 <= |s| && s[g + 3] == 0xEB && i < g + 3 then Third(Absolute(Operand(s, g), g), i - g) else s[i]
  }

  /** What the compressing side makes of a program: every branch with link has an absolute target. */
  function Linked(s: seq<byte>): (r: seq<byte>)
    ensures |r| == |s| && forall i :: 0 <= i < |s| ==> r[i] == LinkedByte(s, i)
  {
    seq<byte>(|s|, i requires 0 <= i < |s| => LinkedByte(s, i))
  }

  /** The filter gives every program back, whatever its length. */
  lemma ArmUndoesLinked(s: seq<byte>)
    ensures Arm(Linked(s), 0) == s
  {
    hide ArmByte, LinkedByte;
    forall i: nat | i < |s| ensures ArmByte(Linked(s), 0, i) == s[i] {
      ByteGivenBack(s, i);
    }
  }

  lemma ByteGivenBack(s: seq<byte>, i: nat)
    requires i < |s|
    ensures ArmByte(Linked(s), 0, i) == s[i]
  {
    hide Relative, Absolute, Third, Operand;
    var t, g := Linked(s), i / 4 * 4;
    assert g % 4 == 0 && g <= i < g + 4;
    if g + 4 <= |s| {
      assert t[g + 3] == s[g + 3];
      if s[g + 3] == 0xEB && i < g + 3 {
        assert t[g] == Third(Absolute(Operand(s, g), g), 0);
        assert t[g + 1] == Third(Absolute(Operand(s, g), g), 1) && t[g + 2] == Third(Absolute(Operand(s, g), g), 2);
        OperandGivenBack(s, t, g);
        ArmThird(t, g, i);
      }
    }
  }

  lemma OperandGivenBack(s: seq<byte>, t: seq<byte>, g: nat)
    requires g % 4 == 0 && g + 4 <= |s| == |t|
    requires var v := Absolute(Operand(s, g), g); t[g] == Third(v, 0) && t[g + 1] == Third(v, 1) && t[g + 2] == Third(v, 2)
    ensures forall k: nat :: k < 3 ==> Third(Relative(Operand(t, g), g), k) == s[g + k]
  {
    hide Relative, Absolute, Third;
    var x := Operand(s, g);
    Thirds(Absolute(x, g));
    RelativeUndoesAbsolute(x, g);
    Thirds(Relative(Operand(t, g), g));
    ThirdsOf(s[g], s[g + 1], s[g + 2], 0);
  }

  lemma ArmThird(t: seq<byte>, g: nat, i: nat)
    requires g % 4 == 0 && g <= i < g + 3 && g + 4 <= |t| && t[g + 3] == 0xEB
    ensures ArmByte(t, 0, i) == Third(Relative(Operand(t, g), g), i - g)
  {
    hide Relative, Operand;
    assert i / 4 * 4 == g;
  }

  /** Only the low 24 bits matter, and they are the three bytes. */
  lemma Thirds(v: nat)
    ensures Third(v, 0) + 0x100 * (Third(v, 1) as int) + 0x1_0000 * (Third(v, 2) as int) == v % 0x100_0000
    ensures forall k: nat :: k < 3 ==> Third(v, k) == Third(v % 0x100_0000, k)
  {
    hide Third;
    var a: int, b: int, c: int, q: int := v % 0x100, v / 0x100 % 0x100, v / 0x1_0000 % 0x100, v / 0x100_0000;
    assert v == a + 0x100 * b + 0x1_0000 * c + 0x100_0000 * q by { hide *; FourParts(v); }
    ThirdsOf(a, b, c, q);
    ThirdsOf(a, b, c, 0);
    var low := a + 0x100 * b + 0x1_0000 * c;
    assert v % 0x100_0000 == low by { hide *; LowPart(v, low, q); }
  }

  lemma FourParts(v: nat)
    ensures v == v % 0x100 + 0x100 * (v / 0x100 % 0x100) + 0x1_0000 * (v / 0x1_0000 % 0x100) + 0x100_0000 * (v / 0x100_0000)
  {
    var v1, v2 := v / 0x100, v / 0x1_0000;
    assert v == 0x100 * v1 + v % 0x100 && v2 == v1 / 0x100;
    assert v1 == 0x100 * v2 + v1 % 0x100 && v / 0x100_0000 == v2 / 0x100;
  }

  lemma LowPart(v: nat, low: nat, q: nat)
    requires low < 0x100_0000 && v == low + 0x100_0000 * q
    ensures v % 0x100_0000 == low
  {
  }

  lemma ThirdsOf(a: byte, b: byte, c: byte, q: nat)
    ensures var v := a as int + 0x100 * b as int + 0x1_0000 * c as int + 0x100_0000 * q;
            Third(v, 0) == a && Third(v, 1) == b && Third(v, 2) == c
  {
    var v := a as int + 0x100 * b as int + 0x1_0000 * c as int + 0x100_0000 * q;
    assert v / 0x100 == b as int + 0x100 * c as int + 0x1_0000 * q;
    assert v / 0x1_0000 == c as int + 0x100 * q;
  }

  // ---------------------------------------------------------------------------------------------
  // The same in terms of the processor's instructions

  /** The instruction at `g`, low byte first. */
  function Instr(s: seq<byte>, g: nat): (w: int)
    requires g + 4 <= |s|
    ensures 0 <= w < WORD
  {
    Operand(s, g) + 0x100_0000 * s[g + 3] as int
  }

  /** `bl` under the condition "always". */
  predicate IsCall(w: int) {
    w / 0x1000_0000 == 14 && w / 0x100_0000 % 16 == 11
  }

  /** Where a call at `at` leads, as far as its 24 bits tell: the processor is two instructions ahead. */
  function Target(at: int, w: int): int {
    (at + 8 + 4 * (w % 0x100_0000)) % 0x400_0000
  }

  lemma CallByte(s: seq<byte>, g: nat)
    requires g + 4 <= |s|
    ensures IsCall(Instr(s, g)) <==> s[g + 3] == 0xEB
    ensures Instr(s, g) % 0x100_0000 == Operand(s, g)
  {
  }

  /** The compressing side puts the target of each call in its place, and leaves all other instructions alone. */
  lemma LinkedInstr(s: seq<byte>, g: nat)
    requires g % 4 == 0 && g + 4 <= |s|
    ensures var w, w' := Instr(s, g), Instr(Linked(s), g);
            if IsCall(w) then IsCall(w') && 4 * (w' % 0x100_0000) == Target(g, w) else w' == w
  {
    hide Absolute, Third, Operand, IsCall, Target, LinkedByte;
    var t, v := Linked(s), Absolute(Operand(s, g), g);
    CallByte(s, g);
    CallByte(t, g);
    LinkedGroup(s, g);
    if s[g + 3] == 0xEB {
      Thirds(v);
      assert Operand(t, g) == v % 0x100_0000 by { ThirdsMake(t, g, v); }
      AbsoluteTarget(Instr(s, g), g);
    } else {
      assert t[g..g + 4] == s[g..g + 4];
      SameOperand(s, t, g);
    }
  }

  lemma ThirdsMake(t: seq<byte>, g: nat, v: nat)
    requires g + 4 <= |t| && t[g] == Third(v, 0) && t[g + 1] == Third(v, 1) && t[g + 2] == Third(v, 2)
    ensures Operand(t, g) == v % 0x100_0000
  {
    hide Third;
    Thirds(v);
  }

  lemma LinkedGroup(s: seq<byte>, g: nat)
    requires g % 4 == 0 && g + 4 <= |s|
    ensures var t, v := Linked(s), Absolute(Operand(s, g), g);
            && t[g + 3] == s[g + 3]
            && (s[g + 3] == 0xEB ==> t[g] == Third(v, 0) && t[g + 1] == Third(v, 1) && t[g + 2] == Third(v, 2))
            && (s[g + 3] != 0xEB ==> t[g] == s[g] && t[g + 1] == s[g + 1] && t[g + 2] == s[g + 2])
  {
    hide Absolute, Third, Operand;
    assert g / 4 * 4 == g && (g + 1) / 4 * 4 == g && (g + 2) / 4 * 4 == g && (g + 3) / 4 * 4 == g;
  }

  lemma ArmGroup(s: seq<byte>, pos: int, g: nat)
    requires g % 4 == 0 && g + 4 <= |s|
    ensures var t, v := Arm(s, pos), Relative(Operand(s, g), pos + g);
            && t[g + 3] == s[g + 3]
            && (s[g + 3] == 0xEB ==> t[g] == Third(v, 0) && t[g + 1] == Third(v, 1) && t[g + 2] == Third(v, 2))
            && (s[g + 3] != 0xEB ==> t[g] == s[g] && t[g + 1] == s[g + 1] && t[g + 2] == s[g + 2])
  {
    hide Relative, Third, Operand;
    assert g / 4 * 4 == g && (g + 1) / 4 * 4 == g && (g + 2) / 4 * 4 == g && (g + 3) / 4 * 4 == g;
  }

  lemma SameOperand(s: seq<byte>, t: seq<byte>, g: nat)
    requires |s| == |t| && g + 4 <= |s| && s[g..g + 4] == t[g..g + 4]
    ensures Instr(s, g) == Instr(t, g)
  {
    assert s[g] == s[g..g + 4][0] && s[g + 1] == s[g..g + 4][1] && s[g + 2] == s[g..g + 4][2] && s[g + 3] == s[g..g + 4][3];
  }

  lemma AbsoluteTarget(w: int, at: int)
    requires 0 <= w < WORD && at % 4 == 0
    ensures 4 * (Absolute(w % 0x100_0000, at) % 0x100_0000) == Target(at, w)
  {
    var x := w % 0x100_0000;
    var y := x * 4 + (at + 8);
    Quarter(y);
    LowTarget(y, y % WORD / 4, y / WORD);
  }

  lemma Quarter(y: int)
    requires y % 4 == 0
    ensures y == y / WORD * WORD + 4 * (y % WORD / 4) && 0 <= y % WORD / 4
  {
  }

  lemma LowTarget(y: int, r: nat, q: int)
    requires y == q * WORD + 4 * r
    ensures y % 0x400_0000 == 4 * (r % 0x100_0000)
  {
    var k, z := r / 0x100_0000, 4 * (r % 0x100_0000);
    assert y == z - -(64 * q + k) * 0x400_0000;
    Around(z, -(64 * q + k));
  }

  /** The filter makes of each call one whose target is the address that stood in it, and leaves the rest alone. */
  lemma ArmInstr(s: seq<byte>, pos: int, g: nat)
    requires g % 4 == 0 && pos % 4 == 0 && g + 4 <= |s|
    ensures var w, w' := Instr(s, g), Instr(Arm(s, pos), g);
            if IsCall(w) then IsCall(w') && Target(pos + g, w') == 4 * (w % 0x100_0000) else w' == w
  {
    hide Relative, Third, Operand, IsCall, Target, ArmByte;
    var t, v := Arm(s, pos), Relative(Operand(s, g), pos + g);
    CallByte(s, g);
    CallByte(t, g);
    ArmGroup(s, pos, g);
    if s[g + 3] == 0xEB {
      ThirdsMake(t, g, v);
      RelativeTarget(Instr(s, g), Instr(t, g), pos + g);
    } else {
      assert t[g..g + 4] == s[g..g + 4];
      SameOperand(s, t, g);
    }
  }

  lemma RelativeTarget(w: int, w': int, at: int)
    requires 0 <= w < WORD && at % 4 == 0 && w' % 0x100_0000 == Relative(w % 0x100_0000, at) % 0x100_0000
    ensures Target(at, w') == 4 * (w % 0x100_0000)
  {
    var x := w % 0x100_0000;
    var y := x * 4 - (at + 8);
    var r := Relative(x, at);
    assert y % WORD == 4 * r;
    var q, k := y / WORD, r / 0x100_0000;
    assert r % 0x100_0000 == r - 0x100_0000 * k;
    assert at + 8 + 4 * (r % 0x100_0000) == 4 * x - (64 * q + k) * 0x400_0000;
    Around(4 * x, 64 * q + k);
  }

  lemma Around(x: int, j: int)
    requires 0 <= x < 0x400_0000
    ensures (x - j * 0x400_0000) % 0x400_0000 == x
  {
  }

  // ---------------------------------------------------------------------------------------------
  // The resumable filter

  /** The LZMA2 decoder below the filter, with the input that the caller has given it. */
  class Source {
    const lzma2: Decoder
    var input: seq<byte>
    var inPos: nat
    var failed: bool

    constructor (lzma2: Decoder)
      requires lzma2.Valid()
      ensures Valid() && this.lzma2 == lzma2 && !failed && input == []
    {
      this.lzma2, input, inPos, failed := lzma2, [], 0, false;
    }

    ghost predicate Valid()
      reads this, lzma2, lzma2.rc, lzma2.dict, lzma2.dict.buf, lzma2.lzma
    {
      inPos <= |input| && (failed || lzma2.Valid())
    }

    /** The next piece of the stream; what is left of the one before is the caller's to repeat. */
    method Offer(input: seq<byte>)
      requires Valid()
      modifies this`input, this`inPos
      ensures Valid() && this.input == input && inPos == 0
    {
      this.input, inPos := input, 0;
    }

    /** What is left of the input. */
    function Rest(): seq<byte>
      requires inPos <= |input|
      reads this
    {
      input[inPos..]
    }

    /** The input from `i` on was the next of a stream with this meaning; all of that is decoded, or the rest is expected. */
    ghost predicate Serves(target: seq<byte>, text: seq<byte>, i: nat, ended: bool)
      reads this, lzma2, lzma2.rc, lzma2.dict, lzma2.lzma
    {
      if ended then lzma2.delivered == target else lzma2.Fed(target, text, input, i, inPos)
    }

    /** A call of the decoder, for as much as fits behind `from`. */
    method Read(buf: array<byte>, from: nat) returns (to: nat, ret: Ret)
      requires Valid() && !failed && from <= buf.Length && buf != lzma2.dict.buf
      modifies this`inPos, this`failed, lzma2, lzma2.rc, lzma2.dict, lzma2.dict.buf, lzma2.lzma, buf
      ensures Valid() && from <= to <= buf.Length && (ret == Okay || ret == StreamEnd || ret == DataError) && (ret == DataError <==> failed)
      ensures ret != DataError ==> old(inPos) <= inPos && old(lzma2.delivered) <= lzma2.delivered
      ensures ret != DataError ==> buf[..to] == old(buf[..from]) + lzma2.delivered[|old(lzma2.delivered)|..]
      ensures forall target, text :: old(lzma2.Expects(target, text)) && Agreeing(old(Rest()), text) ==>
                && !failed && Serves(target, text, old(inPos), ret == StreamEnd)
                && (Given(target, text, old(Rest()), old(lzma2.delivered), buf.Length - from) ==> ret == StreamEnd)
    {
      hide Decoder.Valid, Decoder.Expects, Agreeing, Given;
      var b := new XzBuf(input[inPos..], buf.Length - from);
      assert b.input[b.inPos..] == b.input;
      label Offered:
      ret := lzma2.Decode(b);
      inPos, failed, to := inPos + b.inPos, ret == DataError, from + |b.out|;
      forall i | from <= i < to {
        buf[i] := b.out[i - from];
      }
      assert buf[..to] == old(buf[..from]) + b.out;
      forall target, text | old(lzma2.Expects(target, text)) && Agreeing(old(Rest()), text)
        ensures !failed && Serves(target, text, old(inPos), ret == StreamEnd)
        ensures Given(target, text, old(Rest()), old(lzma2.delivered), buf.Length - from) ==> ret == StreamEnd
      {
        assert old@Offered(lzma2.Expects(target, text));
        if ret == Okay {
          TookBehind(input, old(inPos), b.inPos, text);
        }
      }
    }
  }

  /** What was taken of the rest of the input was taken of the input. */
  lemma TookBehind(input: seq<byte>, i: nat, k: nat, text: seq<byte>)
    requires i + k <= |input| && Took(input[i..], 0, k, text)
    ensures Took(input, i, i + k, text)
  {
    assert input[i..][0..k] == input[i..i + k];
  }

  class Filter {
    const src: Source
    const temp: array<byte>
    var size: nat
    var filtered: nat
    var pos: nat
    var ret: Ret

    /** Everything that has gone to the output, and whether the end or an error has been reported. */
    ghost var delivered: seq<byte>
    ghost var finished: bool

    /** Everything that the decoder has handed up. */
    ghost function Decoded(): seq<byte>
      reads src.lzma2
    {
      src.lzma2.delivered
    }

    ghost predicate Valid()
      reads this, temp, src, src.lzma2, src.lzma2.rc, src.lzma2.dict, src.lzma2.dict.buf, src.lzma2.lzma
    {
      && src.Valid() && temp.Length == 16 && temp != src.lzma2.dict.buf && filtered <= size <= 16 && !finished && !src.failed
      && (ret == Okay || ret == StreamEnd)
      && InStep(Decoded(), delivered, temp[..size], filtered, pos, ret == StreamEnd)
    }

    /** The end has not been reported yet: if it was found, something is still to be delivered. */
    ghost predicate Open()
      reads this, temp, src, src.lzma2, src.lzma2.rc, src.lzma2.dict, src.lzma2.dict.buf, src.lzma2.lzma
    {
      Valid() && (ret == StreamEnd ==> filtered > 0)
    }

    /** The caller's buffer is neither the filter's nor the dictionary. */
    predicate Apart(out: array<byte>)
      reads src
    {
      out != temp && out != src.lzma2.dict.buf
    }

    constructor (src: Source)
      requires src.Valid() && src.lzma2.delivered == [] && !src.failed
      ensures Open() && this.src == src && delivered == [] && fresh(temp)
    {
      hide InStep;
      NothingYet();
      this.src, temp := src, new byte[16];
      size, filtered, pos, ret, delivered, finished := 0, 0, 0, Okay, [], false;
    }

    /** One round of `bcj_arm`: the group of four at `at`, which lies at `addr0` in the whole. */
    method Group(buf: array<byte>, at: nat, addr0: nat)
      requires at + 4 <= buf.Length
      modifies buf
      ensures buf[..at] == old(buf[..at]) && buf[at + 4..] == old(buf[at + 4..])
      ensures buf[at..at + 4] == Arm(old(buf[at..at + 4]), addr0)
    {
      ghost var g := buf[at..at + 4];
      if buf[at + 3] == 0xEB {
        var addr: int := buf[at] as int + 0x100 * buf[at + 1] as int + 0x1_0000 * buf[at + 2] as int;
        addr := addr * 4;
        addr := (addr - (addr0 + 8)) % WORD;
        addr := addr / 4;
        assert addr == Relative(Operand(g, 0), addr0);
        buf[at] := addr % 0x100;
        buf[at + 1] := addr / 0x100 % 0x100;
        buf[at + 2] := addr / 0x1_0000 % 0x100;
      }
      GroupIs(g, addr0, buf[at..at + 4]);
    }

    method Round(buf: array<byte>, from: nat, to: nat, i: nat, ghost head: seq<byte>, ghost s: seq<byte>, ghost tail: seq<byte>)
      requires Halfway(buf[..], from, to, head, s, tail, pos, i) && i % 4 == 0 && i + 4 <= |s|
      modifies buf
      ensures Halfway(buf[..], from, to, head, s, tail, pos, i + 4)
    {
      hide Arm, Halfway, Relative, Valid;
      ghost var b0 := buf[..];
      GroupThere(b0, from, to, head, s, tail, pos, i);
      var g := from + i;
      Group(buf, g, pos + i);
      assert buf[..][..g] == buf[..g] && buf[..][g + 4..] == buf[g + 4..] && buf[..][g..g + 4] == buf[g..g + 4];
      NextGroup(b0, buf[..], from, to, head, s, tail, pos, i);
    }

    /** `bcj_arm` and `bcj_apply`: convert `buf[from..to]` in place; the last bytes that make no group stay. */
    method Apply(buf: array<byte>, from: nat, to: nat) returns (next: nat)
      requires from <= to <= buf.Length
      modifies buf, this`pos
      ensures next == from + (to - from) / 4 * 4 && pos == (old(pos) + (next - from)) % WORD
      ensures buf[..from] == old(buf[..from]) && buf[to..] == old(buf[to..])
      ensures buf[from..to] == Arm(old(buf[from..to]), old(pos))
    {
      hide Arm, Halfway;
      ghost var s, head, tail := buf[from..to], buf[..from], buf[to..];
      var i, n := 0, (to - from) / 4 * 4;
      HalfwayStart(buf[..], from, to, pos);
      while i < n
        invariant i <= n && i % 4 == 0 && pos == old(pos)
        invariant Halfway(buf[..], from, to, head, s, tail, pos, i)
      {
        Round(buf, from, to, i, head, s, tail);
        i := i + 4;
      }
      HalfwayEnd(buf[..], from, to, head, s, tail, pos, n);
      next := from + i;
      pos := (pos + (next - from)) % WORD;
    }

    /** `bcj_flush`: filtered bytes go to the output; the rest moves up. */
    method Flush(out: array<byte>, outPos: nat) returns (next: nat)
      requires Valid() && outPos <= out.Length && Apart(out)
      modifies this`size, this`filtered, this`delivered, temp, out
      ensures Valid() && ret == old(ret) && next <= out.Length && Grown(old(out[..]), outPos, out[..], next, old(delivered), delivered)
      ensures filtered > 0 ==> next == out.Length
    {
      hide InStep, Source.Valid;
      var n := if filtered < out.Length - outPos then filtered else out.Length - outPos;
      ghost var t := temp[..size];
      FlushKeeps(Decoded(), delivered, t, filtered, pos, ret == StreamEnd, n);
      CopyTo(temp, 0, out, outPos, n);
      filtered, size := filtered - n, size - n;
      MoveUp(n, size);
      delivered := delivered + t[..n];
      next := outPos + n;
    }

    /** `memcpy` between two buffers. */
    method CopyTo(src0: array<byte>, from: nat, dst: array<byte>, to: nat, n: nat)
      requires src0 != dst && from + n <= src0.Length && to + n <= dst.Length
      modifies dst
      ensures dst[..to] == old(dst[..to]) && dst[to..to + n] == src0[from..from + n] && dst[to + n..] == old(dst[to + n..])
    {
      forall i | to <= i < to + n {
        dst[i] := src0[from + (i - to)];
      }
    }

    /** `memmove` within the bytes kept back. */
    method MoveUp(k: nat, n: nat)
      requires k + n <= temp.Length
      modifies temp
      ensures temp[..n] == old(temp[k..k + n])
    {
      forall i | 0 <= i < n {
        temp[i] := temp[i + k];
      }
    }

    /** The unfiltered rest and new data go straight to the output. */
    method Gather(out: array<byte>, outPos: nat) returns (end: nat)
      requires src.Valid() && !src.failed && size <= temp.Length && Apart(out) && outPos + size <= out.Length
      modifies this`ret, out
      modifies src`inPos, src`failed, src.lzma2, src.lzma2.rc, src.lzma2.dict, src.lzma2.dict.buf, src.lzma2.lzma
      ensures src.Valid() && outPos <= end <= out.Length && (ret == DataError <==> src.failed)
      ensures ret == Okay || ret == StreamEnd || ret == DataError
      ensures ret != DataError ==> old(Decoded()) <= Decoded() && out[..outPos] == old(out[..outPos])
      ensures ret != DataError ==> out[outPos..end] == old(temp[..size]) + Decoded()[|old(Decoded())|..]
      ensures forall target, text :: old(src.lzma2.Expects(target, text)) && Agreeing(old(src.Rest()), text) ==>
                && ret != DataError && src.Serves(target, text, old(src.inPos), ret == StreamEnd)
                && (Given(target, text, old(src.Rest()), old(Decoded()), out.Length - outPos - old(size)) ==> ret == StreamEnd)
    {
      hide Arm, Decoder.Valid, Decoder.Expects, Decoder.Fed, Agreeing, Given, Source.Serves;
      ghost var l, t := Decoded(), temp[..size];
      CopyTo(temp, 0, out, outPos, size);
      label Copied:
      end, ret := src.Read(out, outPos + size);
      forall target, text | old(src.lzma2.Expects(target, text)) && Agreeing(old(src.Rest()), text)
        ensures ret != DataError && src.Serves(target, text, old(src.inPos), ret == StreamEnd)
        ensures Given(target, text, old(src.Rest()), l, out.Length - outPos - size) ==> ret == StreamEnd
      {
        assert old@Copied(src.lzma2.Expects(target, text));
      }
      if ret != DataError {
        Appended(out[..end], old(out[..outPos]), t, Decoded()[|l|..]);
      }
    }

    /** And are filtered there. */
    method Refill(out: array<byte>, outPos: nat) returns (end: nat, next: nat)
      requires Valid() && filtered == 0 && ret != StreamEnd && Apart(out) && outPos + size <= out.Length
      modifies this`pos, this`ret, out
      modifies src`inPos, src`failed, src.lzma2, src.lzma2.rc, src.lzma2.dict, src.lzma2.dict.buf, src.lzma2.lzma
      ensures src.Valid() && outPos <= next <= end <= out.Length && (ret == DataError <==> src.failed)
      ensures ret == Okay || ret == StreamEnd || ret == DataError
      ensures ret != DataError ==> out[..outPos] == old(out[..outPos]) && end - next < 4
      ensures ret != DataError ==> delivered + out[outPos..end] == Arm(Decoded(), 0)
      ensures ret != DataError ==> InStep(Decoded(), delivered, out[outPos..end], next - outPos, pos, false)
      ensures forall target, text :: old(src.lzma2.Expects(target, text)) && Agreeing(old(src.Rest()), text) ==>
                && ret != DataError && src.Serves(target, text, old(src.inPos), ret == StreamEnd)
                && (Given(target, text, old(src.Rest()), old(Decoded()), out.Length - outPos - old(size)) ==> ret == StreamEnd)
    {
      hide InStep, Arm, Source.Valid, Decoder.Expects, Decoder.Fed, Agreeing, Given, Source.Serves;
      Sane();
      ghost var l, t, i, rest := Decoded(), temp[..size], src.inPos, src.Rest();
      end := Gather(out, outPos);
      if ret == DataError {
        return end, end;
      }
      ghost var more := Decoded()[|l|..];
      assert Decoded() == l + more;
      GrowStep(l, delivered, t, pos, more);
      label Gathered:
      next := Apply(out, outPos, end);
      forall target, text | old(src.lzma2.Expects(target, text)) && Agreeing(rest, text)
        ensures src.Serves(target, text, old(src.inPos), ret == StreamEnd)
      {
        assert old@Gathered(src.Serves(target, text, i, ret == StreamEnd));
      }
    }

    /** The first part of a call: decode into the output; what makes no group comes back into `temp`. */
    method Direct(out: array<byte>, outPos: nat) returns (next: nat, done: bool)
      requires Valid() && filtered == 0 && ret != StreamEnd && Apart(out) && outPos + size <= out.Length
      modifies this, temp, out
      modifies src`inPos, src`failed, src.lzma2, src.lzma2.rc, src.lzma2.dict, src.lzma2.dict.buf, src.lzma2.lzma
      ensures next <= out.Length && (ret == DataError || ret == StreamEnd ==> done) && (ret == DataError <==> src.failed)
      ensures ret != DataError ==> Grown(old(out[..]), outPos, out[..], next, old(delivered), delivered)
      ensures ret == StreamEnd ==> finished && delivered == Arm(Decoded(), 0)
      ensures ret == Okay ==> Valid() && filtered == 0 && (!done ==> size > 0 || next == out.Length)
      ensures ret == Okay || ret == StreamEnd || ret == DataError
      ensures forall target, text :: old(src.lzma2.Expects(target, text)) && Agreeing(old(src.Rest()), text) ==>
                && ret != DataError && src.Serves(target, text, old(src.inPos), ret == StreamEnd)
                && (Given(target, text, old(src.Rest()), old(Decoded()), out.Length - outPos - old(size)) ==> ret == StreamEnd)
    {
      hide InStep, Arm, Decoder.Valid, Decoder.Expects, Decoder.Fed, Agreeing, Given;
      var end;
      end, next := Refill(out, outPos);
      if ret == DataError {
        finished := true;
        return outPos, true;
      }
      if ret == StreamEnd {
        delivered, finished := delivered + out[outPos..end], true;
        return end, true;
      }
      ghost var u := out[outPos..end];
      FlushKeeps(Decoded(), delivered, u, next - outPos, pos, false, next - outPos);
      Parts(out[..], outPos, next, end);
      size := end - next;
      CopyTo(out, next, temp, 0, size);
      delivered := delivered + out[outPos..next];
      done := next + size < out.Length;
    }

    /** Decode into `temp` and filter there. */
    method Stock()
      requires Valid() && filtered == 0 && ret != StreamEnd
      modifies this`size, this`filtered, this`pos, this`ret, temp
      modifies src`inPos, src`failed, src.lzma2, src.lzma2.rc, src.lzma2.dict, src.lzma2.dict.buf, src.lzma2.lzma
      ensures (ret != DataError ==> Valid()) && (ret == DataError <==> src.failed)
      ensures forall target, text :: old(src.lzma2.Expects(target, text)) && Agreeing(old(src.Rest()), text) ==>
                && ret != DataError && src.Serves(target, text, old(src.inPos), ret == StreamEnd)
                && (Given(target, text, old(src.Rest()), old(Decoded()), 16 - old(size)) ==> ret == StreamEnd)
    {
      hide InStep, Arm, Decoder.Valid, Decoder.Expects, Decoder.Fed, Agreeing, Given;
      ghost var l, t := Decoded(), temp[..size];
      var end;
      end, ret := src.Read(temp, size);
      if ret == DataError {
        return;
      }
      ghost var more := Decoded()[|l|..];
      assert Decoded() == l + more;
      assert temp[0..end] == t + more;
      GrowStep(l, delivered, t, pos, more);
      size := end;
      filtered := Apply(temp, 0, size);
      assert temp[0..size] == temp[..size];
      if ret == StreamEnd {
        filtered := size;
      }
    }

    /** The second part of a call: decode into `temp`, and deliver what fits. */
    method Indirect(out: array<byte>, outPos: nat) returns (next: nat)
      requires Valid() && filtered == 0 && ret != StreamEnd && Apart(out) && outPos < out.Length
      modifies this, temp, out
      modifies src`inPos, src`failed, src.lzma2, src.lzma2.rc, src.lzma2.dict, src.lzma2.dict.buf, src.lzma2.lzma
      ensures ret != DataError ==> Valid() && next <= out.Length && Grown(old(out[..]), outPos, out[..], next, old(delivered), delivered)
      ensures (ret != DataError && filtered > 0 ==> next == out.Length) && (ret == DataError <==> src.failed)
      ensures forall target, text :: old(src.lzma2.Expects(target, text)) && Agreeing(old(src.Rest()), text) ==>
                && ret != DataError && src.Serves(target, text, old(src.inPos), ret == StreamEnd)
                && (Given(target, text, old(src.Rest()), old(Decoded()), 16 - old(size)) ==> ret == StreamEnd)
    {
      hide Valid, Grown, Decoder.Expects, Decoder.Fed, Agreeing, Given;
      Sane();
      ghost var i, rest := src.inPos, src.Rest();
      Stock();
      if ret == DataError {
        finished := true;
        return outPos;
      }
      label Stocked:
      next := Flush(out, outPos);
      forall target, text | old(src.lzma2.Expects(target, text)) && Agreeing(rest, text)
        ensures src.Serves(target, text, i, ret == StreamEnd)
      {
        assert old@Stocked(src.Serves(target, text, i, ret == StreamEnd));
      }
    }

    /** The stream goes on as an encoder wrote it, or all of it has been decoded. */
    ghost predicate Coming(target: seq<byte>, text: seq<byte>)
      reads this, src, src.lzma2, src.lzma2.rc, src.lzma2.dict, src.lzma2.lzma
    {
      if ret == StreamEnd then Decoded() == target else src.lzma2.Expects(target, text)
    }

    /** In front of a stream made from a program, what is to be delivered in the end is that program. */
    lemma ProgramComing(parts: seq<Part>, program: seq<byte>)
      requires ret != StreamEnd && src.lzma2.sequence == Control && Decoded() == []
      requires AllFits(src.lzma2.EncNow(), parts, src.lzma2.dict.end)
      requires MeaningOfAll(src.lzma2.EncNow(), parts, src.lzma2.dict.end) == Linked(program)
      ensures AllSized(parts) && Coming(Linked(program), StreamBytes(parts)) && Arm(Linked(program), 0) == program
    {
      hide AllFits, MeaningOfAll, StreamBytes, Decoder.Expects, Arm;
      src.lzma2.StreamExpected(parts);
      assert [] + Linked(program) == Linked(program);
      ArmUndoesLinked(program);
    }

    /** What the decoder serves after it has served the input up to `j`. */
    lemma ServesOn(target: seq<byte>, text: seq<byte>, i: nat, j: nat, ended: bool)
      requires Took(src.input, i, j, text) && src.Serves(target, text[j - i..], j, ended)
      ensures src.Serves(target, text, i, ended)
    {
      hide Decoder.Fed;
      if !ended {
        src.lzma2.FedOn(target, text, src.input, i, j, src.inPos);
      }
    }

    lemma ServedSoFar(target: seq<byte>, text: seq<byte>, i: nat)
      requires src.Serves(target, text, i, false) && i <= |src.input| && Agreeing(src.input[i..], text)
      ensures Took(src.input, i, src.inPos, text) && src.lzma2.Expects(target, text[src.inPos - i..])
      ensures Agreeing(src.Rest(), text[src.inPos - i..])
    {
      hide Agreeing, Took, Decoder.Expects;
      src.lzma2.FedFacts(src.input, i, src.inPos);
      TookRest(src.input, i, src.inPos, text);
    }

    /** At the end of the stream and with room for all of it nothing is kept back. */
    lemma Emptied(target: seq<byte>, text: seq<byte>, i: nat, d: seq<byte>, room: int, o: seq<byte>, outPos: nat, next: nat)
      requires Valid() && src.Serves(target, text, i, true) && |target| - |d| <= room && room == |o| - outPos
      requires |delivered| == |d| + (next - outPos) && (filtered > 0 ==> next == |o|)
      ensures filtered == 0
    {
      Lengths();
    }

    /** Decode through `temp`; what was decoded before is all there is when nothing more can come. */
    method Second(out: array<byte>, outPos: nat) returns (next: nat)
      requires Valid() && filtered == 0 && ret != StreamEnd && Apart(out) && outPos < out.Length
      modifies this, temp, out
      modifies src`inPos, src`failed, src.lzma2, src.lzma2.rc, src.lzma2.dict, src.lzma2.dict.buf, src.lzma2.lzma
      ensures ret != DataError ==> Valid() && next <= out.Length && Grown(old(out[..]), outPos, out[..], next, old(delivered), delivered)
      ensures (ret != DataError && filtered > 0 ==> next == out.Length) && (ret == DataError <==> src.failed)
      ensures forall target, text :: old(src.lzma2.Expects(target, text)) && Agreeing(old(src.Rest()), text) ==>
                && ret != DataError && src.Serves(target, text, old(src.inPos), ret == StreamEnd)
                && (Given(target, text, old(src.Rest()), old(delivered), out.Length - outPos) && |target| <= old(|Decoded()|)
                    ==> ret == StreamEnd && filtered == 0)
    {
      hide Valid, InStep, Arm, Decoder.Expects, Decoder.Fed, Agreeing, Source.Serves;
      Sane();
      Lengths();
      ghost var i, rest, d := src.inPos, src.Rest(), delivered;
      next := Indirect(out, outPos);
      forall target, text | old(src.lzma2.Expects(target, text)) && Agreeing(rest, text) && Given(target, text, rest, d, out.Length - outPos)
                            && |target| <= old(|Decoded()|)
        ensures ret == StreamEnd && filtered == 0
      {
        assert Given(target, text, rest, old(Decoded()), 16 - old(size));
        Emptied(target, text, i, d, out.Length - outPos, out[..], outPos, next);
      }
    }

    /** Nothing was taken or delivered, and no more output can come. */
    ghost predicate Standstill(target: seq<byte>, i: nat, d: seq<byte>)
      reads this, src, src.lzma2
    {
      src.inPos == i && delivered == d && |target| <= |Decoded()|
    }

    /** Decode into the output if there is more room than is kept back, or nothing is. */
    method First(out: array<byte>, outPos: nat) returns (next: nat, done: bool)
      requires Valid() && filtered == 0 && ret != StreamEnd && Apart(out) && outPos <= out.Length
      modifies this, temp, out
      modifies src`inPos, src`failed, src.lzma2, src.lzma2.rc, src.lzma2.dict, src.lzma2.dict.buf, src.lzma2.lzma
      ensures next <= out.Length && (ret == DataError || ret == StreamEnd ==> done) && (ret == DataError <==> src.failed)
      ensures ret == Okay || ret == StreamEnd || ret == DataError
      ensures ret != DataError ==> Grown(old(out[..]), outPos, out[..], next, old(delivered), delivered)
      ensures ret == StreamEnd ==> finished && delivered == Arm(Decoded(), 0)
      ensures ret == Okay ==> Valid() && filtered == 0
      ensures forall target, text :: old(src.lzma2.Expects(target, text)) && Agreeing(old(src.Rest()), text) ==>
                && ret != DataError && src.Serves(target, text, old(src.inPos), ret == StreamEnd)
                && (Given(target, text, old(src.Rest()), old(delivered), out.Length - outPos) ==>
                      ret == StreamEnd || (next == outPos < out.Length && !done && Standstill(target, old(src.inPos), old(delivered))))
    {
      hide Valid, InStep, Arm, Grown, Decoder.Fed, Decoder.Expects, Agreeing;
      Sane();
      Lengths();
      if size < out.Length - outPos || size == 0 {
        next, done := Direct(out, outPos);
      } else {
        next, done := outPos, false;
        GrownNone(out[..], next, delivered);
        src.lzma2.FedNone(src.input, src.inPos);
        forall target, text | src.lzma2.Expects(target, text) ensures |Decoded()| <= |target| {
          src.lzma2.MoreOfStream(target, text);
        }
      }
    }

    /** Behind the first data, if there is still room. */
    method Then(out: array<byte>, outPos: nat, ghost i: nat, ghost rest: seq<byte>, ghost d: seq<byte>) returns (next: nat)
      requires Valid() && filtered == 0 && ret != StreamEnd && Apart(out) && outPos <= out.Length
      requires i <= |src.input| && rest == src.input[i..]
      modifies this, temp, out
      modifies src`inPos, src`failed, src.lzma2, src.lzma2.rc, src.lzma2.dict, src.lzma2.dict.buf, src.lzma2.lzma
      ensures ret != DataError ==> Valid() && next <= out.Length && Grown(old(out[..]), outPos, out[..], next, old(delivered), delivered)
      ensures (ret != DataError && filtered > 0 ==> next == out.Length) && (ret == DataError <==> src.failed)
      ensures forall target, text :: old(src.Serves(target, text, i, false)) && Agreeing(rest, text) ==>
                && ret != DataError && src.Serves(target, text, i, ret == StreamEnd)
                && (old(Standstill(target, i, d)) && Given(target, text, rest, d, out.Length - outPos) && outPos < out.Length
                    ==> ret == StreamEnd && filtered == 0)
    {
      hide Valid, InStep, Arm, Decoder.Expects, Decoder.Fed, Agreeing, Source.Serves, Grown;
      Sane();
      ghost var j := src.inPos;
      forall target, text | src.Serves(target, text, i, false) && Agreeing(rest, text)
        ensures Took(src.input, i, j, text) && src.lzma2.Expects(target, text[j - i..]) && Agreeing(src.Rest(), text[j - i..])
      {
        ServedSoFar(target, text, i);
      }
      if outPos == out.Length {
        GrownNone(out[..], outPos, delivered);
        return outPos;
      }
      next := Second(out, outPos);
      forall target, text | old(src.Serves(target, text, i, false)) && Agreeing(rest, text)
        ensures ret != DataError && src.Serves(target, text, i, ret == StreamEnd)
        ensures old(Standstill(target, i, d)) && Given(target, text, rest, d, out.Length - outPos) ==> ret == StreamEnd && filtered == 0
      {
        var more := text[j - i..];
        assert old(src.lzma2.Expects(target, more));
        ServesOn(target, text, i, j, ret == StreamEnd);
        assert i == j ==> more == text;
      }
    }

    /** The part of a call behind the first flush: the next data is decoded, directly, through `temp`, or both. */
    method Fetch(out: array<byte>, outPos: nat) returns (next: nat, r: Ret)
      requires Valid() && filtered == 0 && ret != StreamEnd && Apart(out) && outPos <= out.Length
      modifies this, temp, out
      modifies src`inPos, src`failed, src.lzma2, src.lzma2.rc, src.lzma2.dict, src.lzma2.dict.buf, src.lzma2.lzma
      ensures r != DataError ==> next <= out.Length && Grown(old(out[..]), outPos, out[..], next, old(delivered), delivered)
      ensures r == Okay ==> Open() && delivered <= Arm(Decoded(), 0)
      ensures r == StreamEnd ==> delivered == Arm(Decoded(), 0) && ret == StreamEnd
      ensures (r == DataError <==> src.failed) && (r == Okay || r == StreamEnd || r == DataError)
      ensures forall target, text :: old(src.lzma2.Expects(target, text)) && Agreeing(old(src.Rest()), text) ==>
                && r != DataError && src.Serves(target, text, old(src.inPos), ret == StreamEnd)
                && (Given(target, text, old(src.Rest()), old(delivered), out.Length - outPos) ==> r == StreamEnd)
    {
      hide Valid, InStep, Arm, Grown, Decoder.Expects, Decoder.Fed, Agreeing, Given, Source.Serves, Standstill;
      Sane();
      ghost var i, rest, d0, room := src.inPos, src.Rest(), delivered, out.Length - outPos;
      var done;
      next, done := First(out, outPos);
      if ret == DataError {
        return next, ret;
      }
      if done {
        if ret == Okay {
          Standing();
        }
        return next, ret;
      }
      ghost var o, n, d := out[..], next, delivered;
      label Between:
      next := Then(out, next, i, rest, d0);
      forall target, text | old(src.lzma2.Expects(target, text)) && Agreeing(rest, text)
        ensures ret != DataError && src.Serves(target, text, i, ret == StreamEnd)
        ensures Given(target, text, rest, d0, room) ==> ret == StreamEnd && filtered == 0
      {
        assert old@Between(src.Serves(target, text, i, false));
      }
      if ret == DataError {
        return next, ret;
      }
      GrownTrans(old(out[..]), outPos, o, n, out[..], next, d0, d, delivered);
      Standing();
      if filtered > 0 {
        return next, Okay;
      }
      Sane();
      if ret == StreamEnd {
        finished := true;
      }
      r := ret;
    }

    /** The first part of a call: what is still filtered goes out. */
    method Drain(out: array<byte>, outPos: nat) returns (next: nat)
      requires Valid() && outPos <= out.Length && Apart(out)
      modifies this`size, this`filtered, this`delivered, temp, out
      ensures Valid() && ret == old(ret) && next <= out.Length && Grown(old(out[..]), outPos, out[..], next, old(delivered), delivered)
      ensures delivered <= Arm(Decoded(), 0) && (ret == StreamEnd && filtered == 0 ==> delivered == Arm(Decoded(), 0))
      ensures |delivered| - |old(delivered)| == next - outPos
      ensures filtered > 0 ==> forall target, text :: old(Coming(target, text)) ==>
                && src.Serves(target, text, src.inPos, ret == StreamEnd)
                && !Given(target, text, src.Rest(), old(delivered), out.Length - outPos)
    {
      hide InStep, Arm, Source.Valid, Decoder.Expects, Decoder.Fed;
      ghost var d, room := delivered, out.Length - outPos;
      next := Flush(out, outPos);
      Standing();
      if filtered > 0 {
        Sane();
        Held(d, room);
        forall target, text | old(Coming(target, text))
          ensures src.Serves(target, text, src.inPos, ret == StreamEnd) && !Given(target, text, src.Rest(), d, room)
        {
          assert Coming(target, text);
        }
      }
    }

    /**
     * `xz_dec_bcj_run`: whatever the pieces in which data arrives and leaves, what has been delivered is the
     * beginning of the whole data filtered once, and all of it when the end is reported.  A stream that an
     * encoder wrote is never refused, and its end is reported as soon as all of it and enough room are given.
     */
    method Run(out: array<byte>, outPos: nat) returns (next: nat, r: Ret)
      requires Open() && Apart(out) && outPos <= out.Length
      modifies this, temp, out
      modifies src`inPos, src`failed, src.lzma2, src.lzma2.rc, src.lzma2.dict, src.lzma2.dict.buf, src.lzma2.lzma
      ensures r != DataError ==> next <= out.Length && Grown(old(out[..]), outPos, out[..], next, old(delivered), delivered)
      ensures r == Okay ==> Open() && delivered <= Arm(Decoded(), 0)
      ensures r == StreamEnd ==> delivered == Arm(Decoded(), 0)
      ensures r == DataError <==> src.failed
      ensures forall target, text :: old(Coming(target, text)) && Agreeing(old(src.Rest()), text) ==>
                && r != DataError && src.Serves(target, text, old(src.inPos), ret == StreamEnd)
                && (r == StreamEnd ==> delivered == Arm(target, 0))
                && (Given(target, text, old(src.Rest()), old(delivered), out.Length - outPos) ==> r == StreamEnd)
    {
      hide Valid, InStep, Arm, Grown, Decoder.Expects, Decoder.Fed, Agreeing, Given, Source.Valid;
      Sane();
      ghost var i, rest, d0, room := src.inPos, src.Rest(), delivered, out.Length - outPos;
      next := outPos;
      GrownNone(out[..], next, delivered);
      if filtered > 0 {
        next := Drain(out, next);
        if filtered > 0 {
          return next, Okay;
        }
        if ret == StreamEnd {
          finished := true;
          return next, StreamEnd;
        }
      }
      ghost var o, n, d := out[..], next, delivered;
      label Flushed:
      next, r := Fetch(out, next);
      forall target, text | old(Coming(target, text)) && Agreeing(rest, text)
        ensures r != DataError && src.Serves(target, text, i, ret == StreamEnd)
        ensures Given(target, text, rest, d0, room) ==> r == StreamEnd
      {
        if Given(target, text, rest, d0, room) {
          GivenLess(target, text, rest, d0, room, d, out.Length - n);
        }
        assert old@Flushed(src.lzma2.Expects(target, text));
      }
      if r != DataError {
        GrownTrans(old(out[..]), outPos, o, n, out[..], next, old(delivered), d, delivered);
      }
    }

    /** There is still something to deliver, and no more room. */
    lemma Held(d: seq<byte>, room: int)
      requires Valid() && filtered > 0 && |delivered| == |d| + room
      ensures forall target, text :: Coming(target, text) ==>
                src.Serves(target, text, src.inPos, ret == StreamEnd) && !Given(target, text, src.Rest(), d, room)
    {
      hide InStep, Decoder.Expects, Decoder.Valid;
      Lengths();
      src.lzma2.FedNone(src.input, src.inPos);
      forall target, text | Coming(target, text) ensures |Decoded()| <= |target| {
        if ret != StreamEnd {
          src.lzma2.MoreOfStream(target, text);
        }
      }
    }

    lemma Lengths()
      requires Valid()
      ensures |Decoded()| == |delivered| + size && filtered <= size <= 16
    {
    }

    lemma Sane()
      requires Valid()
      ensures !src.failed && (ret == Okay || ret == StreamEnd) && src.Valid() && src.lzma2.Valid()
    {
    }

    lemma Standing()
      requires Valid()
      ensures delivered <= Arm(Decoded(), 0)
      ensures ret == StreamEnd && filtered == 0 ==> delivered == Arm(Decoded(), 0)
    {
      hide Arm;
    }
  }

  lemma GivenLess(target: seq<byte>, text: seq<byte>, rest: seq<byte>, d: seq<byte>, room: int, d': seq<byte>, room': int)
    requires Given(target, text, rest, d, room) && |d'| - |d| == room - room'
    ensures Given(target, text, rest, d', room')
  {
  }

  lemma GroupIs(g: seq<byte>, addr: nat, r: seq<byte>)
    requires |g| == |r| == 4 && r[3] == g[3]
    requires g[3] != 0xEB ==> r == g
    requires g[3] == 0xEB ==>
               var a := Relative(Operand(g, 0), addr);
               r[0] == a % 0x100 && r[1] == a / 0x100 % 0x100 && r[2] == a / 0x1_0000 % 0x100
    ensures r == Arm(g, addr)
  {
  }

  lemma GroupAt(s: seq<byte>, pos: nat, i: nat)
    requires i + 4 <= |s| && i % 4 == 0
    ensures Arm(s, pos)[i..i + 4] == Arm(s[i..i + 4], pos + i)
  {
    var g := s[i..i + 4];
    assert Operand(g, 0) == Operand(s, i);
    forall j: nat | i <= j < i + 4
      ensures ArmByte(s, pos, j) == Arm(g, pos + i)[j - i]
    {
      assert j / 4 * 4 == i;
    }
  }

  /** The first `i` bytes of the stretch are converted; everything else is as it was. */
  ghost predicate Halfway(buf: seq<byte>, from: nat, to: nat, head: seq<byte>, s: seq<byte>, tail: seq<byte>, pos: int, i: nat) {
    && from <= to <= |buf| && i <= |s| == to - from
    && buf[..from] == head && buf[to..] == tail && buf[from..to] == Arm(s, pos)[..i] + s[i..]
  }

  lemma GroupThere(b0: seq<byte>, from: nat, to: nat, head: seq<byte>, s: seq<byte>, tail: seq<byte>, pos: int, i: nat)
    requires Halfway(b0, from, to, head, s, tail, pos, i) && i + 4 <= |s|
    ensures b0[from + i..from + i + 4] == s[i..i + 4] && from + i + 4 <= to <= |b0|
  {
    hide ArmByte;
    var x, m := Arm(s, pos)[..i], b0[from..to];
    assert |m| == |s| && m == x + s[i..];
    TailSlice(x, s, i);
    assert from + i + 4 <= to;
    SliceOfSlice(b0, from, to, i, i + 4);
  }

  lemma TailSlice(x: seq<byte>, s: seq<byte>, i: nat)
    requires |x| == i && i + 4 <= |s|
    ensures (x + s[i..])[i..i + 4] == s[i..i + 4]
  {
    var t := x + s[i..];
    assert t[i] == s[i] && t[i + 1] == s[i + 1] && t[i + 2] == s[i + 2] && t[i + 3] == s[i + 3];
    assert |t[i..i + 4]| == 4 == |s[i..i + 4]|;
  }

  lemma NextGroup(b0: seq<byte>, b1: seq<byte>, from: nat, to: nat, head: seq<byte>, s: seq<byte>, tail: seq<byte>, pos: nat, i: nat)
    requires Halfway(b0, from, to, head, s, tail, pos, i) && i % 4 == 0 && i + 4 <= |s| && |b1| == |b0|
    requires b1[..from + i] == b0[..from + i] && b1[from + i + 4..] == b0[from + i + 4..]
    requires b1[from + i..from + i + 4] == Arm(s[i..i + 4], pos + i)
    ensures Halfway(b1, from, to, head, s, tail, pos, i + 4)
  {
    hide ArmByte, Arm;
    GroupAt(s, pos, i);
    var all := Arm(s, pos);
    assert b1[from..from + i] == b0[from..to][..i];
    assert b1[from + i + 4..to] == b0[from..to][i + 4..];
    assert b1[from..to] == b1[from..from + i] + b1[from + i..from + i + 4] + b1[from + i + 4..to];
    assert all[..i + 4] == all[..i] + all[i..i + 4];
    assert b1[..from] == b1[..from + i][..from];
    assert b1[to..] == b1[from + i + 4..][to - from - i - 4..];
    assert b0[to..] == b0[from + i + 4..][to - from - i - 4..];
  }

  lemma HalfwayStart(buf: seq<byte>, from: nat, to: nat, pos: int)
    requires from <= to <= |buf|
    ensures Halfway(buf, from, to, buf[..from], buf[from..to], buf[to..], pos, 0)
  {
    hide Arm, ArmByte;
  }

  lemma HalfwayEnd(buf: seq<byte>, from: nat, to: nat, head: seq<byte>, s: seq<byte>, tail: seq<byte>, pos: nat, n: nat)
    requires Halfway(buf, from, to, head, s, tail, pos, n) && n == |s| / 4 * 4
    ensures buf[..from] == head && buf[to..] == tail && buf[from..to] == Arm(s, pos)
  {
    hide ArmByte;
    NoGroup(s, pos, n);
  }

  lemma NoGroup(s: seq<byte>, pos: nat, n: nat)
    requires n == |s| / 4 * 4
    ensures |Arm(s, pos)| == |s| && Arm(s, pos)[..n] + s[n..] == Arm(s, pos)
  {
    hide ArmByte;
    forall i: nat | n <= i < |s|
      ensures ArmByte(s, pos, i) == s[i]
    {
      Loose(s, pos, i);
    }
  }

  /** A byte behind the last whole group stays. */
  lemma Loose(s: seq<byte>, pos: nat, i: nat)
    requires |s| / 4 * 4 <= i < |s|
    ensures ArmByte(s, pos, i) == s[i]
  {
    hide Relative, Operand;
    var q := |s| / 4;
    assert 4 * q <= i < 4 * q + 4;
    assert i / 4 == q;
  }

  // ---------------------------------------------------------------------------------------------
  // What a filter in mid-stream has done

  /**
   * Of the data `l` that was decoded, `d` is delivered and `t` kept back; the first `filtered` bytes of
   * `t` are final, the others untouched, and `pos` counts what is final unless the stream has ended.
   */
  ghost predicate InStep(l: seq<byte>, d: seq<byte>, t: seq<byte>, filtered: nat, pos: nat, ended: bool) {
    && filtered <= |t| && |d| + |t| == |l|
    && d + t[..filtered] == Arm(l, 0)[..|d| + filtered]
    && t[filtered..] == l[|d| + filtered..]
    && (!ended ==> (|d| + filtered) % 4 == 0 && pos == (|d| + filtered) % WORD)
    && (ended ==> filtered == |t|)
  }

  lemma FlushKeeps(l: seq<byte>, d: seq<byte>, t: seq<byte>, filtered: nat, pos: nat, ended: bool, k: nat)
    requires InStep(l, d, t, filtered, pos, ended) && k <= filtered
    ensures InStep(l, d + t[..k], t[k..], filtered - k, pos, ended)
  {
    hide Arm;
    assert d + t[..k] + t[k..][..filtered - k] == d + t[..filtered];
  }

  /** New data joins what was kept back, and what of it makes whole groups is converted. */
  lemma GrowStep(l: seq<byte>, d: seq<byte>, t: seq<byte>, pos: nat, more: seq<byte>)
    requires InStep(l, d, t, 0, pos, false)
    ensures var u := Arm(t + more, pos);
            var k := |t + more| / 4 * 4;
            && d + u == Arm(l + more, 0)
            && InStep(l + more, d, u, k, (pos + k) % WORD, false)
            && InStep(l + more, d, u, |u|, (pos + k) % WORD, true)
  {
    hide Arm, ArmByte, InStep;
    var l', s := l + more, t + more;
    var n, k := |d|, |t + more| / 4 * 4;
    var all, u := Arm(l', 0), Arm(s, pos);
    StandsAt(l, d, t, pos, more);
    ArmSuffix(l', n, pos);
    ArmPrefix(l, l', n);
    NoGroup(s, pos, k);
    PosStep(n, pos, k);
    Assembled(d, u, all, n, k);
    Assembled(d, u, all, n, |u|);
    Untouched(s, u, l', n, k);
    WholeGroups(n, |s|);
    IsInStep(l', d, u, k, (pos + k) % WORD, false);
    assert u[..|u|] == u && u[|u|..] == [] == l'[n + |u|..];
    IsInStep(l', d, u, |u|, (pos + k) % WORD, true);
  }

  lemma WholeGroups(n: nat, len: nat)
    requires n % 4 == 0
    ensures (n + len / 4 * 4) % 4 == 0 && len / 4 * 4 <= len
  {
  }

  lemma IsInStep(l: seq<byte>, d: seq<byte>, t: seq<byte>, filtered: nat, pos: nat, ended: bool)
    requires filtered <= |t| && |d| + |t| == |l| && d + t[..filtered] == Arm(l, 0)[..|d| + filtered]
    requires t[filtered..] == l[|d| + filtered..]
    requires if ended then filtered == |t| else (|d| + filtered) % 4 == 0 && pos == (|d| + filtered) % WORD
    ensures InStep(l, d, t, filtered, pos, ended)
  {
    hide Arm;
  }

  lemma NothingYet()
    ensures InStep([], [], [], 0, 0, false)
  {
  }

  lemma StandsAt(l: seq<byte>, d: seq<byte>, t: seq<byte>, pos: nat, more: seq<byte>)
    requires InStep(l, d, t, 0, pos, false)
    ensures |d| <= |l| && |d| % 4 == 0 && pos == |d| % WORD && d == Arm(l, 0)[..|d|]
    ensures t + more == (l + more)[|d|..]
  {
    hide Arm;
    assert t[0..] == t && d + t[..0] == d;
  }

  lemma Assembled(d: seq<byte>, u: seq<byte>, all: seq<byte>, n: nat, k: nat)
    requires n == |d| && n + |u| == |all| && k <= |u| && d == all[..n] && u == all[n..]
    ensures d + u == all && d + u[..k] == all[..n + k]
  {
  }

  lemma Untouched(s: seq<byte>, u: seq<byte>, l: seq<byte>, n: nat, k: nat)
    requires |s| == |u| && k <= |s| && n + |s| == |l| && s == l[n..] && u[..k] + s[k..] == u
    ensures u[k..] == l[n + k..]
  {
    assert u[k..] == s[k..];
  }

  lemma PosStep(n: nat, pos: nat, k: nat)
    requires pos == n % WORD
    ensures (pos + k) % WORD == (n + k) % WORD
  {
  }

  lemma Appended(before: seq<byte>, head: seq<byte>, t: seq<byte>, more: seq<byte>)
    requires |before| == |head| + |t| + |more| && before[..|head| + |t|] == head + t && before[|head| + |t|..] == more
    ensures before[..|head|] == head && before[|head|..] == t + more
  {
  }

  lemma Parts(out: seq<byte>, a: nat, b: nat, c: nat)
    requires a <= b <= c <= |out|
    ensures out[a..c][..b - a] == out[a..b] && out[a..c][b - a..] == out[b..c]
  {
  }

  /** The output has grown from `a` to `b` by what was added to the record of everything delivered. */
  ghost predicate Grown(o: seq<byte>, a: nat, o': seq<byte>, b: nat, d: seq<byte>, d': seq<byte>) {
    |o| == |o'| && a <= b <= |o'| && o'[..a] == o[..a] && d' == d + o'[a..b]
  }

  lemma GrownNone(o: seq<byte>, a: nat, d: seq<byte>)
    requires a <= |o|
    ensures Grown(o, a, o, a, d, d)
  {
  }

  lemma GrownTrans(o0: seq<byte>, a: nat, o1: seq<byte>, b: nat, o2: seq<byte>, c: nat, d0: seq<byte>, d1: seq<byte>, d2: seq<byte>)
    requires Grown(o0, a, o1, b, d0, d1) && Grown(o1, b, o2, c, d1, d2)
    ensures Grown(o0, a, o2, c, d0, d2)
  {
    assert o2[..a] == o2[..b][..a] && o1[..a] == o1[..b][..a];
    assert o2[a..b] == o2[..b][a..b] && o1[a..b] == o1[..b][a..b];
    assert o2[a..c] == o2[a..b] + o2[b..c];
  }
}
