/** The LZMA2 history buffer: a ring that refines an unbounded output history. */
module Dictionary {
  import opened Memory

  /** An input/output window, as one call of the decoder sees it.  `out` holds the bytes written so far. */
  class XzBuf {
    const input: seq<byte>
    var inPos: nat
    var out: seq<byte>
    const outSize: nat

    constructor (input: seq<byte>, outSize: nat)
      ensures this.input == input && this.outSize == outSize && inPos == 0 && out == [] && Valid()
    {
      this.input, this.outSize := input, outSize;
      inPos, out := 0, [];
    }

    ghost predicate Valid()
      reads this
    {
      inPos <= |input| && |out| <= outSize
    }
  }

  // ---------------------------------------------------------------------------------------------
  // LZ77 on plain histories

  /** `h` extended by `n` bytes, each the one that lies `dist + 1` places back when it is appended. */
  function Copy(h: seq<byte>, dist: nat, n: nat): (r: seq<byte>)
    requires dist < |h|
    ensures |r| == |h| + n && r[..|h|] == h
  {
    if n == 0 then h else
      var p := Copy(h, dist, n - 1);
      p + [p[|p| - 1 - dist]]
  }

  /** What a copy appends: every new byte repeats the one `dist + 1` places before it. */
  lemma {:induction false} CopyPeriodic(h: seq<byte>, dist: nat, n: nat, i: nat)
    requires dist < |h| <= i < |h| + n
    ensures Copy(h, dist, n)[i] == Copy(h, dist, n)[i - 1 - dist]
  {
    if i < |h| + n - 1 {
      CopyPeriodic(h, dist, n - 1, i);
    }
  }

  /** A copy may be cut anywhere and resumed. */
  lemma {:induction false} CopySplit(h: seq<byte>, dist: nat, a: nat, b: nat)
    requires dist < |h|
    ensures Copy(Copy(h, dist, a), dist, b) == Copy(h, dist, a + b)
  {
    if b > 0 {
      CopySplit(h, dist, a, b - 1);
    }
  }

  // ---------------------------------------------------------------------------------------------
  // The ring

  /** Where the byte `d + 1` places back from `pos` lies in a ring of `end` bytes. */
  function Slot(pos: nat, d: nat, end: nat): int {
    if d < pos then pos - 1 - d else pos - 1 - d + end
  }

  /** The byte `d + 1` places back is the one the history holds there. */
  ghost predicate Holds(s: seq<byte>, hist: seq<byte>, pos: nat, full: nat, end: nat, d: nat)
    requires pos <= full <= end <= |s| && full <= |hist| && (full < end ==> full == pos)
  {
    d < full ==> s[Slot(pos, d, end)] == hist[|hist| - 1 - d]
  }

  class Dict {
    const buf: array<byte>
    const end: nat
    var start: nat
    var pos: nat
    var full: nat
    var limit: nat

    /** Everything decoded since the dictionary was reset, and the part of it that was delivered. */
    ghost var hist: seq<byte>
    ghost var sent: seq<byte>

    ghost predicate Shape()
      reads this
    {
      && 0 < end <= buf.Length && end % 16 == 0
      && start <= pos <= full <= end
      && limit <= end
      && (full < end ==> full == pos)
      && full == (if |hist| < end then |hist| else end)
      && |sent| + (pos - start) == |hist| && sent <= hist
      && pos <= |hist| && (|hist| - pos) % 16 == 0
    }

    ghost predicate Valid()
      reads this, buf
    {
      Shape() && Ring(buf[..], hist, pos, full, end)
    }

    constructor (buf: array<byte>, size: nat)
      requires 0 < size <= buf.Length && size % 16 == 0
      ensures Valid() && this.buf == buf && end == size && hist == [] && sent == [] && limit == 0 && pos == 0
    {
      this.buf, end := buf, size;
      start, pos, limit, full, hist, sent := 0, 0, 0, 0, [], [];
    }

    /** What is in the history and not yet delivered lies between `start` and `pos`. */
    lemma Lengths()
      requires Valid()
      ensures start <= pos && |sent| + (pos - start) == |hist|
    {
    }

    /** `dict_reset`: an empty history; the bytes in the ring stay and become unreachable. */
    method Reset()
      requires 0 < end <= buf.Length && end % 16 == 0
      modifies this
      ensures Valid() && hist == [] && sent == [] && limit == 0 && start == pos == 0
    {
      start, pos, limit, full, hist, sent := 0, 0, 0, 0, [], [];
    }

    /** `dict_limit`: allow at most `outMax` more bytes, and never past the end of the ring. */
    method Limit(outMax: nat)
      requires Valid()
      modifies this`limit
      ensures Valid()
      ensures limit - pos == (if end - pos <= outMax then end - pos else outMax)
      ensures pos <= limit
    {
      if end - pos <= outMax {
        limit := end;
      } else {
        limit := pos + outMax;
      }
    }

    method HasSpace() returns (r: bool)
      ensures r <==> pos < limit
    {
      r := pos < limit;
    }

    /** `dict_get`: the byte `dist + 1` places back, or zero in an empty dictionary. */
    method Get(dist: nat) returns (b: byte)
      requires Valid()
      requires dist < full || (full == 0 && dist == 0)
      ensures b == Back(hist, dist)
    {
      var offset := pos - dist - 1;
      if dist >= pos {
        offset := offset + end;
      }
      assert Holds(buf[..], hist, pos, full, end, dist);
      if full > 0 {
        b := buf[offset];
      } else {
        b := 0;
      }
    }

    /** `dict_put` */
    method Put(b: byte)
      requires Valid() && pos < end
      modifies this`pos, this`full, this`hist, buf
      ensures Valid()
      ensures hist == old(hist) + [b] && pos == old(pos) + 1
      ensures old(pos) < limit ==> pos <= limit
    {
      ghost var s0 := buf[..];
      buf[pos] := b;
      assert buf[..] == s0[pos := b];
      PutKeeps(s0, hist, pos, full, end, b);
      pos := pos + 1;
      if full < pos {
        full := pos;
      }
      hist := hist + [b];
    }

    /** `dict_repeat`: as much of an LZ77 copy as the limit allows; `left` bytes remain to be repeated. */
    method Repeat(len: nat, dist: nat) returns (ok: bool, left: nat)
      requires Valid() && pos < limit && len > 0
      modifies this`pos, this`full, this`hist, buf
      ensures Valid()
      ensures ok <==> dist < |old(hist)| && dist < end
      ensures !ok ==> left == len && hist == old(hist) && pos == old(pos)
      ensures ok ==> left == (if limit - old(pos) < len then len - (limit - old(pos)) else 0)
      ensures ok ==> hist == Copy(old(hist), dist, len - left) && pos == old(pos) + (len - left)
      ensures pos <= limit
    {
      hide Ring, Copy;
      if dist >= full || dist >= end {
        return false, len;
      }
      var todo := if limit - pos < len then limit - pos else len;
      ok, left := true, len - todo;
      var back := pos - dist - 1;
      if dist >= pos {
        back := back + end;
      }
      CopyWithin(back, todo, dist);
      StillPrefix(sent, old(hist), hist);
      if full < pos {
        full := pos;
      }
    }

    /** The copy loop: `back` chases `pos` round the ring; `full` is brought up to date afterwards. */
    method CopyWithin(from: nat, n: nat, dist: nat)
      requires Valid() && dist < full && from == Slot(pos, dist, end) && pos + n <= end
      modifies this`pos, this`hist, buf
      ensures hist == Copy(old(hist), dist, n) && pos == old(pos) + n
      ensures Ring(buf[..], hist, pos, if full < pos then pos else full, end)
    {
      hide Ring, Slot;
      var back, todo := from, n;
      ghost var i: nat, grown := 0, full;
      while todo > 0
        invariant i + todo == n && pos == old(pos) + i && grown == if full < pos then pos else full
        invariant hist == Copy(old(hist), dist, i)
        invariant back == Slot(pos, dist, end)
        invariant Ring(buf[..], hist, pos, grown, end)
      {
        CopyByte(back, dist, grown);
        SlotSteps(pos, dist, end);
        back := back + 1;
        if back == end {
          back := 0;
        }
        todo, i, grown := todo - 1, i + 1, if full < pos then pos else full;
      }
    }

    /** One byte of the copy loop. */
    method CopyByte(back: nat, ghost dist: nat, ghost grown: nat)
      requires Ring(buf[..], hist, pos, grown, end) && dist < grown && pos < end && back == Slot(pos, dist, end)
      modifies this`pos, this`hist, buf
      ensures dist < |old(hist)| && pos == old(pos) + 1
      ensures hist == old(hist) + [old(hist)[|old(hist)| - 1 - dist]]
      ensures Ring(buf[..], hist, pos, if grown < pos then pos else grown, end)
    {
      hide Ring, Slot;
      ghost var s0 := buf[..];
      RingReads(s0, hist, pos, grown, end, dist);
      var b := buf[back];
      PutKeeps(s0, hist, pos, grown, end, b);
      buf[pos] := b;
      assert buf[..] == s0[pos := b];
      pos := pos + 1;
      hist := hist + [b];
    }

    /**
     * `dict_uncompressed`: input bytes go to the history and straight to the output, as many as are left,
     * there, and fit.  `pos` goes round the ring past the limit, which is not looked at, so that `pos <= limit`
     * holds afterwards exactly if the place it ends at is no further than the limit.
     */
    method Uncompressed(b: XzBuf, left: nat) returns (rest: nat)
      requires Valid() && b.Valid() && start == pos && pos < end
      modifies this`start, this`pos, this`full, this`hist, this`sent, buf, b`inPos, b`out
      ensures Valid() && b.Valid() && start == pos && pos < end && sent == hist
      ensures rest <= left && b.inPos == old(b.inPos) + (left - rest)
      ensures hist == old(hist) + b.input[old(b.inPos)..b.inPos]
      ensures b.out == old(b.out) + b.input[old(b.inPos)..b.inPos]
      ensures rest == 0 || b.inPos == |b.input| || |b.out| == b.outSize
      ensures left - rest == Least(left, |b.input| - old(b.inPos), b.outSize - |old(b.out)|)
      ensures pos == RingPos(old(pos) + (left - rest), end)
      ensures pos <= limit <==>
                RingPos(old(pos) + Least(left, |b.input| - old(b.inPos), b.outSize - |old(b.out)|), end) <= old(limit)
    {
      hide Ring, RingPos, Least;
      rest := left;
      WithinLap(pos, end);
      while rest > 0 && b.inPos < |b.input| && |b.out| < b.outSize
        invariant Valid() && b.Valid() && start == pos && pos < end && sent == hist
        invariant rest <= left && b.inPos == old(b.inPos) + (left - rest)
        invariant hist == old(hist) + b.input[old(b.inPos)..b.inPos]
        invariant b.out == old(b.out) + b.input[old(b.inPos)..b.inPos]
        invariant pos == RingPos(old(pos) + (left - rest), end)
        decreases rest
      {
        var size := if |b.input| - b.inPos < b.outSize - |b.out| then |b.input| - b.inPos else b.outSize - |b.out|;
        if size > end - pos {
          size := end - pos;
        }
        if size > rest {
          size := rest;
        }
        GoesRound(old(pos) + (left - rest), size, end);
        rest := rest - size;
        Grow(b.input, old(b.inPos), b.inPos, b.inPos + size);
        PassOn(b, size);
      }
      LeastIs(left - rest, left, |b.input| - old(b.inPos), b.outSize - |old(b.out)|);
    }

    /** A piece that fits the ring, the input and the output. */
    method PassOn(b: XzBuf, size: nat)
      requires Valid() && b.Valid() && start == pos && b.inPos + size <= |b.input| && pos + size <= end && |b.out| + size <= b.outSize
      modifies this`start, this`pos, this`full, this`hist, this`sent, buf, b`inPos, b`out
      ensures Valid() && b.Valid() && start == pos && pos < end && sent == hist
      ensures b.inPos == old(b.inPos) + size && pos == (if old(pos) + size == end then 0 else old(pos) + size)
      ensures hist == old(hist) + b.input[old(b.inPos)..b.inPos]
      ensures b.out == old(b.out) + b.input[old(b.inPos)..b.inPos]
    {
      hide Ring;
      CopyIn(b.input, b.inPos, size);
      b.out := b.out + b.input[b.inPos..b.inPos + size];
      Wrap();
      b.inPos := b.inPos + size;
    }

    /** The `memmove` into the ring: `size` bytes that fit before its end. */
    method CopyIn(src: seq<byte>, at: nat, size: nat)
      requires Valid() && at + size <= |src| && pos + size <= end
      modifies this`pos, this`full, this`hist, buf
      ensures Valid() && pos == old(pos) + size
      ensures hist == old(hist) + src[at..at + size]
    {
      hide Ring;
      var i := 0;
      while i < size
        invariant Valid() && i <= size && pos == old(pos) + i
        invariant hist == old(hist) + src[at..at + i]
      {
        Put(src[at + i]);
        i := i + 1;
      }
    }

    /** Step from the end of the ring back to its beginning, and count everything as delivered. */
    method Wrap()
      requires Valid()
      modifies this`pos, this`start, this`sent
      ensures Valid() && pos < end
      ensures pos == (if old(pos) == end then 0 else old(pos))
      ensures start == pos && sent == hist
    {
      hide Ring;
      if pos == end {
        WrapKeeps(buf[..], hist, full, end);
        pos := 0;
      }
      start, sent := pos, hist;
    }

    /** `dict_flush`: everything decoded since the last flush goes to the output, in order. */
    method Flush(b: XzBuf) returns (size: nat)
      requires Valid() && b.Valid() && |b.out| + (pos - start) <= b.outSize
      modifies this`start, this`pos, this`sent, b`out
      ensures Valid() && b.Valid() && start == pos && pos < end && sent == hist
      ensures old(sent) <= hist && b.out == old(b.out) + hist[|old(sent)|..]
      ensures size == |hist| - |old(sent)|
      ensures old(pos) <= limit ==> pos <= limit
    {
      hide Ring;
      size := pos - start;
      PendingIs(buf[..], hist, start, pos, full, end);
      b.out := b.out + buf[start..pos];
      Wrap();
    }
  }

  /** One stored byte right after a reset: the limit is still zero, and the position is beyond it. */
  method PastTheLimit(d: Dict, x: byte) returns (pos: nat, limit: nat)
    requires d.Valid()
    modifies d, d.buf
    ensures d.Valid() && pos == d.pos && limit == d.limit && d.hist == [x]
    ensures pos == 1 && limit == 0
  {
    d.Reset();
    var b := new XzBuf([x], 1);
    var _ := d.Uncompressed(b, 1);
    pos, limit := d.pos, d.limit;
  }

  /** Where a position lies that has gone round the ring. */
  function RingPos(x: nat, end: nat): nat
    requires end > 0
  {
    x % end
  }

  function Least(a: int, b: int, c: int): int {
    if a <= b && a <= c then a else if b <= c then b else c
  }

  lemma LeastIs(n: int, a: int, b: int, c: int)
    requires n <= a && n <= b && n <= c && (n == a || n == b || n == c)
    ensures Least(a, b, c) == n
  {
  }

  lemma WithinLap(x: nat, end: nat)
    requires x < end
    ensures RingPos(x, end) == x
  {
  }

  /** A step of at most one lap from a place in the ring. */
  lemma GoesRound(x: nat, n: nat, end: nat)
    requires end > 0 && RingPos(x, end) + n <= end
    ensures RingPos(x + n, end) == if RingPos(x, end) + n == end then 0 else RingPos(x, end) + n
  {
    var laps, r := x / end, x % end + n;
    Divided(x, end);
    Divided(x + n, end);
    if r == end {
      assert end * (laps + 1) == end * laps + end;
      SameRest(end, laps + 1, 0, (x + n) / end, (x + n) % end);
    } else {
      SameRest(end, laps, r, (x + n) / end, (x + n) % end);
    }
  }

  lemma Divided(x: nat, end: nat)
    requires end > 0
    ensures x == end * (x / end) + x % end && 0 <= x % end < end
  {
  }

  /** Quotient and rest are unique. */
  lemma SameRest(end: int, a: int, r: int, b: int, s: int)
    requires 0 <= r < end && 0 <= s < end && end * a + r == end * b + s
    ensures r == s
  {
    var k := a - b;
    assert end * k == s - r by {
      assert end * k == end * a - end * b;
    }
    if k >= 1 {
      Grows(end, k);
    } else if k <= -1 {
      Grows(end, -k);
    }
  }

  lemma Grows(end: int, k: int)
    requires end > 0 && k >= 1
    ensures end * k >= end && end * -k <= -end
  {
    assert end * k == end + end * (k - 1);
    assert end * (k - 1) >= 0;
  }

  /** The byte `dist + 1` places back, with the empty history reading as zero. */
  function Back(hist: seq<byte>, dist: nat): byte
    requires dist < |hist| || hist == []
  {
    if hist == [] then 0 else hist[|hist| - 1 - dist]
  }

  /** The part of the representation that a loop over the ring keeps. */
  ghost predicate Ring(s: seq<byte>, hist: seq<byte>, pos: nat, full: nat, end: nat) {
    && pos <= full <= end <= |s| && (full < end ==> full == pos)
    && full == (if |hist| < end then |hist| else end)
    && forall d: nat :: Holds(s, hist, pos, full, end, d)
  }

  lemma PutKeeps(s: seq<byte>, hist: seq<byte>, pos: nat, full: nat, end: nat, b: byte)
    requires Ring(s, hist, pos, full, end) && pos < end
    ensures Ring(s[pos := b], hist + [b], pos + 1, if full < pos + 1 then pos + 1 else full, end)
  {
    var s', hist', pos' := s[pos := b], hist + [b], pos + 1;
    var full' := if full < pos + 1 then pos + 1 else full;
    forall d: nat
      ensures Holds(s', hist', pos', full', end, d)
    {
      if 0 < d < full' {
        assert Holds(s, hist, pos, full, end, d - 1);
        assert Slot(pos', d, end) == Slot(pos, d - 1, end);
      }
    }
  }

  lemma WrapKeeps(s: seq<byte>, hist: seq<byte>, full: nat, end: nat)
    requires Ring(s, hist, end, full, end)
    ensures Ring(s, hist, 0, full, end)
  {
    forall d: nat
      ensures Holds(s, hist, 0, full, end, d)
    {
      assert Holds(s, hist, end, full, end, d);
    }
  }

  /** The bytes between `start` and `pos` are the end of the history. */
  lemma PendingIs(s: seq<byte>, hist: seq<byte>, start: nat, pos: nat, full: nat, end: nat)
    requires Ring(s, hist, pos, full, end) && start <= pos
    ensures pos - start <= |hist| && s[start..pos] == hist[|hist| - (pos - start)..]
  {
    forall i | start <= i < pos
      ensures s[i] == hist[|hist| - (pos - i)]
    {
      assert Holds(s, hist, pos, full, end, pos - 1 - i);
    }
  }

  lemma RingReads(s: seq<byte>, hist: seq<byte>, pos: nat, full: nat, end: nat, dist: nat)
    requires Ring(s, hist, pos, full, end) && dist < full
    ensures dist < |hist| && 0 <= Slot(pos, dist, end) < end <= |s|
    ensures s[Slot(pos, dist, end)] == hist[|hist| - 1 - dist]
  {
    assert Holds(s, hist, pos, full, end, dist);
  }

  lemma StillPrefix(a: seq<byte>, b: seq<byte>, c: seq<byte>)
    requires a <= b && |b| <= |c| && c[..|b|] == b
    ensures a <= c
  {
  }

  lemma SlotSteps(pos: nat, dist: nat, end: nat)
    requires 1 <= pos <= end && dist < end
    ensures 0 <= Slot(pos - 1, dist, end) < end
    ensures Slot(pos - 1, dist, end) + 1 < end ==> Slot(pos, dist, end) == Slot(pos - 1, dist, end) + 1
    ensures Slot(pos - 1, dist, end) + 1 == end ==> Slot(pos, dist, end) == 0
  {
  }

  lemma Grow(s: seq<byte>, a: nat, b: nat, c: nat)
    requires a <= b <= c <= |s|
    ensures s[a..b] + s[b..c] == s[a..c]
  {
  }
}
