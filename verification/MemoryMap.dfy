/** The loader's map of claimed memory: a sorted array, and a first-fit search over it. */
module MemoryMap {
  import opened Shared

  const WORD := 0x1_0000_0000
  const MAX_SEGMENTS := 16

  datatype Range = Range(start: nat, end: nat)

  /** Claimed ranges: in order, apart, and none of them empty. */
  ghost predicate Ordered(s: seq<Range>) {
    && (forall i :: 0 <= i < |s| ==> s[i].start < s[i].end < WORD)
    && (forall i, j :: 0 <= i < j < |s| ==> s[i].end <= s[j].start)
  }

  /** The block `[p, p + size)` lies in `allowed` and misses every claimed range. */
  ghost predicate Free(s: seq<Range>, p: nat, size: nat, allowed: Range) {
    allowed.start <= p && p + size <= allowed.end && forall i :: 0 <= i < |s| ==> p + size <= s[i].start || s[i].end <= p
  }

  /** Where a range that misses all others belongs. */
  function Place(s: seq<Range>, r: Range): (i: nat)
    ensures i <= |s|
  {
    if s == [] then 0 else if r.start < s[0].start then 0 else 1 + Place(s[1..], r)
  }

  function Inserted(s: seq<Range>, r: Range): seq<Range> {
    var i := Place(s, r);
    s[..i] + [r] + s[i..]
  }

  lemma {:induction false} PlaceSplits(s: seq<Range>, r: Range)
    ensures forall i :: 0 <= i < Place(s, r) ==> s[i].start <= r.start
    ensures Place(s, r) < |s| ==> r.start < s[Place(s, r)].start
  {
    if s != [] && r.start >= s[0].start {
      PlaceSplits(s[1..], r);
    }
  }

  lemma {:induction false} PlaceIs(s: seq<Range>, r: Range, i: nat)
    requires i <= |s| && (forall j :: 0 <= j < i ==> s[j].start <= r.start) && (i < |s| ==> r.start < s[i].start)
    ensures Place(s, r) == i
  {
    if i > 0 {
      PlaceIs(s[1..], r, i - 1);
    }
  }

  /** A claimed block that was free leaves the map in order. */
  lemma InsertedOrdered(s: seq<Range>, r: Range)
    requires Ordered(s) && r.start < r.end < WORD
    requires forall i :: 0 <= i < |s| ==> r.end <= s[i].start || s[i].end <= r.start
    ensures Ordered(Inserted(s, r))
  {
    hide Place;
    PlaceSplits(s, r);
    var k, t := Place(s, r), Inserted(s, r);
    assert |t| == |s| + 1 && t[k] == r;
    forall i | 0 <= i < |t| && i != k
      ensures t[i] == s[if i < k then i else i - 1]
    {
    }
  }

  lemma Appended(s: seq<Range>, t: seq<Range>, r: Range)
    requires |t| == |s| + 1 && t[..|s|] == s && t[|s|] == r && Place(s, r) == |s|
    ensures t == Inserted(s, r)
  {
  }

  lemma Shifted(a: seq<Range>, b: seq<Range>, s: seq<Range>, r: Range, i: nat, n: nat)
    requires i < n == |s| + 1 < |a| == |b| && a[..n - 1] == s && Place(s, r) == i
    requires b[..i] == a[..i] && b[i] == r && b[i + 1..n + 1] == a[i..n]
    ensures b[..n] == Inserted(s, r)
  {
    var t := Inserted(s, r);
    forall k | 0 <= k < n
      ensures b[k] == t[k]
    {
      if k < i {
        assert b[..i][k] == a[..i][k] && a[k] == a[..n - 1][k];
      } else if k > i {
        assert b[i + 1..n + 1][k - i - 1] == a[i..n][k - i - 1] && a[k - 1] == a[..n - 1][k - 1];
      }
    }
  }

  // ---------------------------------------------------------------------------------------------
  // First fit

  /** The search from `p` on, in 32-bit arithmetic. */
  function Search(s: seq<Range>, p: nat, size: nat, end: nat): Option<nat>
    requires size > 0
  {
    if s == [] then if (end - p) % WORD >= size then Some(p) else None
    else if p > s[0].start then Search(s[1..], p, size, end)
    else if (p + size) % WORD > end then None
    else if s[0].start - p >= size then Some(p)
    else Search(s[1..], s[0].end, size, end)
  }

  /** The search gets behind the last range and finds itself beyond the end, where the room left wraps. */
  predicate RunsPast(s: seq<Range>, p: nat, size: nat, end: nat)
    requires size > 0
  {
    if s == [] then end < p && (end - p) % WORD >= size
    else if p > s[0].start then RunsPast(s[1..], p, size, end)
    else if (p + size) % WORD > end then false
    else if s[0].start - p >= size then false
    else RunsPast(s[1..], s[0].end, size, end)
  }

  /** The answer is the least free block, or that there is none. */
  ghost predicate Right(s: seq<Range>, r: Option<nat>, size: nat, allowed: Range) {
    match r
    case None => forall q: nat :: !Free(s, q, size, allowed)
    case Some(p) => Free(s, p, size, allowed) && forall q: nat :: Free(s, q, size, allowed) ==> p <= q
  }

  ghost predicate NoneStraddles(s: seq<Range>, p: nat) {
    forall i :: 0 <= i < |s| && s[i].start < p ==> s[i].end <= p
  }

  lemma {:induction false} RightUnlessPast(s: seq<Range>, p: nat, size: nat, end: nat)
    requires Ordered(s) && 0 < size < WORD && p < WORD && end < WORD && NoneStraddles(s, p)
    ensures Right(s, Search(s, p, size, end), size, Range(p, end)) <==> !RunsPast(s, p, size, end)
    ensures RunsPast(s, p, size, end) ==> Search(s, p, size, end).Some? && end < Search(s, p, size, end).value
  {
    if s == [] {
      if p <= end {
        assert (end - p) % WORD == end - p;
      }
      assert Free(s, p, size, Range(p, end)) <==> p + size <= end;
    } else if p > s[0].start {
      SkipBelow(s, p, size, end);
      RightUnlessPast(s[1..], p, size, end);
    } else if s[0].start - p >= size {
      if (p + size) % WORD <= end {
        assert (p + size) % WORD == p + size;
        assert Free(s, p, size, Range(p, end));
      } else {
        NoRoom(s, p, size, end);
      }
    } else if (p + size) % WORD > end {
      NoRoom(s, p, size, end);
    } else {
      SkipOver(s, p, size, end);
      RightUnlessPast(s[1..], s[0].end, size, end);
    }
  }

  lemma NoRoom(s: seq<Range>, p: nat, size: nat, end: nat)
    requires size > 0 && end < WORD && (p + size) % WORD > end
    ensures forall q: nat :: !Free(s, q, size, Range(p, end))
  {
    assert p + size > end;
  }

  /** Ranges below `p` are out of the way of every block from `p` on. */
  lemma SkipBelow(s: seq<Range>, p: nat, size: nat, end: nat)
    requires Ordered(s) && s != [] && s[0].start < p && NoneStraddles(s, p)
    ensures Ordered(s[1..]) && NoneStraddles(s[1..], p)
    ensures forall q: nat :: Free(s, q, size, Range(p, end)) <==> Free(s[1..], q, size, Range(p, end))
  {
    forall q: nat
      ensures Free(s, q, size, Range(p, end)) <==> Free(s[1..], q, size, Range(p, end))
    {
      FreeTail(s, q, size, Range(p, end));
    }
  }

  lemma FreeTail(s: seq<Range>, q: nat, size: nat, allowed: Range)
    requires s != []
    ensures Free(s, q, size, allowed) <==> Free(s[1..], q, size, allowed) && (q + size <= s[0].start || s[0].end <= q)
  {
    if Free(s[1..], q, size, allowed) && (q + size <= s[0].start || s[0].end <= q) {
      forall i | 0 <= i < |s|
        ensures q + size <= s[i].start || s[i].end <= q
      {
        if i > 0 {
          assert s[i] == s[1..][i - 1];
        }
      }
    }
    if Free(s, q, size, allowed) {
      forall i | 0 <= i < |s| - 1
        ensures q + size <= s[1..][i].start || s[1..][i].end <= q
      {
        assert s[1..][i] == s[i + 1];
      }
    }
  }

  /** A gap that is too small moves the search behind the next range. */
  lemma SkipOver(s: seq<Range>, p: nat, size: nat, end: nat)
    requires Ordered(s) && s != [] && p <= s[0].start && s[0].start - p < size
    ensures Ordered(s[1..]) && NoneStraddles(s[1..], s[0].end)
    ensures forall q: nat :: Free(s, q, size, Range(p, end)) <==> Free(s[1..], q, size, Range(s[0].end, end))
  {
    forall q: nat
      ensures Free(s, q, size, Range(p, end)) <==> Free(s[1..], q, size, Range(s[0].end, end))
    {
      FreeTail(s, q, size, Range(p, end));
    }
    forall i | 0 <= i < |s| - 1
      ensures s[1..][i].start >= s[0].end
    {
      assert s[1..][i] == s[i + 1];
    }
  }

  // ---------------------------------------------------------------------------------------------
  // When the search is right, in terms of the claimed ranges

  /** Where the search stands when it comes to range `i`: at `p`, or behind the range before. */
  function CursorAt(s: seq<Range>, p: nat, i: nat): nat
    requires i <= |s|
  {
    if i > 0 && p <= s[i - 1].start then s[i - 1].end else p
  }

  /** The gap in front of range `i` is too small, and the 32-bit sum does not tell that the end has been reached. */
  predicate Passes(s: seq<Range>, p: nat, size: nat, end: nat, i: nat)
    requires i < |s|
  {
    s[i].start < CursorAt(s, p, i) + size && (CursorAt(s, p, i) + size) % WORD <= end
  }

  /** Every gap is passed, the last range ends behind `end`, and the room left wraps to something large. */
  ghost predicate Fooled(s: seq<Range>, p: nat, size: nat, end: nat) {
    var c := CursorAt(s, p, |s|);
    end < c && (end - c) % WORD >= size && forall i :: 0 <= i < |s| && p <= s[i].start ==> Passes(s, p, size, end, i)
  }

  lemma {:induction false} PastIsFooled(s: seq<Range>, p: nat, size: nat, end: nat)
    requires Ordered(s) && size > 0
    ensures RunsPast(s, p, size, end) <==> Fooled(s, p, size, end)
  {
    if s != [] {
      OrderedTail(s);
      var p' := if p > s[0].start then p else s[0].end;
      PastIsFooled(s[1..], p', size, end);
      TailCursors(s, p);
      if p > s[0].start || Passes(s, p, size, end, 0) {
        TailFooled(s, p, size, end);
      } else {
        assert !Fooled(s, p, size, end);
      }
    }
  }

  lemma OrderedTail(s: seq<Range>)
    requires Ordered(s) && s != []
    ensures Ordered(s[1..]) && forall i :: 0 <= i < |s| - 1 ==> s[0].end <= s[1..][i].start
  {
    forall i | 0 <= i < |s| - 1
      ensures s[1..][i] == s[i + 1]
    {
    }
  }

  /** The cursor behind the first range is where the search of the others starts. */
  lemma TailCursors(s: seq<Range>, p: nat)
    requires Ordered(s) && s != []
    ensures var p' := if p > s[0].start then p else s[0].end;
            forall i :: 0 <= i < |s| ==> CursorAt(s[1..], p', i) == CursorAt(s, p, i + 1)
  {
    var p' := if p > s[0].start then p else s[0].end;
    forall i | 0 <= i < |s|
      ensures CursorAt(s[1..], p', i) == CursorAt(s, p, i + 1)
    {
      if i > 0 {
        assert s[1..][i - 1] == s[i];
      }
    }
  }

  lemma TailFooled(s: seq<Range>, p: nat, size: nat, end: nat)
    requires Ordered(s) && s != [] && (p > s[0].start || Passes(s, p, size, end, 0))
    ensures Fooled(s, p, size, end) <==> Fooled(s[1..], if p > s[0].start then p else s[0].end, size, end)
  {
    hide CursorAt;
    var p' := if p > s[0].start then p else s[0].end;
    TailCursors(s, p);
    OrderedTail(s);
    if Fooled(s[1..], p', size, end) {
      forall i | 0 <= i < |s| && p <= s[i].start
        ensures Passes(s, p, size, end, i)
      {
        if i > 0 {
          assert s[1..][i - 1] == s[i];
          assert Passes(s[1..], p', size, end, i - 1);
        }
      }
    }
    if Fooled(s, p, size, end) {
      forall i | 0 <= i < |s| - 1 && p' <= s[1..][i].start
        ensures Passes(s[1..], p', size, end, i)
      {
        assert s[1..][i] == s[i + 1];
        assert Passes(s, p, size, end, i + 1);
      }
    }
  }

  lemma RightFromGap(s: seq<Range>, p: nat, size: nat, end: nat)
    requires Ordered(s) && 0 < size < WORD && p < WORD && end < WORD && NoneStraddles(s, p)
    ensures Right(s, Search(s, p, size, end), size, Range(p, end)) <==> !Fooled(s, p, size, end)
    ensures Fooled(s, p, size, end) ==> Search(s, p, size, end).Some? && end < Search(s, p, size, end).value
  {
    hide Search, RunsPast, Fooled, Right;
    RightUnlessPast(s, p, size, end);
    PastIsFooled(s, p, size, end);
  }

  /** The block at `p` itself gets past what is claimed from `p` on. */
  ghost predicate FitsAtStart(s: seq<Range>, p: nat, size: nat, end: nat) {
    && (forall i :: 0 <= i < |s| && p <= s[i].start ==> p + size <= s[i].start && (p + size) % WORD <= end)
    && ((forall i :: 0 <= i < |s| ==> s[i].start < p) ==> (end - p) % WORD >= size)
  }

  /** Where the search ends: at `p` if the block there fits, and otherwise behind a range from `p` on. */
  lemma {:induction false} SearchEnds(s: seq<Range>, p: nat, size: nat, end: nat)
    requires Ordered(s) && size > 0
    ensures Search(s, p, size, end) == Some(p) <==> FitsAtStart(s, p, size, end)
    ensures var r := Search(s, p, size, end);
            r.Some? && r.value != p ==> exists i :: 0 <= i < |s| && p <= s[i].start && r.value == s[i].end
  {
    if s != [] {
      OrderedTail(s);
      var p' := if p > s[0].start then p else s[0].end;
      SearchEnds(s[1..], p', size, end);
      var r := Search(s[1..], p', size, end);
      if r.Some? && r.value != p' {
        var i :| 0 <= i < |s| - 1 && p' <= s[1..][i].start && r.value == s[1..][i].end;
        assert s[i + 1] == s[1..][i];
      }
      if p > s[0].start {
        TailFits(s, p, size, end);
      } else if s[0].start < p + size {
        assert !FitsAtStart(s, p, size, end);
      }
    }
  }

  lemma TailFits(s: seq<Range>, p: nat, size: nat, end: nat)
    requires s != [] && p > s[0].start
    ensures FitsAtStart(s, p, size, end) <==> FitsAtStart(s[1..], p, size, end)
  {
    assert forall i :: 0 <= i < |s| - 1 ==> s[1..][i] == s[i + 1];
    if FitsAtStart(s[1..], p, size, end) {
      forall i | 0 <= i < |s| && p <= s[i].start
        ensures p + size <= s[i].start && (p + size) % WORD <= end
      {
        assert s[i] == s[1..][i - 1];
      }
      if forall i :: 0 <= i < |s| ==> s[i].start < p {
        assert forall i :: 0 <= i < |s| - 1 ==> s[1..][i].start < p;
      }
    }
    if FitsAtStart(s, p, size, end) && (forall i :: 0 <= i < |s| - 1 ==> s[1..][i].start < p) {
      forall i | 0 <= i < |s|
        ensures s[i].start < p
      {
        if i > 0 {
          assert s[i] == s[1..][i - 1];
        }
      }
    }
  }

  /** The claimed ranges fool the search, or `p` itself is claimed and the block there gets past the ranges behind it. */
  ghost predicate Misled(s: seq<Range>, p: nat, size: nat, end: nat) {
    Fooled(s, p, size, end) || (!NoneStraddles(s, p) && FitsAtStart(s, p, size, end))
  }

  /** The search yields the least free address, or none if there is none, if and only if the ranges do not mislead it. */
  lemma {:induction false} SearchIsRight(s: seq<Range>, p: nat, size: nat, end: nat)
    requires Ordered(s) && 0 < size < WORD && p < WORD && end < WORD
    ensures Right(s, Search(s, p, size, end), size, Range(p, end))
            <==> !Misled(s, p, size, end)
  {
    hide Fooled, FitsAtStart;
    if NoneStraddles(s, p) {
      RightFromGap(s, p, size, end);
    } else {
      SkipOne(s, p, size, end);
      if s[0].end <= p {
        SearchIsRight(s[1..], p, size, end);
        FreeBehind(s, p, size, end);
      } else {
        UnderStraddler(s, p, size, end);
      }
    }
  }

  /** If some range lies across `p`, the first range starts below `p`, and nothing but its room depends on it. */
  lemma SkipOne(s: seq<Range>, p: nat, size: nat, end: nat)
    requires Ordered(s) && 0 < size && !NoneStraddles(s, p)
    ensures s != [] && s[0].start < p && Ordered(s[1..]) && Search(s, p, size, end) == Search(s[1..], p, size, end)
    ensures Fooled(s, p, size, end) <==> Fooled(s[1..], p, size, end)
    ensures FitsAtStart(s, p, size, end) <==> FitsAtStart(s[1..], p, size, end)
    ensures s[0].end <= p ==> !NoneStraddles(s[1..], p)
    ensures p < s[0].end ==> NoneStraddles(s[1..], p) && forall i :: 0 <= i < |s| - 1 ==> s[0].end <= s[1..][i].start
  {
    hide Fooled, FitsAtStart;
    var k :| 0 <= k < |s| && s[k].start < p < s[k].end;
    assert 0 < k ==> s[0].end <= s[k].start;
    OrderedTail(s);
    TailFits(s, p, size, end);
    PastIsFooled(s, p, size, end);
    PastIsFooled(s[1..], p, size, end);
    if s[0].end <= p {
      assert s[1..][k - 1] == s[k];
    }
  }

  lemma FreeBehind(s: seq<Range>, p: nat, size: nat, end: nat)
    requires s != [] && s[0].end <= p
    ensures forall r :: Right(s, r, size, Range(p, end)) <==> Right(s[1..], r, size, Range(p, end))
  {
    forall q: nat
      ensures Free(s, q, size, Range(p, end)) <==> Free(s[1..], q, size, Range(p, end))
    {
      FreeTail(s, q, size, Range(p, end));
    }
  }

  /** The first range lies across `p`, and the others behind it. */
  lemma UnderStraddler(s: seq<Range>, p: nat, size: nat, end: nat)
    requires Ordered(s) && 0 < size < WORD && p < WORD && end < WORD && s != [] && s[0].start < p < s[0].end
    requires Ordered(s[1..]) && NoneStraddles(s[1..], p) && forall i :: 0 <= i < |s| - 1 ==> s[0].end <= s[1..][i].start
    ensures Right(s, Search(s[1..], p, size, end), size, Range(p, end))
            <==> !Fooled(s[1..], p, size, end) && !FitsAtStart(s[1..], p, size, end)
    ensures Fooled(s[1..], p, size, end) ==> Search(s[1..], p, size, end).Some? && end < Search(s[1..], p, size, end).value
  {
    hide Fooled, FitsAtStart, Search, Free;
    var t := s[1..];
    var r := Search(t, p, size, end);
    RightFromGap(t, p, size, end);
    SearchEnds(t, p, size, end);
    forall q: nat
      ensures Free(s, q, size, Range(p, end)) <==> Free(t, q, size, Range(p, end)) && s[0].end <= q
    {
      FreeTail(s, q, size, Range(p, end));
      FreeAbove(t, q, size, Range(p, end));
    }
    if r.Some? && r.value != p {
      var i :| 0 <= i < |t| && p <= t[i].start && r.value == t[i].end;
      assert s[0].end <= r.value;
      if Fooled(t, p, size, end) {
        FreeAbove(t, r.value, size, Range(p, end));
      }
    }
  }

  lemma FreeAbove(s: seq<Range>, q: nat, size: nat, allowed: Range)
    ensures Free(s, q, size, allowed) ==> allowed.start <= q && q + size <= allowed.end
  {
  }

  /**
   * As long as no sum leaves 32 bits, what fools the search is a last range that straddles the end, with a
   * gap in front of it that the block would have begun in, after gaps that are all too small.
   */
  lemma FooledByStraddler(s: seq<Range>, p: nat, size: nat, end: nat)
    requires Ordered(s) && size > 0 && p <= end && p + size < WORD && forall i :: 0 <= i < |s| ==> s[i].end + size < WORD
    ensures Fooled(s, p, size, end) <==>
              && s != [] && p <= s[|s| - 1].start < end < s[|s| - 1].end
              && CursorAt(s, p, |s| - 1) + size <= end
              && forall i :: 0 <= i < |s| && p <= s[i].start ==> s[i].start < CursorAt(s, p, i) + size
  {
    hide CursorAt, Passes;
    if s != [] {
      var n := |s| - 1;
      CursorBehind(s, p);
      forall i | 0 <= i < |s| && p <= s[i].start
        ensures CursorAt(s, p, i) <= CursorAt(s, p, n)
        ensures Passes(s, p, size, end, i) <==> s[i].start < CursorAt(s, p, i) + size <= end
      {
        CursorsRise(s, p, i, n);
        PassesPlainly(s, p, size, end, i);
      }
      if s[n].end > end {
        Small(WORD + end - s[n].end);
      }
    } else {
      assert CursorAt(s, p, 0) == p by { NoCursor(p); }
    }
  }

  lemma NoCursor(p: nat)
    ensures CursorAt([], p, 0) == p
  {
  }

  /** At the end the search stands behind the last range, unless that range was skipped like all before it. */
  lemma CursorBehind(s: seq<Range>, p: nat)
    requires Ordered(s) && s != []
    ensures CursorAt(s, p, |s|) == if p <= s[|s| - 1].start then s[|s| - 1].end else p
  {
  }

  lemma PassesPlainly(s: seq<Range>, p: nat, size: nat, end: nat, i: nat)
    requires i < |s| && p + size < WORD && forall j :: 0 <= j < |s| ==> s[j].end + size < WORD
    ensures Passes(s, p, size, end, i) <==> s[i].start < CursorAt(s, p, i) + size <= end
  {
    Small(CursorAt(s, p, i) + size);
  }

  lemma Small(x: int)
    requires 0 <= x < WORD
    ensures x % WORD == x && (x - WORD) % WORD == x
  {
  }

  lemma CursorsRise(s: seq<Range>, p: nat, i: nat, j: nat)
    requires Ordered(s) && i <= j < |s| && p <= s[i].start
    ensures p <= CursorAt(s, p, i) <= CursorAt(s, p, j)
  {
    if 0 < i && p <= s[i - 1].start {
      assert s[i - 1].start < s[i - 1].end;
    }
    if i < j {
      assert s[i].end <= s[j].start;
      assert i < j - 1 ==> s[i].end <= s[j - 1].start;
    }
  }

  /** No claimed range lies on both sides of the end. */
  ghost predicate NoneCrosses(s: seq<Range>, end: nat) {
    forall i :: 0 <= i < |s| ==> s[i].end <= end || end <= s[i].start
  }

  /** If no range crosses the end, the search stays inside. */
  lemma StaysInside(s: seq<Range>, p: nat, size: nat, end: nat)
    requires Ordered(s) && size > 0 && p <= end && end + size < WORD && NoneCrosses(s, end)
    ensures !Fooled(s, p, size, end)
  {
    if Fooled(s, p, size, end) {
      var i := FirstBehind(s, p, end);
      NotPassed(s, p, size, end, i);
    }
  }

  lemma NotPassed(s: seq<Range>, p: nat, size: nat, end: nat, i: nat)
    requires i < |s| && CursorAt(s, p, i) <= end <= s[i].start && end + size < WORD
    ensures !Passes(s, p, size, end, i)
  {
    Small(CursorAt(s, p, i) + size);
  }

  /** The first range from `p` on that ends behind the end, and a cursor before the end in front of it. */
  lemma FirstBehind(s: seq<Range>, p: nat, end: nat) returns (i: nat)
    requires Ordered(s) && p <= end < CursorAt(s, p, |s|)
    ensures i < |s| && p <= s[i].start && end < s[i].end && CursorAt(s, p, i) <= end
  {
    i := |s| - 1;
    while CursorAt(s, p, i) > end
      invariant i < |s| && p <= s[i].start && end < s[i].end
    {
      i := i - 1;
    }
  }

  /** If no range even ends behind the end, this holds whatever the size. */
  lemma AllEndInside(s: seq<Range>, p: nat, size: nat, end: nat)
    requires p <= end && forall i :: 0 <= i < |s| ==> s[i].end <= end
    ensures !Fooled(s, p, size, end)
  {
  }

  /** A claimed range that reaches beyond the end sends the search there. */
  lemma BeyondTheEnd()
    ensures var s := [Range(0, 0x9000)];
            Search(s, 0, 0x100, 0x8000) == Some(0x9000) && Ordered(s) && !Right(s, Some(0x9000), 0x100, Range(0, 0x8000))
  {
    var s := [Range(0, 0x9000)];
    assert s[1..] == [];
    assert Search([], 0x9000, 0x100, 0x8000) == Some(0x9000);
  }

  class Map {
    /** `memory_map` and `range_count`; entries beyond the count are left over from earlier images. */
    const ranges: array<Range>
    var count: nat

    constructor ()
      ensures ranges.Length == MAX_SEGMENTS + 2 && count == 0 && fresh(ranges)
    {
      ranges := new Range[MAX_SEGMENTS + 2](_ => Range(0, 0));
      count := 0;
    }

    ghost function Claimed(): seq<Range>
      requires count <= ranges.Length
      reads this, ranges
    {
      ranges[..count]
    }

    ghost predicate Valid()
      reads this, ranges
    {
      ranges.Length == MAX_SEGMENTS + 2 && count <= MAX_SEGMENTS + 1 && Ordered(Claimed())
    }

    /** `claim_space`: sorted insertion, whatever stale entry the new count takes in. */
    method Claim(r: Range, force: bool) returns (ok: bool)
      requires ranges.Length == MAX_SEGMENTS + 2 && count <= MAX_SEGMENTS
      modifies this`count, ranges
      ensures ok <==> old(count) < MAX_SEGMENTS || force
      ensures !ok ==> count == old(count) && ranges[..] == old(ranges[..])
      ensures ok ==> count == old(count) + 1 && Claimed() == Inserted(old(Claimed()), r)
    {
      if count >= MAX_SEGMENTS && !force {
        return false;
      }
      ghost var s, n := Claimed(), count;
      count := count + 1;
      var i := 0;
      while i < count
        invariant i <= count == n + 1 && ranges[..] == old(ranges[..])
        invariant forall j :: 0 <= j < i && j < n ==> s[j].start <= r.start
      {
        if r.start < ranges[i].start {
          PlaceIs(s, r, i);
          Put(i, r, s);
          return true;
        }
        i := i + 1;
      }
      PlaceIs(s, r, n);
      ranges[count - 1] := r;
      Appended(s, ranges[..count], r);
      ok := true;
    }

    /** Everything from `i` on makes room for `r`. */
    method Put(i: nat, r: Range, ghost s: seq<Range>)
      requires count <= MAX_SEGMENTS + 1 && ranges.Length == MAX_SEGMENTS + 2 && i < count == |s| + 1 && ranges[..count - 1] == s
      requires Place(s, r) == i
      modifies ranges
      ensures Claimed() == Inserted(s, r)
    {
      ghost var a := ranges[..];
      MoveUp(i);
      ranges[i] := r;
      Shifted(a, ranges[..], s, r, i, count);
    }

    /** The `memmove` of everything from `i` on, the entry behind the old end included. */
    method MoveUp(i: nat)
      requires i < count < ranges.Length
      modifies ranges
      ensures ranges[..i] == old(ranges[..i]) && ranges[i + 1..count + 1] == old(ranges[i..count])
      ensures ranges[count + 1..] == old(ranges[count + 1..])
    {
      forall k | i < k <= count {
        ranges[k] := ranges[k - 1];
      }
    }

    /** The loop of `allocate_space`. */
    method Find(size: nat, allowed: Range) returns (r: Option<nat>)
      requires Valid() && 0 < size < WORD && allowed.start < WORD && allowed.end < WORD
      ensures r == Search(Claimed(), allowed.start, size, allowed.end)
    {
      ghost var s := Claimed();
      var p: nat, i: nat := allowed.start, 0;
      while i < count
        invariant i <= count && p < WORD
        invariant Search(s, allowed.start, size, allowed.end) == Search(s[i..], p, size, allowed.end)
      {
        assert s[i..][0] == s[i] && s[i..][1..] == s[i + 1..];
        if p <= ranges[i].start {
          if (p + size) % WORD > allowed.end {
            return None;
          }
          if ranges[i].start - p >= size {
            return Some(p);
          }
          p := ranges[i].end;
        }
        i := i + 1;
      }
      assert s[i..] == [];
      r := if (allowed.end - p) % WORD >= size then Some(p) else None;
    }

    /** `allocate_space`: the first block of `size` bytes that fits is claimed. */
    method Allocate(size: nat, allowed: Range, force: bool) returns (r: Option<nat>)
      requires Valid() && count <= MAX_SEGMENTS && 0 < size < WORD && allowed.start < WORD && allowed.end < WORD
      modifies this`count, ranges
      ensures var s, found := old(Claimed()), Search(old(Claimed()), allowed.start, size, allowed.end);
              if found.Some? && (|s| < MAX_SEGMENTS || force)
              then r == found && count == |s| + 1 && Claimed() == Inserted(s, Range(found.value, (found.value + size) % WORD))
              else r == None && count == |s| && Claimed() == s
      ensures var s := old(Claimed());
              |s| < MAX_SEGMENTS || force ==> (Right(s, r, size, allowed) <==> !Misled(s, allowed.start, size, allowed.end))
      ensures !Misled(old(Claimed()), allowed.start, size, allowed.end) ==> Valid()
    {
      hide Search, Misled, Inserted;
      ghost var s := Claimed();
      SearchIsRight(s, allowed.start, size, allowed.end);
      r := Find(size, allowed);
      if r == None {
        return;
      }
      var p := r.value;
      var claimed := Claim(Range(p, (p + size) % WORD), force);
      if !claimed {
        assert ranges[..count] == s;
        return None;
      }
      if !Misled(s, allowed.start, size, allowed.end) {
        assert Free(s, p, size, allowed);
        assert (p + size) % WORD == p + size;
        InsertedOrdered(s, Range(p, p + size));
      }
    }
  }
}
