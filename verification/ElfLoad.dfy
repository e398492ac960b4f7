/** Loading an ELF image: claim its segments, find room for the file, and record how to fill the segments from it. */
module ElfLoad {
  import opened Shared
  import opened Placement
  import opened MemoryMap

  const PT_LOAD := 1

  datatype Phdr = Phdr(kind: nat, offset: nat, vaddr: nat, filesz: nat, memsz: nat)

  /** What the second stage is told to do. */
  datatype Op = CopyOp(dst: nat, src: nat, size: nat) | ZeroOp(dest: nat, count: nat, fill: bv8)

  // ---------------------------------------------------------------------------------------------
  // What the operations do

  function Filled(n: nat, x: bv8): (s: seq<bv8>)
    ensures |s| == n && forall i :: 0 <= i < n ==> s[i] == x
  {
    seq<bv8>(n, _ => x)
  }

  function RunOp(m: Ram, op: Op): Ram {
    match op
    case CopyOp(dst, src, size) => Write(m, dst, Span(m, src, size))
    case ZeroOp(dst, size, fill) => Write(m, dst, Filled(size, fill))
  }

  function RunOps(m: Ram, ops: seq<Op>): Ram {
    if ops == [] then m else RunOp(RunOps(m, ops[..|ops| - 1]), ops[|ops| - 1])
  }

  lemma {:induction false} RunOpsConcat(m: Ram, a: seq<Op>, b: seq<Op>)
    ensures RunOps(m, a + b) == RunOps(RunOps(m, a), b)
  {
    hide RunOp;
    if b == [] {
      assert a + b == a;
    } else {
      RunOpsConcat(m, a, b[..|b| - 1]);
      assert (a + b)[..|a + b| - 1] == a + b[..|b| - 1];
    }
  }

  // ---------------------------------------------------------------------------------------------
  // Segments

  function RangeOf(p: Phdr): Range {
    Range(p.vaddr, p.vaddr + p.memsz)
  }

  /** The loadable segments, in the order of the program headers. */
  function Loads(ps: seq<Phdr>): (r: seq<Phdr>)
    ensures |r| <= |ps|
  {
    if ps == [] then [] else
      var front := Loads(ps[..|ps| - 1]);
      if ps[|ps| - 1].kind == PT_LOAD then front + [ps[|ps| - 1]] else front
  }

  predicate Apart(a: Range, b: Range) {
    a.end <= b.start || b.end <= a.start
  }

  predicate SegmentFits(p: Phdr, elfSize: nat, memHi: nat) {
    0 < p.memsz && p.filesz <= p.memsz && p.vaddr + p.memsz <= memHi && p.offset + p.filesz <= elfSize
  }

  /** Segments that an image may ask for: not empty, inside memory, apart, and with their bytes inside the file. */
  ghost predicate Loadable(segs: seq<Phdr>, elfSize: nat, memHi: nat) {
    && |segs| <= 15
    && (forall i :: 0 <= i < |segs| ==> SegmentFits(segs[i], elfSize, memHi))
    && (forall i, j :: 0 <= i < j < |segs| ==> Apart(RangeOf(segs[i]), RangeOf(segs[j])))
  }

  /** The operations for one segment, and for a list of them. */
  function SegmentOps(p: Phdr, elf: nat): seq<Op> {
    (if p.filesz > 0 then [CopyOp(p.vaddr, elf + p.offset, p.filesz)] else [])
    + (if p.filesz < p.memsz then [ZeroOp(p.vaddr + p.filesz, p.memsz - p.filesz, 0)] else [])
  }

  function AllSegmentOps(segs: seq<Phdr>, elf: nat): seq<Op> {
    if segs == [] then [] else AllSegmentOps(segs[..|segs| - 1], elf) + SegmentOps(segs[|segs| - 1], elf)
  }

  /** A segment as chapter 5 of the System V ABI wants it: its bytes from the file, then zeros. */
  ghost predicate Loaded(m: Ram, p: Phdr, file: seq<bv8>)
    requires p.filesz <= p.memsz && p.offset + p.filesz <= |file|
  {
    && Span(m, p.vaddr, p.filesz) == file[p.offset..p.offset + p.filesz]
    && Span(m, p.vaddr + p.filesz, p.memsz - p.filesz) == Filled(p.memsz - p.filesz, 0)
  }

  ghost predicate Same(m: Ram, m': Ram, a: nat, n: nat) {
    forall x :: a <= x < a + n ==> At(m', x) == At(m, x)
  }

  lemma SameSpan(m: Ram, m': Ram, a: nat, n: nat, b: nat, k: nat)
    requires Same(m, m', a, n) && a <= b && b + k <= a + n
    ensures Span(m', b, k) == Span(m, b, k)
  {
    hide At;
  }

  /** The operations of a segment load it, and write nowhere else. */
  lemma SegmentLoads(m: Ram, p: Phdr, elf: nat, file: seq<bv8>)
    requires p.filesz <= p.memsz && p.offset + p.filesz <= |file| && Span(m, elf, |file|) == file
    requires Apart(RangeOf(p), Range(elf, elf + |file|))
    ensures Loaded(RunOps(m, SegmentOps(p, elf)), p, file)
    ensures forall x :: !(p.vaddr <= x < p.vaddr + p.memsz) ==> At(RunOps(m, SegmentOps(p, elf)), x) == At(m, x)
  {
    hide At, Write, Span, Filled;
    var m1 := if p.filesz > 0 then Write(m, p.vaddr, Span(m, elf + p.offset, p.filesz)) else m;
    var m2 := if p.filesz < p.memsz then Write(m1, p.vaddr + p.filesz, Filled(p.memsz - p.filesz, 0)) else m1;
    SegmentRuns(m, p, elf, m1, m2);
    FileBytes(m, elf, file, p.offset, p.filesz);
    assert Span(m2, p.vaddr, p.filesz) == file[p.offset..p.offset + p.filesz];
    assert Span(m2, p.vaddr + p.filesz, p.memsz - p.filesz) == Filled(p.memsz - p.filesz, 0);
  }

  lemma SegmentRuns(m: Ram, p: Phdr, elf: nat, m1: Ram, m2: Ram)
    requires m1 == if p.filesz > 0 then Write(m, p.vaddr, Span(m, elf + p.offset, p.filesz)) else m
    requires m2 == if p.filesz < p.memsz then Write(m1, p.vaddr + p.filesz, Filled(p.memsz - p.filesz, 0)) else m1
    ensures RunOps(m, SegmentOps(p, elf)) == m2
  {
    hide At, Write, Span, Filled;
    var a := if p.filesz > 0 then [CopyOp(p.vaddr, elf + p.offset, p.filesz)] else [];
    var b := if p.filesz < p.memsz then [ZeroOp(p.vaddr + p.filesz, p.memsz - p.filesz, 0)] else [];
    RunOpsConcat(m, a, b);
    assert RunOps(m, a) == m1 by { OneOp(m, a); }
    OneOp(m1, b);
  }

  lemma OneOp(m: Ram, ops: seq<Op>)
    requires |ops| <= 1
    ensures RunOps(m, ops) == if ops == [] then m else RunOp(m, ops[0])
  {
    if ops != [] {
      assert ops[..0] == [];
    }
  }

  lemma FileBytes(m: Ram, elf: nat, file: seq<bv8>, offset: nat, n: nat)
    requires offset + n <= |file| && Span(m, elf, |file|) == file
    ensures Span(m, elf + offset, n) == file[offset..offset + n]
  {
    hide At;
    forall i: nat | offset <= i < offset + n
      ensures Span(m, elf + offset, n)[i - offset] == file[i]
    {
      assert Span(m, elf, |file|)[i] == file[i];
    }
  }

  ghost predicate LoadedIn(m: Ram, p: Phdr, file: seq<bv8>, memHi: nat) {
    SegmentFits(p, |file|, memHi) && Loaded(m, p, file)
  }

  ghost predicate AllLoaded(m: Ram, segs: seq<Phdr>, file: seq<bv8>, memHi: nat) {
    forall i :: 0 <= i < |segs| ==> LoadedIn(m, segs[i], file, memHi)
  }

  lemma LoadStep(m: Ram, front: seq<Phdr>, p: Phdr, elf: nat, file: seq<bv8>, memHi: nat)
    requires AllLoaded(m, front, file, memHi) && SegmentFits(p, |file|, memHi) && Span(m, elf, |file|) == file
    requires Apart(RangeOf(p), Range(elf, elf + |file|))
    requires forall i :: 0 <= i < |front| ==> Apart(RangeOf(front[i]), RangeOf(p))
    ensures var m' := RunOps(m, SegmentOps(p, elf));
            AllLoaded(m', front + [p], file, memHi) && Span(m', elf, |file|) == file
  {
    hide At, SegmentOps, Loaded, Span, RunOps;
    var m' := RunOps(m, SegmentOps(p, elf));
    SegmentLoads(m, p, elf, file);
    StaysApart(m, m', p, elf, |file|);
    forall i | 0 <= i < |front|
      ensures LoadedIn(m', front[i], file, memHi)
    {
      assert LoadedIn(m, front[i], file, memHi);
      StillLoaded(m, m', p, front[i], file);
    }
  }

  /**
   * Running the recorded operations on a copy of the file that lies apart from all segments gives every
   * segment its bytes followed by zeros, and leaves the copy as it was.
   */
  lemma {:induction false} OpsLoadAll(m: Ram, segs: seq<Phdr>, elf: nat, file: seq<bv8>, memHi: nat)
    requires Loadable(segs, |file|, memHi) && Span(m, elf, |file|) == file
    requires forall i :: 0 <= i < |segs| ==> Apart(RangeOf(segs[i]), Range(elf, elf + |file|))
    ensures var m' := RunOps(m, AllSegmentOps(segs, elf));
            Span(m', elf, |file|) == file && AllLoaded(m', segs, file, memHi)
  {
    hide At, SegmentOps, LoadedIn, Span;
    if segs != [] {
      var n := |segs| - 1;
      var front, p := segs[..n], segs[n];
      OpsLoadAll(m, front, elf, file, memHi);
      RunOpsConcat(m, AllSegmentOps(front, elf), SegmentOps(p, elf));
      LoadStep(RunOps(m, AllSegmentOps(front, elf)), front, p, elf, file, memHi);
      assert front + [p] == segs;
    }
  }

  lemma StaysApart(m1: Ram, m2: Ram, p: Phdr, a: nat, n: nat)
    requires forall x :: !(p.vaddr <= x < p.vaddr + p.memsz) ==> At(m2, x) == At(m1, x)
    requires Apart(RangeOf(p), Range(a, a + n))
    ensures Span(m2, a, n) == Span(m1, a, n)
  {
    hide At;
    assert Same(m1, m2, a, n);
    SameSpan(m1, m2, a, n, a, n);
  }

  lemma StillLoaded(m1: Ram, m2: Ram, p: Phdr, q: Phdr, file: seq<bv8>)
    requires forall x :: !(p.vaddr <= x < p.vaddr + p.memsz) ==> At(m2, x) == At(m1, x)
    requires q.filesz <= q.memsz && q.offset + q.filesz <= |file| && Apart(RangeOf(q), RangeOf(p)) && Loaded(m1, q, file)
    ensures Loaded(m2, q, file)
  {
    hide At;
    StaysApart(m1, m2, p, q.vaddr, q.filesz);
    StaysApart(m1, m2, p, q.vaddr + q.filesz, q.memsz - q.filesz);
  }

  // ---------------------------------------------------------------------------------------------
  // The loader

  lemma {:induction false} LoadsPrefix(ps: seq<Phdr>, i: nat)
    requires i <= |ps|
    ensures |Loads(ps[..i])| <= |Loads(ps)| && Loads(ps[..i]) == Loads(ps)[..|Loads(ps[..i])|]
  {
    if i < |ps| {
      LoadsPrefix(ps[..|ps| - 1], i);
      assert ps[..|ps| - 1][..i] == ps[..i];
    } else {
      assert ps[..i] == ps;
    }
  }

  lemma LoadsNext(ps: seq<Phdr>, i: nat)
    requires i < |ps|
    ensures Loads(ps[..i + 1]) == if ps[i].kind == PT_LOAD then Loads(ps[..i]) + [ps[i]] else Loads(ps[..i])
  {
    assert ps[..i + 1][..i] == ps[..i];
  }

  /** The map claims the segments and nothing else. */
  ghost predicate Claims(s: seq<Range>, segs: seq<Phdr>) {
    && |s| == |segs|
    && (forall i :: 0 <= i < |segs| ==> RangeOf(segs[i]) in s)
    && (forall r :: r in s ==> IsOneOf(r, segs))
  }

  ghost predicate IsOneOf(r: Range, segs: seq<Phdr>) {
    exists i :: 0 <= i < |segs| && r == RangeOf(segs[i])
  }

  lemma ClaimsMore(s: seq<Range>, segs: seq<Phdr>, p: Phdr)
    requires Claims(s, segs)
    ensures Claims(Inserted(s, RangeOf(p)), segs + [p])
  {
    hide Place, RangeOf;
    var t, segs' := Inserted(s, RangeOf(p)), segs + [p];
    var k := Place(s, RangeOf(p));
    assert t[k] == RangeOf(p);
    forall i | 0 <= i < |segs'|
      ensures RangeOf(segs'[i]) in t
    {
      if i < |segs| {
        var j :| 0 <= j < |s| && s[j] == RangeOf(segs[i]);
        assert t[if j < k then j else j + 1] == s[j];
      }
    }
    forall r | r in t
      ensures IsOneOf(r, segs')
    {
      if r == RangeOf(p) {
        assert segs'[|segs|] == p;
      } else {
        var j :| 0 <= j < |t| && t[j] == r;
        assert r == s[if j < k then j else j - 1];
        assert IsOneOf(r, segs);
        var i :| 0 <= i < |segs| && r == RangeOf(segs[i]);
        assert segs'[i] == segs[i];
      }
    }
  }

  lemma NextIsApart(all: seq<Phdr>, n: nat, s: seq<Range>, elfSize: nat, memHi: nat)
    requires Loadable(all, elfSize, memHi) && n < |all| && Claims(s, all[..n]) && memHi < WORD
    ensures forall i :: 0 <= i < |s| ==> Apart(RangeOf(all[n]), s[i])
    ensures RangeOf(all[n]).start < RangeOf(all[n]).end < WORD
  {
    forall i | 0 <= i < |s|
      ensures Apart(RangeOf(all[n]), s[i])
    {
      assert IsOneOf(s[i], all[..n]);
      var j :| 0 <= j < n && s[i] == RangeOf(all[..n][j]);
      assert Apart(RangeOf(all[j]), RangeOf(all[n]));
    }
    assert SegmentFits(all[n], elfSize, memHi);
  }

  lemma FreeIsApart(s: seq<Range>, segs: seq<Phdr>, q: nat, size: nat, allowed: Range)
    requires Claims(s, segs) && size > 0
    ensures Free(s, q, size, allowed) <==>
              allowed.start <= q && q + size <= allowed.end
              && forall i :: 0 <= i < |segs| ==> Apart(RangeOf(segs[i]), Range(q, q + size))
  {
    if Free(s, q, size, allowed) {
      forall i | 0 <= i < |segs|
        ensures Apart(RangeOf(segs[i]), Range(q, q + size))
      {
        var j :| 0 <= j < |s| && s[j] == RangeOf(segs[i]);
      }
    }
    if forall i :: 0 <= i < |segs| ==> Apart(RangeOf(segs[i]), Range(q, q + size)) {
      forall j | 0 <= j < |s|
        ensures q + size <= s[j].start || s[j].end <= q
      {
        assert IsOneOf(s[j], segs);
      }
    }
  }

  lemma EndsInside(s: seq<Range>, segs: seq<Phdr>, elfSize: nat, memHi: nat)
    requires Claims(s, segs) && Loadable(segs, elfSize, memHi)
    ensures forall i :: 0 <= i < |s| ==> s[i].end <= memHi
  {
    forall i | 0 <= i < |s|
      ensures s[i].end <= memHi
    {
      assert IsOneOf(s[i], segs);
      var j :| 0 <= j < |segs| && s[i] == RangeOf(segs[j]);
      assert SegmentFits(segs[j], elfSize, memHi);
    }
  }

  /** Where the second stage goes: before the loader, or else behind it. */
  function BootSpot(s: seq<Range>, size: nat, progStart: nat, progEnd: nat, memHi: nat): Option<nat>
    requires size > 0
  {
    var before := Search(s, 0, size, progStart);
    if before.Some? then before else Search(s, progEnd, size, memHi)
  }

  /** The segments and the copy of the file are claimed, and `boot` is what is found for the second stage then. */
  ghost predicate BootFrom(s: seq<Range>, segs: seq<Phdr>, elf: nat, elfSize: nat, boot: Option<nat>, bootSize: nat,
                           progStart: nat, progEnd: nat, memHi: nat)
    requires bootSize > 0
  {
    && Claims(s, segs) && Ordered(s) && RoomAt(segs, elf, elfSize, memHi)
    && boot == BootSpot(Inserted(s, Range(elf, elf + elfSize)), bootSize, progStart, progEnd, memHi)
  }

  /** Neither a segment nor the copy of the file lies on both sides of `a`. */
  ghost predicate NoneCut(segs: seq<Phdr>, elf: nat, elfSize: nat, a: nat) {
    && (elf + elfSize <= a || a <= elf)
    && forall i :: 0 <= i < |segs| ==> RangeOf(segs[i]).end <= a || a <= RangeOf(segs[i]).start
  }

  /** The second stage may lie there: outside the running loader, inside memory, apart from segments and file. */
  ghost predicate BootPlace(segs: seq<Phdr>, elf: nat, elfSize: nat, q: nat, size: nat, progStart: nat, progEnd: nat, memHi: nat) {
    && (q + size <= progStart || (progEnd <= q && q + size <= memHi))
    && Apart(Range(elf, elf + elfSize), Range(q, q + size))
    && forall i :: 0 <= i < |segs| ==> Apart(RangeOf(segs[i]), Range(q, q + size))
  }

  /** `boot` is the least place for the second stage, or there is none. */
  ghost predicate BootRight(segs: seq<Phdr>, elf: nat, elfSize: nat, boot: Option<nat>, size: nat,
                            progStart: nat, progEnd: nat, memHi: nat) {
    match boot
    case None => forall q: nat :: !BootPlace(segs, elf, elfSize, q, size, progStart, progEnd, memHi)
    case Some(p) =>
      && BootPlace(segs, elf, elfSize, p, size, progStart, progEnd, memHi)
      && forall q: nat :: BootPlace(segs, elf, elfSize, q, size, progStart, progEnd, memHi) ==> p <= q
  }

  /** If nothing claimed is cut by the ends of the running loader, the second stage gets the least place for it. */
  lemma BootSpotIsRight(s: seq<Range>, segs: seq<Phdr>, elf: nat, elfSize: nat, boot: Option<nat>, size: nat,
                        progStart: nat, progEnd: nat, memHi: nat)
    requires size > 0 && elfSize > 0 && BootFrom(s, segs, elf, elfSize, boot, size, progStart, progEnd, memHi)
    requires Loadable(segs, elfSize, memHi) && progStart <= progEnd <= memHi < WORD && progStart + size < WORD
    requires NoneCut(segs, elf, elfSize, progStart) && NoneCut(segs, elf, elfSize, progEnd)
    ensures BootRight(segs, elf, elfSize, boot, size, progStart, progEnd, memHi)
  {
    hide Claims, Loadable, Ordered, Inserted, Search, Fooled, Free, RoomAt, BootPlace;
    var copy := AsSegment(elf, elfSize);
    var all, t := segs + [copy], Inserted(s, Range(elf, elf + elfSize));
    ClaimsMore(s, segs, copy);
    CopyIsApart(s, segs, elf, elfSize, memHi);
    InsertedOrdered(s, Range(elf, elf + elfSize));
    ClaimsCut(t, segs, elf, elfSize, memHi, progStart);
    ClaimsCut(t, segs, elf, elfSize, memHi, progEnd);
    StaysInside(t, 0, size, progStart);
    AllEndInside(t, progEnd, size, memHi);
    SearchIsRight(t, 0, size, progStart);
    SearchIsRight(t, progEnd, size, memHi);
    forall q: nat
      ensures BootPlace(segs, elf, elfSize, q, size, progStart, progEnd, memHi)
              <==> Free(t, q, size, Range(0, progStart)) || Free(t, q, size, Range(progEnd, memHi))
    {
      PlaceIsFree(t, segs, elf, elfSize, q, size, progStart, progEnd, memHi);
    }
    forall q: nat, r: nat | Free(t, q, size, Range(0, progStart)) && Free(t, r, size, Range(progEnd, memHi))
      ensures q <= r
    {
      InAllowed(t, q, size, Range(0, progStart));
      InAllowed(t, r, size, Range(progEnd, memHi));
    }
  }

  lemma InAllowed(s: seq<Range>, q: nat, size: nat, allowed: Range)
    requires Free(s, q, size, allowed)
    ensures allowed.start <= q && q + size <= allowed.end
  {
  }

  /** The copy of the file, written as a segment. */
  function AsSegment(elf: nat, elfSize: nat): (p: Phdr)
    ensures RangeOf(p) == Range(elf, elf + elfSize)
  {
    Phdr(PT_LOAD, 0, elf, 0, elfSize)
  }

  lemma CopyIsApart(s: seq<Range>, segs: seq<Phdr>, elf: nat, elfSize: nat, memHi: nat)
    requires Claims(s, segs) && RoomAt(segs, elf, elfSize, memHi) && elfSize > 0 && memHi < WORD
    ensures elf < elf + elfSize < WORD
    ensures forall i :: 0 <= i < |s| ==> elf + elfSize <= s[i].start || s[i].end <= elf
  {
    forall i | 0 <= i < |s|
      ensures elf + elfSize <= s[i].start || s[i].end <= elf
    {
      assert IsOneOf(s[i], segs);
      var j :| 0 <= j < |segs| && s[i] == RangeOf(segs[j]);
      assert Apart(RangeOf(segs[j]), Range(elf, elf + elfSize));
    }
  }

  /** What is cut by no edge for the segments and the file is cut by none for the map, and it ends inside memory. */
  lemma ClaimsCut(t: seq<Range>, segs: seq<Phdr>, elf: nat, elfSize: nat, memHi: nat, a: nat)
    requires Claims(t, segs + [AsSegment(elf, elfSize)]) && Loadable(segs, elfSize, memHi)
    requires RoomAt(segs, elf, elfSize, memHi) && NoneCut(segs, elf, elfSize, a)
    ensures NoneCrosses(t, a) && NoneStraddles(t, a) && forall i :: 0 <= i < |t| ==> t[i].end <= memHi
    ensures NoneStraddles(t, 0)
  {
    var all := segs + [AsSegment(elf, elfSize)];
    forall i | 0 <= i < |t|
      ensures (t[i].end <= a || a <= t[i].start) && t[i].end <= memHi
    {
      assert IsOneOf(t[i], all);
      var j :| 0 <= j < |all| && t[i] == RangeOf(all[j]);
      if j < |segs| {
        assert all[j] == segs[j] && SegmentFits(segs[j], elfSize, memHi);
      }
    }
  }

  lemma PlaceIsFree(t: seq<Range>, segs: seq<Phdr>, elf: nat, elfSize: nat, q: nat, size: nat, progStart: nat, progEnd: nat, memHi: nat)
    requires Claims(t, segs + [AsSegment(elf, elfSize)]) && size > 0
    ensures BootPlace(segs, elf, elfSize, q, size, progStart, progEnd, memHi)
            <==> Free(t, q, size, Range(0, progStart)) || Free(t, q, size, Range(progEnd, memHi))
  {
    hide Claims, Free;
    var all := segs + [AsSegment(elf, elfSize)];
    FreeIsApart(t, all, q, size, Range(0, progStart));
    FreeIsApart(t, all, q, size, Range(progEnd, memHi));
    assert all[|segs|] == AsSegment(elf, elfSize);
    assert forall i :: 0 <= i < |segs| ==> all[i] == segs[i];
  }

  /**
   * A segment that reaches into the running loader can send the second stage there: the file goes in front of
   * the segment, the gap between them is too small, and the search ends behind the segment.
   */
  lemma SecondStageInLoader()
    ensures var segs := [Phdr(PT_LOAD, 0, 0x1000, 1, 0x8000)];
            && Loadable(segs, 0xf00, 0x2000_0000) && RoomAt(segs, 0, 0xf00, 0x2000_0000)
            && BootFrom([Range(0x1000, 0x9000)], segs, 0, 0xf00, Some(0x9000), 0x200, 0x8000, 0xa000, 0x2000_0000)
            && !BootRight(segs, 0, 0xf00, Some(0x9000), 0x200, 0x8000, 0xa000, 0x2000_0000)
  {
    var segs := [Phdr(PT_LOAD, 0, 0x1000, 1, 0x8000)];
    var s, r := [Range(0x1000, 0x9000)], Range(0, 0xf00);
    assert RangeOf(segs[0]) == s[0] && s[0] in s;
    assert Place(s, r) == 0;
    var t := Inserted(s, r);
    assert t == [r, Range(0x1000, 0x9000)];
    assert t[1..] == [Range(0x1000, 0x9000)] && t[1..][1..] == [];
    assert Search(t[1..][1..], 0x9000, 0x200, 0x8000) == Some(0x9000);
    assert Search(t[1..], 0xf00, 0x200, 0x8000) == Some(0x9000);
    assert Search(t, 0, 0x200, 0x8000) == Some(0x9000);
  }

  /** What running the operations does, whatever the memory and the file in it: every segment is loaded, the file stays. */
  ghost predicate Fills(ops: seq<Op>, segs: seq<Phdr>, elf: nat, elfSize: nat, memHi: nat) {
    forall m: Ram ::
      && AllLoaded(RunOps(m, ops), segs, Span(m, elf, elfSize), memHi)
      && Span(RunOps(m, ops), elf, elfSize) == Span(m, elf, elfSize)
  }

  lemma OpsFill(segs: seq<Phdr>, elf: nat, elfSize: nat, memHi: nat)
    requires Loadable(segs, elfSize, memHi) && RoomAt(segs, elf, elfSize, memHi)
    ensures Fills(AllSegmentOps(segs, elf), segs, elf, elfSize, memHi)
  {
    hide Span, RunOps, AllLoaded, AllSegmentOps, Loadable;
    forall m: Ram
      ensures var m' := RunOps(m, AllSegmentOps(segs, elf));
              AllLoaded(m', segs, Span(m, elf, elfSize), memHi) && Span(m', elf, elfSize) == Span(m, elf, elfSize)
    {
      assert |Span(m, elf, elfSize)| == elfSize by { SpanLength(m, elf, elfSize); }
      OpsLoadAll(m, segs, elf, Span(m, elf, elfSize), memHi);
    }
  }

  lemma SpanLength(m: Ram, a: nat, n: nat)
    ensures |Span(m, a, n)| == n
  {
  }

  /** What lies apart from all segments survives the operations: the second stage, for one. */
  lemma {:induction false} OpsSpare(m: Ram, segs: seq<Phdr>, elf: nat, elfSize: nat, memHi: nat, q: nat, n: nat)
    requires Loadable(segs, elfSize, memHi) && RoomAt(segs, elf, elfSize, memHi)
    requires forall i :: 0 <= i < |segs| ==> Apart(RangeOf(segs[i]), Range(q, q + n))
    ensures Span(RunOps(m, AllSegmentOps(segs, elf)), q, n) == Span(m, q, n)
  {
    hide At, SegmentOps, Span, Loaded;
    if segs != [] {
      var k := |segs| - 1;
      var front, p := segs[..k], segs[k];
      OpsSpare(m, front, elf, elfSize, memHi, q, n);
      RunOpsConcat(m, AllSegmentOps(front, elf), SegmentOps(p, elf));
      var m1 := RunOps(m, AllSegmentOps(front, elf));
      SpanLength(m1, elf, elfSize);
      assert SegmentFits(p, elfSize, memHi);
      SegmentLoads(m1, p, elf, Span(m1, elf, elfSize));
      StaysApart(m1, RunOps(m1, SegmentOps(p, elf)), p, q, n);
    }
  }

  datatype Outcome = LoadedAt(elf: nat, boot: nat) | NoRoomForElf | TooManyOps | NoRoomForBoot

  class ElfLoader {
    const claims: Map
    /** `loader_ops`, up to `op_count`. */
    var ops: seq<Op>

    constructor ()
      ensures claims.ranges.Length == MAX_SEGMENTS + 2 && fresh(claims) && fresh(claims.ranges)
    {
      claims := new Map();
      ops := [];
    }

    /** `register_loader_op` */
    method Register(op: Op) returns (ok: bool)
      modifies this
      ensures ok <==> |old(ops)| < MAX_SEGMENTS
      ensures ops == if ok then old(ops) + [op] else old(ops)
    {
      if |ops| >= MAX_SEGMENTS {
        return false;
      }
      ops := ops + [op];
      ok := true;
    }

    /** The first pass over the program headers: every loadable segment claims its place. */
    method ClaimSegments(ps: seq<Phdr>, elfSize: nat, memHi: nat)
      requires claims.ranges.Length == MAX_SEGMENTS + 2 && Loadable(Loads(ps), elfSize, memHi) && memHi < WORD
      modifies claims, claims.ranges
      ensures claims.Valid() && Claims(claims.Claimed(), Loads(ps))
    {
      hide Inserted, Claims, Loadable, Ordered;
      claims.count := 0;
      var i := 0;
      NothingClaimed(ps, claims.Claimed());
      while i < |ps|
        invariant i <= |ps| && claims.Valid() && Claims(claims.Claimed(), Loads(ps[..i])) && claims.count == |Loads(ps[..i])|
      {
        LoadsNext(ps, i);
        LoadsPrefix(ps, i + 1);
        LoadsPrefix(ps, i);
        if ps[i].kind == PT_LOAD {
          ghost var s, n := claims.Claimed(), |Loads(ps[..i])|;
          assert Loads(ps)[n] == ps[i];
          FewLoads(Loads(ps), elfSize, memHi);
          NextIsApart(Loads(ps), n, s, elfSize, memHi);
          var _ := claims.Claim(RangeOf(ps[i]), false);
          InsertedOrdered(s, RangeOf(ps[i]));
          ClaimsMore(s, Loads(ps[..i]), ps[i]);
        }
        i := i + 1;
      }
      assert ps[..i] == ps;
    }

    /** A copy and a fill for one segment, as far as it needs them. */
    method RecordSegment(p: Phdr, elf: nat) returns (ok: bool)
      requires |ops| <= MAX_SEGMENTS
      modifies this
      ensures ok ==> ops == old(ops) + SegmentOps(p, elf) && |ops| <= MAX_SEGMENTS
      ensures !ok ==> |old(ops)| + |SegmentOps(p, elf)| > MAX_SEGMENTS
    {
      ok := true;
      if p.filesz > 0 {
        ok := Register(CopyOp(p.vaddr, elf + p.offset, p.filesz));
        if !ok {
          return;
        }
      }
      if p.filesz < p.memsz {
        ok := Register(ZeroOp(p.vaddr + p.filesz, p.memsz - p.filesz, 0));
      }
    }

    /** The second pass: copies and fills for every segment, as long as there is room for them. */
    method RecordOps(ps: seq<Phdr>, elf: nat) returns (ok: bool)
      modifies this
      ensures ok ==> ops == AllSegmentOps(Loads(ps), elf) && |ops| <= MAX_SEGMENTS
      ensures !ok ==> |AllSegmentOps(Loads(ps), elf)| > MAX_SEGMENTS
    {
      hide SegmentOps;
      ops := [];
      var i := 0;
      while i < |ps|
        invariant i <= |ps| && ops == AllSegmentOps(Loads(ps[..i]), elf) && |ops| <= MAX_SEGMENTS
      {
        LoadsNext(ps, i);
        if ps[i].kind == PT_LOAD {
          OpsNext(Loads(ps[..i]), ps[i], elf);
          LongerOps(ps, i + 1, elf);
          ok := RecordSegment(ps[i], elf);
          if !ok {
            return;
          }
        }
        i := i + 1;
      }
      assert ps[..i] == ps;
      ok := true;
    }

    /**
     * `load_elf_image`, behind the check of the file header.  On success the recorded operations are those
     * of the segments, and the place found for the file is apart from all of them.
     */
    method Load(ps: seq<Phdr>, elfSize: nat, memHi: nat, bootSize: nat, progStart: nat, progEnd: nat) returns (r: Outcome)
      requires claims.ranges.Length == MAX_SEGMENTS + 2 && Loadable(Loads(ps), elfSize, memHi) && memHi < WORD
      requires 0 < elfSize < WORD && 0 < bootSize < WORD && progStart < WORD && progEnd < WORD
      modifies this, claims, claims.ranges
      ensures r.LoadedAt? ==>
                ops == AllSegmentOps(Loads(ps), r.elf) && RoomAt(Loads(ps), r.elf, elfSize, memHi)
      ensures r.LoadedAt? ==> Fills(ops, Loads(ps), r.elf, elfSize, memHi)
      ensures r.LoadedAt? ==> forall q: nat :: RoomAt(Loads(ps), q, elfSize, memHi) ==> r.elf <= q
      ensures r == NoRoomForElf ==> forall q: nat :: !RoomAt(Loads(ps), q, elfSize, memHi)
      ensures r == TooManyOps ==> exists elf: nat :: |AllSegmentOps(Loads(ps), elf)| > MAX_SEGMENTS
      ensures r.LoadedAt? ==> exists s :: BootFrom(s, Loads(ps), r.elf, elfSize, Some(r.boot), bootSize, progStart, progEnd, memHi)
      ensures r == NoRoomForBoot ==>
                exists s, elf: nat :: BootFrom(s, Loads(ps), elf, elfSize, None, bootSize, progStart, progEnd, memHi)
      ensures r.LoadedAt? && progStart <= progEnd <= memHi && progStart + bootSize < WORD
              && NoneCut(Loads(ps), r.elf, elfSize, progStart) && NoneCut(Loads(ps), r.elf, elfSize, progEnd) ==>
                && BootRight(Loads(ps), r.elf, elfSize, Some(r.boot), bootSize, progStart, progEnd, memHi)
                && Spares(ops, r.boot, bootSize)
      ensures r == NoRoomForBoot && progStart <= progEnd <= memHi && progStart + bootSize < WORD ==>
                exists elf: nat ::
                  && RoomAt(Loads(ps), elf, elfSize, memHi)
                  && (NoneCut(Loads(ps), elf, elfSize, progStart) && NoneCut(Loads(ps), elf, elfSize, progEnd) ==>
                        BootRight(Loads(ps), elf, elfSize, None, bootSize, progStart, progEnd, memHi))
    {
      hide Claims, Loadable, Ordered, Inserted, Search, Fooled, Fills, RoomAt, NoneCut, BootRight, Spares;
      ClaimSegments(ps, elfSize, memHi);
      ghost var segs, s := Loads(ps), claims.Claimed();
      FewLoads(segs, elfSize, memHi);
      CountIs(s, segs);
      EndsInside(s, segs, elfSize, memHi);
      AllEndInside(s, 0, elfSize, memHi);
      var elf := claims.Allocate(elfSize, Range(0, memHi), true);
      Found(s, segs, elf, elfSize, memHi);
      if elf == None {
        return NoRoomForElf;
      }
      var ok := RecordOps(ps, elf.value);
      if !ok {
        return TooManyOps;
      }
      var boot := claims.Allocate(bootSize, Range(0, progStart), true);
      if boot == None {
        boot := claims.Allocate(bootSize, Range(progEnd, memHi), true);
      }
      assert BootFrom(s, segs, elf.value, elfSize, boot, bootSize, progStart, progEnd, memHi);
      if progStart <= progEnd <= memHi && progStart + bootSize < WORD
         && NoneCut(segs, elf.value, elfSize, progStart) && NoneCut(segs, elf.value, elfSize, progEnd) {
        BootSpotIsRight(s, segs, elf.value, elfSize, boot, bootSize, progStart, progEnd, memHi);
        BootSurvives(segs, elf.value, elfSize, boot, bootSize, progStart, progEnd, memHi);
      }
      if boot == None {
        return NoRoomForBoot;
      }
      OpsFill(segs, elf.value, elfSize, memHi);
      r := LoadedAt(elf.value, boot.value);
    }
  }

  /** The operations leave these bytes alone. */
  ghost predicate Spares(ops: seq<Op>, q: nat, n: nat) {
    forall m: Ram :: Span(RunOps(m, ops), q, n) == Span(m, q, n)
  }

  /** A second stage in its right place is not touched by the operations that it carries out. */
  lemma BootSurvives(segs: seq<Phdr>, elf: nat, elfSize: nat, boot: Option<nat>, size: nat, progStart: nat, progEnd: nat, memHi: nat)
    requires Loadable(segs, elfSize, memHi) && RoomAt(segs, elf, elfSize, memHi)
    requires BootRight(segs, elf, elfSize, boot, size, progStart, progEnd, memHi)
    ensures boot.Some? ==> Spares(AllSegmentOps(segs, elf), boot.value, size)
  {
    hide Loadable, RoomAt, Span, RunOps, AllSegmentOps;
    if boot.Some? {
      forall m: Ram
        ensures Span(RunOps(m, AllSegmentOps(segs, elf)), boot.value, size) == Span(m, boot.value, size)
      {
        OpsSpare(m, segs, elf, elfSize, memHi, boot.value, size);
      }
    }
  }

  /** A block of `size` bytes at `q` would lie inside memory and apart from every segment. */
  ghost predicate RoomAt(segs: seq<Phdr>, q: nat, size: nat, memHi: nat) {
    q + size <= memHi && forall i :: 0 <= i < |segs| ==> Apart(RangeOf(segs[i]), Range(q, q + size))
  }

  lemma NothingClaimed(ps: seq<Phdr>, s: seq<Range>)
    requires s == []
    ensures Claims(s, Loads(ps[..0])) && Ordered(s)
  {
  }

  lemma FewLoads(segs: seq<Phdr>, elfSize: nat, memHi: nat)
    requires Loadable(segs, elfSize, memHi)
    ensures |segs| <= 15
  {
  }

  lemma CountIs(s: seq<Range>, segs: seq<Phdr>)
    requires Claims(s, segs)
    ensures |s| == |segs|
  {
  }

  lemma OpsNext(segs: seq<Phdr>, p: Phdr, elf: nat)
    ensures AllSegmentOps(segs + [p], elf) == AllSegmentOps(segs, elf) + SegmentOps(p, elf)
  {
    assert (segs + [p])[..|segs|] == segs;
  }

  lemma LongerOps(ps: seq<Phdr>, i: nat, elf: nat)
    requires i <= |ps|
    ensures |AllSegmentOps(Loads(ps[..i]), elf)| <= |AllSegmentOps(Loads(ps), elf)|
  {
    LoadsPrefix(ps, i);
    PrefixOps(Loads(ps), |Loads(ps[..i])|, elf);
  }

  lemma {:induction false} PrefixOps(segs: seq<Phdr>, k: nat, elf: nat)
    requires k <= |segs|
    ensures |AllSegmentOps(segs[..k], elf)| <= |AllSegmentOps(segs, elf)|
  {
    if k < |segs| {
      PrefixOps(segs[..|segs| - 1], k, elf);
      assert segs[..|segs| - 1][..k] == segs[..k];
    } else {
      assert segs[..k] == segs;
    }
  }

  lemma Found(s: seq<Range>, segs: seq<Phdr>, r: Option<nat>, size: nat, memHi: nat)
    requires Claims(s, segs) && size > 0 && Right(s, r, size, Range(0, memHi))
    ensures r.Some? ==> RoomAt(segs, r.value, size, memHi) && forall q: nat :: RoomAt(segs, q, size, memHi) ==> r.value <= q
    ensures r.None? ==> forall q: nat :: !RoomAt(segs, q, size, memHi)
  {
    hide Claims, Free;
    forall q: nat
      ensures RoomAt(segs, q, size, memHi) <==> Free(s, q, size, Range(0, memHi))
    {
      FreeIsApart(s, segs, q, size, Range(0, memHi));
    }
  }
}
