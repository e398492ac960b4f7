/** Where the device puts an image that may overlap the running loader, and how it gets to its place. */
module Placement {
  import opened Crc

  const DRAM_LIMIT := 0x2000_0000
  const CRC_BLOCKSIZE := 0x4000

  // ---------------------------------------------------------------------------------------------
  // Memory

  type Ram = map<int, bv8>

  function At(m: Ram, a: int): bv8 {
    if a in m then m[a] else 0
  }

  /** The `n` bytes from `a` on. */
  function Span(m: Ram, a: int, n: nat): (s: seq<bv8>)
    ensures |s| == n && forall i :: 0 <= i < n ==> s[i] == At(m, a + i)
  {
    seq<bv8>(n, i => At(m, a + i))
  }

  function Element(s: seq<bv8>, a: int, x: int): bv8
    requires a <= x < a + |s|
  {
    s[x - a]
  }

  /** `memcpy` of `s` to `a`. */
  function Write(m: Ram, a: int, s: seq<bv8>): (r: Ram)
    ensures forall x :: At(r, x) == if a <= x < a + |s| then s[x - a] else At(m, x)
  {
    m + map x | a <= x < a + |s| :: Element(s, a, x)
  }

  function Max(a: nat, b: nat): nat {
    if a < b then b else a
  }

  function Min(a: nat, b: nat): nat {
    if a < b then a else b
  }

  // ---------------------------------------------------------------------------------------------
  // Layout

  datatype Format = FlatBinary | Elf
  datatype Compression = Plain | Xz

  datatype Meta = Meta(format: nat, compression: nat, memSize: nat, crc: Word, loadAddr: nat)

  /** The running loader and the size of its last piece of code. */
  datatype Program = Program(start: nat, end: nat, stubSize: nat)

  predicate ProgramValid(p: Program) {
    p.start < p.end && p.end + (p.end - p.start) + p.stubSize < DRAM_LIMIT
  }

  /** The image, the part of it that would fall on the loader, where that part waits, and the stub behind it. */
  datatype Layout = Layout(imgStart: nat, imgEnd: nat, size: nat, tgtStart: nat, tgtEnd: nat,
                           bufStart: nat, bufEnd: nat, stubStart: nat, stubEnd: nat)

  /** What a layout has to offer for an image of `n` bytes. */
  ghost predicate LayoutGood(l: Layout, p: Program) {
    && l.imgStart <= l.imgEnd
    && (l.size == 0 ==> l.imgEnd <= p.start || p.end <= l.imgStart || l.imgStart == l.imgEnd)
    && (l.size > 0 ==>
          && l.tgtStart == Max(l.imgStart, p.start) && l.tgtEnd == Min(l.imgEnd, p.end)
          && l.tgtEnd == l.tgtStart + l.size
          && p.end <= l.bufStart && l.imgEnd <= l.bufStart && l.bufEnd == l.bufStart + l.size
          && l.bufEnd <= l.stubStart < l.bufEnd + 4 && l.stubStart % 4 == 0 && l.stubEnd == l.stubStart + p.stubSize)
  }

  /** The address at which the byte meant for `a` waits. */
  function Home(l: Layout, a: nat): nat {
    if l.size > 0 && l.tgtStart <= a < l.tgtEnd then l.bufStart + (a - l.tgtStart) else a
  }

  /** An image that overlaps the loader leaves room for a copy of the overlap and the stub behind both. */
  predicate Relocatable(p: Program, start: nat, memSize: nat) {
    memSize > 0 && start < p.end && p.start < start + memSize ==>
      Max(p.end, start + memSize) + (Min(start + memSize, p.end) - Max(start, p.start)) + p.stubSize < DRAM_LIMIT
  }

  /** How much of the image would fall on the loader. */
  function Overlap(p: Program, start: nat, memSize: nat): (n: nat)
    requires p.start < p.end
    ensures n > 0 <==> memSize > 0 && start < p.end && p.start < start + memSize
  {
    if start < p.end && p.start < start + memSize then Min(start + memSize, p.end) - Max(start, p.start) else 0
  }

  /** The end of the buffer for the overlap, which lies behind image and loader. */
  function BufferEnd(p: Program, start: nat, memSize: nat): nat
    requires p.start < p.end
  {
    Max(p.end, start + memSize) + Overlap(p, start, memSize)
  }

  /** The bytes skipped in front of the stub to align it. */
  function Padding(a: nat): (n: nat)
    ensures n < 4 && (a + n) % 4 == 0
  {
    (4 - a % 4) % 4
  }

  /** Where an image of `memSize` bytes at `start` goes, or nothing if the relocation buffer does not fit. */
  method PlaceImage(p: Program, start: nat, memSize: nat) returns (ok: bool, l: Layout)
    requires ProgramValid(p)
    ensures ok ==> LayoutGood(l, p) && l.imgStart == start && l.imgEnd == start + memSize
    ensures ok ==> l.size == Overlap(p, start, memSize)
    ensures ok && l.size > 0 ==> l.bufStart == Max(p.end, l.imgEnd) && l.bufEnd + p.stubSize < DRAM_LIMIT
    ensures ok && l.size > 0 ==> l.bufEnd == BufferEnd(p, start, memSize) && l.stubEnd == l.bufEnd + Padding(l.bufEnd) + p.stubSize
    ensures ok <==> Relocatable(p, start, memSize)
  {
    var end := start + memSize;
    var tgtStart, tgtEnd, size := 0, 0, 0;
    if (p.start <= start < p.end) || (start < p.start && end > p.start) {
      tgtStart := Max(start, p.start);
      tgtEnd := Min(end, p.end);
      size := tgtEnd - tgtStart;
    }
    if size > 0 {
      var bufStart := Max(p.end, end);
      if bufStart >= DRAM_LIMIT - size - p.stubSize {
        return false, Layout(start, end, 0, 0, 0, 0, 0, 0, 0);
      }
      var bufEnd := bufStart + size;
      var stubStart := (bufEnd + 3) / 4 * 4;
      l := Layout(start, end, size, tgtStart, tgtEnd, bufStart, bufEnd, stubStart, stubStart + p.stubSize);
    } else {
      l := Layout(start, end, 0, 0, 0, 0, 0, 0, 0);
    }
    ok := true;
  }

  /** Image, buffer, loader and stub do not run into one another. */
  lemma NothingCollides(l: Layout, p: Program, a: nat, b: nat)
    requires LayoutGood(l, p) && l.imgStart <= a < l.imgEnd && l.imgStart <= b < l.imgEnd
    ensures !(p.start <= Home(l, a) < p.end)
    ensures l.size > 0 ==> !(l.stubStart <= Home(l, a) < l.stubEnd) && !(l.stubStart <= a < l.stubEnd)
    ensures Home(l, a) == Home(l, b) ==> a == b
    ensures l.size > 0 && l.tgtStart <= a < l.tgtEnd ==> l.bufStart <= Home(l, a) < l.bufEnd
  {
  }

  /** Which flat images are taken on. */
  predicate Accepted(p: Program, m: Meta) {
    && m.format == 0 && m.compression < 2 && m.loadAddr % 4 == 0 && m.loadAddr + m.memSize < DRAM_LIMIT
    && Relocatable(p, m.loadAddr, m.memSize)
  }

  /**
   * A flat image is taken on exactly if it ends inside memory, is aligned, and is plain or compressed in the
   * one known way, and behind image and loader there is room for what the two share, and for the stub.
   */
  lemma AcceptedExactly(p: Program, m: Meta)
    requires ProgramValid(p) && m.format == 0
    ensures Accepted(p, m) <==>
              && (m.compression == 0 || m.compression == 1) && m.loadAddr % 4 == 0 && m.loadAddr + m.memSize < DRAM_LIMIT
              && ((forall a :: !InBoth(p, m.loadAddr, m.memSize, a))
                  || exists b: nat, n: nat :: RoomBehind(p, m.loadAddr, m.memSize, b, n))
  {
    var start, end := m.loadAddr, m.loadAddr + m.memSize;
    var n := Overlap(p, start, m.memSize);
    if n > 0 {
      var lo := Max(start, p.start);
      assert InBoth(p, start, m.memSize, lo);
      assert OnePiece(p, start, m.memSize, lo, n);
      forall b: nat, k: nat | RoomBehind(p, start, m.memSize, b, k) ensures Relocatable(p, start, m.memSize) {
        SharedIs(p, start, m.memSize, k);
      }
      if Relocatable(p, start, m.memSize) {
        assert RoomBehind(p, start, m.memSize, Max(p.end, end), n);
      }
    }
  }

  /** An address of the image that is also the loader's. */
  predicate InBoth(p: Program, start: nat, memSize: nat, a: int) {
    start <= a < start + memSize && p.start <= a < p.end
  }

  /** What image and loader share are the `n` addresses from `lo` on. */
  ghost predicate OnePiece(p: Program, start: nat, memSize: nat, lo: int, n: nat) {
    forall a :: InBoth(p, start, memSize, a) <==> lo <= a < lo + n
  }

  /** At `b`, behind image and loader, there is room for the `n` bytes that they share, and for the stub. */
  ghost predicate RoomBehind(p: Program, start: nat, memSize: nat, b: nat, n: nat) {
    && p.end <= b && start + memSize <= b && b + n + p.stubSize < DRAM_LIMIT
    && exists lo :: OnePiece(p, start, memSize, lo, n)
  }

  lemma SharedIs(p: Program, start: nat, memSize: nat, n: nat)
    requires p.start < p.end && Overlap(p, start, memSize) > 0 && exists lo :: OnePiece(p, start, memSize, lo, n)
    ensures n == Overlap(p, start, memSize)
  {
    var lo :| OnePiece(p, start, memSize, lo, n);
    var x: int, y: int := Max(start, p.start), Min(start + memSize, p.end) - 1;
    assert InBoth(p, start, memSize, x) && InBoth(p, start, memSize, y);
    assert !InBoth(p, start, memSize, x - 1) && !InBoth(p, start, memSize, y + 1);
  }

  /** Where the stub for an image ends, if it needs one. */
  function StubEnd(p: Program, m: Meta): nat
    requires p.start < p.end
  {
    var b := BufferEnd(p, m.loadAddr, m.memSize);
    b + Padding(b) + p.stubSize
  }

  /**
   * The space check does not count the padding: the stub of an accepted image ends behind memory if and only
   * if the padding is more than what the check found left over, and then by two bytes at most.
   */
  lemma StubFits(p: Program, m: Meta)
    requires ProgramValid(p) && Accepted(p, m) && Overlap(p, m.loadAddr, m.memSize) > 0
    ensures var b := BufferEnd(p, m.loadAddr, m.memSize);
            && b + p.stubSize < DRAM_LIMIT
            && (StubEnd(p, m) > DRAM_LIMIT <==> DRAM_LIMIT - (b + p.stubSize) < Padding(b))
    ensures StubEnd(p, m) <= DRAM_LIMIT + 2
    ensures p.stubSize % 4 == 0 || p.stubSize % 4 == 3 ==> StubEnd(p, m) <= DRAM_LIMIT
  {
    assert DRAM_LIMIT % 4 == 0;
  }

  /** An accepted image whose stub ends behind memory, for a stub that is neither whole words nor one byte short of it. */
  lemma StubSticksOut(p: Program) returns (m: Meta)
    requires ProgramValid(p) && p.start % 4 == 0 && (p.stubSize % 4 == 1 || p.stubSize % 4 == 2)
    ensures Accepted(p, m) && Overlap(p, m.loadAddr, m.memSize) > 0 && StubEnd(p, m) > DRAM_LIMIT
  {
    var memSize := DRAM_LIMIT - 1 - p.stubSize - (p.end - p.start) - p.start;
    m := Meta(0, 0, memSize, Word(0), p.start);
    assert BufferEnd(p, p.start, memSize) == DRAM_LIMIT - 1 - p.stubSize && DRAM_LIMIT % 4 == 0;
  }

  /** So the check protects every accepted image if and only if the size of the stub leaves the rest 0 or 3. */
  lemma StubSafeExactly(p: Program)
    requires ProgramValid(p) && p.start % 4 == 0
    ensures (forall m :: Accepted(p, m) && Overlap(p, m.loadAddr, m.memSize) > 0 ==> StubEnd(p, m) <= DRAM_LIMIT)
            <==> p.stubSize % 4 == 0 || p.stubSize % 4 == 3
  {
    hide Accepted, StubEnd, Overlap;
    if p.stubSize % 4 == 0 || p.stubSize % 4 == 3 {
      forall m | Accepted(p, m) && Overlap(p, m.loadAddr, m.memSize) > 0
        ensures StubEnd(p, m) <= DRAM_LIMIT
      {
        StubFits(p, m);
      }
    } else {
      var m := StubSticksOut(p);
    }
  }

  // ---------------------------------------------------------------------------------------------
  // The loader

  /** Every byte fed so far waits where it belongs. */
  ghost predicate Placed(m: Ram, l: Layout, data: seq<bv8>) {
    forall i: nat :: i < |data| ==> At(m, Home(l, l.imgStart + i)) == data[i]
  }

  class Loader {
    const prog: Program
    var ram: Ram
    var lay: Layout
    var meta: Meta
    var feed: nat

    /** What has been fed since the layout was chosen, and how often the host was told that work goes on. */
    ghost var data: seq<bv8>
    var beats: nat

    constructor (p: Program)
      requires ProgramValid(p)
      ensures prog == p && ram == map[]
    {
      prog, ram, lay := p, map[], Layout(0, 0, 0, 0, 0, 0, 0, 0, 0);
      meta, feed, data, beats := Meta(0, 0, 0, Word(0), 0), 0, [], 0;
    }

    ghost predicate Valid()
      reads this
    {
      && ProgramValid(prog) && LayoutGood(lay, prog) && lay.imgEnd == lay.imgStart + meta.memSize
      && feed == lay.imgStart + |data|
      && (|data| <= meta.memSize ==> Placed(ram, lay, data))
    }

    /** `platform_init_meta`, for flat binaries: which images are taken on, and where they go. */
    method InitMeta(m: Meta) returns (ok: bool)
      requires ProgramValid(prog) && m.format == 0
      modifies this
      ensures ok ==> Valid() && data == [] && meta == m && lay.imgStart == m.loadAddr
      ensures ok <==> Accepted(prog, m)
      ensures ok ==> lay.size == Overlap(prog, m.loadAddr, m.memSize) && (lay.size > 0 ==> lay.stubEnd == StubEnd(prog, m))
      ensures ram == old(ram)
    {
      if m.compression >= 2 || m.format >= 2 {
        return false;
      }
      if m.loadAddr >= DRAM_LIMIT {
        return false;
      }
      if m.loadAddr + m.memSize >= DRAM_LIMIT {
        return false;
      }
      if m.loadAddr % 4 != 0 {
        return false;
      }
      var l;
      ok, l := PlaceImage(prog, m.loadAddr, m.memSize);
      if ok {
        meta, lay, feed, data := m, l, l.imgStart, [];
      }
    }

    /** The next bytes of the image are written from `to` on, in one piece. */
    method CopyIn(to: nat, part: seq<bv8>)
      requires Valid()
      requires |data| + |part| <= meta.memSize ==> Straight(lay, feed, |part|, to)
      modifies this`ram, this`feed, this`data
      ensures Valid() && data == old(data) + part
      ensures |data| <= meta.memSize ==> Untouched(old(ram), ram, prog)
    {
      hide Write, At, Home;
      ram := Write(ram, to, part);
      if |data| + |part| <= meta.memSize {
        PlacedMore(old(ram), lay, prog, data, part, to);
      }
      feed := feed + |part|;
      data := data + part;
    }

    /**
     * `feed_impl`: the next bytes of the image go to their place, or to the buffer as far as that place is
     * taken by the loader.
     */
    method Feed(chunk: seq<bv8>)
      requires Valid()
      modifies this`ram, this`feed, this`data
      ensures Valid() && data == old(data) + chunk
      ensures |data| <= meta.memSize ==> Untouched(old(ram), ram, prog)
    {
      hide Placed, At, Straight, Untouched, LayoutGood, ProgramValid;
      var rest := chunk;
      UntouchedSame(ram, prog);
      if lay.size > 0 {
        rest := FeedOverlap(chunk);
      }
      ghost var m := ram;
      if |rest| > 0 {
        StraightPieces(lay, prog, feed, |rest|);
        CopyIn(feed, rest);
        if |data| <= meta.memSize {
          UntouchedTrans(old(ram), m, ram, prog);
        }
      }
    }

    /** The bytes before the overlap go to their place, those of the overlap to the buffer. */
    method FeedOverlap(chunk: seq<bv8>) returns (rest: seq<bv8>)
      requires Valid() && lay.size > 0
      modifies this`ram, this`feed, this`data
      ensures Valid() && data + rest == old(data) + chunk
      ensures |rest| > 0 ==> feed + |rest| <= lay.tgtStart || lay.tgtEnd <= feed
      ensures |data| <= meta.memSize ==> Untouched(old(ram), ram, prog)
    {
      hide Placed, At, Straight, Untouched, LayoutGood, ProgramValid;
      rest := chunk;
      TargetOrdered(lay, prog);
      UntouchedSame(ram, prog);
      if feed < lay.tgtStart && feed + |rest| > lay.tgtStart {
        var cnt := lay.tgtStart - feed;
        StraightPieces(lay, prog, feed, cnt);
        CopyIn(feed, rest[..cnt]);
        rest := rest[cnt..];
      }
      ghost var m1 := ram;
      assert data + rest == old(data) + chunk;
      if lay.tgtStart <= feed < lay.tgtEnd {
        var off := feed - lay.tgtStart;
        var cnt := Min(lay.tgtEnd - feed, |rest|);
        StraightPieces(lay, prog, feed, cnt);
        CopyIn(lay.bufStart + off, rest[..cnt]);
        rest := rest[cnt..];
        if |data| <= meta.memSize {
          UntouchedTrans(old(ram), m1, ram, prog);
        }
      }
    }

    /** The whole image has been fed. */
    ghost predicate Complete()
      reads this
    {
      && ProgramValid(prog) && LayoutGood(lay, prog) && lay.imgEnd == lay.imgStart + meta.memSize
      && |data| == meta.memSize && Placed(ram, lay, data)
    }

    /** `crc_with_heartbeat`: block by block, with a sign of life before each. */
    method CrcWithHeartbeat(crc: Word, from: nat, until: nat, blockSize: nat) returns (r: Word)
      requires from <= until && blockSize > 0
      modifies this`beats
      ensures r == Crc32Of(crc, Span(ram, from, until - from))
      ensures old(beats) <= beats && beats - old(beats) <= until - from && (from < until ==> old(beats) < beats)
    {
      hide Crc32Of, At;
      r := crc;
      var p := from;
      CrcNothing(crc);
      assert Span(ram, from, 0) == [];
      while p < until
        invariant from <= p <= until && r == Crc32Of(crc, Span(ram, from, p - from))
        invariant old(beats) <= beats && beats - old(beats) <= p - from && (from < p ==> old(beats) < beats)
        decreases until - p
      {
        beats := beats + 1;
        var size := Min(until - p, blockSize);
        r := Crc32(r, Span(ram, p, size));
        Crc32Concat(crc, Span(ram, from, p - from), Span(ram, p, size));
        assert Span(ram, from, p - from) + Span(ram, p, size) == Span(ram, from, p - from + size);
        p := p + size;
      }
    }

    /** `platform_load_image`, for flat binaries: the image is complete and, if it came as it is, its CRC fits. */
    method LoadImage() returns (ok: bool)
      requires Valid() && meta.format == 0 && meta.compression < 2
      modifies this`feed, this`beats
      ensures ok <==> |data| == meta.memSize && (meta.compression == 0 ==> Crc32Of(Word(0), data) == meta.crc)
      ensures ok ==> Complete()
    {
      hide LayoutGood, Placed, Crc32Of, ProgramValid;
      var end := lay.imgStart + meta.memSize;
      if feed != end {
        return false;
      }
      if meta.compression == 0 {
        var crc := CrcOfImage(end);
        ok := crc == meta.crc;
      } else {
        ok := true;
      }
    }

    /** The CRC of the image over its up to three pieces. */
    method CrcOfImage(end: nat) returns (crc: Word)
      requires Complete() && end == lay.imgEnd
      modifies this`feed, this`beats
      ensures crc == Crc32Of(Word(0), data)
    {
      hide LayoutGood, Placed, Crc32Of, ProgramValid, Straight;
      TargetIn(lay, prog);
      crc := Word(0);
      feed := lay.imgStart;
      CrcNothing(crc);
      assert data[..0] == [];
      if lay.size > 0 {
        if feed < lay.tgtStart && end > lay.tgtStart {
          crc := CrcPiece(crc, feed, lay.tgtStart - feed);
        }
        if lay.tgtStart <= feed < lay.tgtEnd {
          var off := feed - lay.tgtStart;
          var cnt := Min(lay.tgtEnd - feed, end - feed);
          crc := CrcPiece(crc, lay.bufStart + off, cnt);
        }
      }
      if feed < end {
        crc := CrcPiece(crc, feed, end - feed);
      }
      assert data[..|data|] == data;
    }

    /** One piece, wherever it waits. */
    method CrcPiece(crc: Word, at: nat, cnt: nat) returns (r: Word)
      requires Complete() && lay.imgStart <= feed && feed + cnt <= lay.imgEnd
      requires crc == Crc32Of(Word(0), data[..feed - lay.imgStart])
      requires (at == feed && (lay.size == 0 || feed + cnt <= lay.tgtStart || lay.tgtEnd <= feed))
            || (lay.size > 0 && lay.tgtStart <= feed && feed + cnt <= lay.tgtEnd && at == lay.bufStart + (feed - lay.tgtStart))
      modifies this`feed, this`beats
      ensures feed == old(feed) + cnt && r == Crc32Of(Word(0), data[..feed - lay.imgStart])
    {
      hide LayoutGood, Placed, Crc32Of, Straight, At, Home;
      var i := feed - lay.imgStart;
      StraightPieces(lay, prog, feed, cnt);
      PieceIs(ram, lay, data, i, cnt, at);
      r := CrcWithHeartbeat(crc, at, at + cnt, CRC_BLOCKSIZE);
      Crc32Concat(Word(0), data[..i], data[i..i + cnt]);
      assert data[..i] + data[i..i + cnt] == data[..i + cnt];
      feed := feed + cnt;
    }

    /** The jump: the stub is put behind the buffer, and moves the buffered part of the image to its place. */
    method Jump(stub: seq<bv8>) returns (entry: nat)
      requires Complete() && |stub| == prog.stubSize
      modifies this`ram
      ensures Span(ram, lay.imgStart, meta.memSize) == data && entry == lay.imgStart
      ensures lay.size > 0 ==> Span(ram, lay.stubStart, prog.stubSize) == stub
    {
      hide LayoutGood, Placed, Write, Span, At, ProgramValid;
      if lay.size > 0 {
        JumpIs(ram, lay, prog, data, stub);
        ram := Write(ram, lay.stubStart, stub);
        ram := Write(ram, lay.tgtStart, Span(ram, lay.bufStart, lay.size));
      } else {
        InPlace(ram, lay, data);
      }
      entry := lay.imgStart;
    }
  }

  lemma TargetOrdered(l: Layout, p: Program)
    requires LayoutGood(l, p) && l.size > 0
    ensures l.tgtStart <= l.tgtEnd
  {
  }

  /** The running loader is as it was. */
  ghost predicate Untouched(m: Ram, m': Ram, p: Program) {
    forall a :: p.start <= a < p.end ==> At(m', a) == At(m, a)
  }

  lemma UntouchedTrans(m0: Ram, m1: Ram, m2: Ram, p: Program)
    requires Untouched(m0, m1, p) && Untouched(m1, m2, p)
    ensures Untouched(m0, m2, p)
  {
    hide At;
  }

  lemma UntouchedSame(m: Ram, p: Program)
    ensures Untouched(m, m, p)
  {
  }

  /** The next `n` bytes from `a` on wait in one piece from `to` on. */
  ghost predicate Straight(l: Layout, a: nat, n: nat, to: nat) {
    forall x: nat :: a <= x < a + n ==> Home(l, x) == to + (x - a)
  }

  lemma StraightPieces(l: Layout, p: Program, a: nat, n: nat)
    requires LayoutGood(l, p)
    ensures l.size == 0 || a + n <= l.tgtStart || l.tgtEnd <= a ==> Straight(l, a, n, a)
    ensures l.size > 0 && l.tgtStart <= a && a + n <= l.tgtEnd ==> Straight(l, a, n, l.bufStart + (a - l.tgtStart))
  {
  }

  lemma PlacedMore(m: Ram, l: Layout, p: Program, data: seq<bv8>, part: seq<bv8>, to: nat)
    requires LayoutGood(l, p) && Placed(m, l, data) && l.imgStart + |data| + |part| <= l.imgEnd
    requires Straight(l, l.imgStart + |data|, |part|, to)
    ensures Placed(Write(m, to, part), l, data + part)
    ensures Untouched(m, Write(m, to, part), p)
  {
    hide Write, At, Home;
    var n := |data|;
    forall i: nat | i < n + |part|
      ensures At(Write(m, to, part), Home(l, l.imgStart + i)) == (data + part)[i]
    {
      PlacedByte(m, l, p, data, part, to, i);
    }
    forall a | p.start <= a < p.end
      ensures At(Write(m, to, part), a) == At(m, a)
    {
      if to <= a < to + |part| {
        var x := l.imgStart + n + (a - to);
        assert Home(l, x) == a;
        NothingCollides(l, p, x, x);
      }
    }
  }

  lemma PlacedByte(m: Ram, l: Layout, p: Program, data: seq<bv8>, part: seq<bv8>, to: nat, i: nat)
    requires LayoutGood(l, p) && Placed(m, l, data) && l.imgStart + |data| + |part| <= l.imgEnd
    requires Straight(l, l.imgStart + |data|, |part|, to) && i < |data| + |part|
    ensures At(Write(m, to, part), Home(l, l.imgStart + i)) == (data + part)[i]
  {
    hide At, Home;
    var n, h := |data|, Home(l, l.imgStart + i);
    if i < n {
      if to <= h < to + |part| {
        var x := l.imgStart + n + (h - to);
        assert Home(l, x) == h;
        NothingCollides(l, p, l.imgStart + i, x);
      }
    } else {
      assert h == to + (i - n);
    }
  }

  lemma CrcNothing(crc: Word)
    ensures Crc32Of(crc, []) == crc
  {
    hide Bits;
    NotNot(crc);
  }

  lemma TargetIn(l: Layout, p: Program)
    requires LayoutGood(l, p) && ProgramValid(p)
    ensures l.imgStart <= l.imgEnd && (l.size > 0 ==> l.imgStart <= l.tgtStart < l.tgtEnd <= l.imgEnd)
  {
  }

  lemma PieceIs(m: Ram, l: Layout, data: seq<bv8>, i: nat, n: nat, to: nat)
    requires Placed(m, l, data) && i + n <= |data| && Straight(l, l.imgStart + i, n, to)
    ensures Span(m, to, n) == data[i..i + n]
  {
    hide At, Home;
    forall k: nat | i <= k < i + n
      ensures Span(m, to, n)[k - i] == data[k]
    {
      assert Home(l, l.imgStart + k) == to + (k - i);
    }
  }

  lemma JumpIs(m: Ram, l: Layout, p: Program, data: seq<bv8>, stub: seq<bv8>)
    requires LayoutGood(l, p) && l.size > 0 && Placed(m, l, data) && l.imgStart + |data| == l.imgEnd
    requires |stub| == p.stubSize
    ensures var m1 := Write(m, l.stubStart, stub);
            var m2 := Write(m1, l.tgtStart, Span(m1, l.bufStart, l.size));
            Span(m2, l.imgStart, |data|) == data && Span(m2, l.stubStart, p.stubSize) == stub
  {
    hide Write, At, Span;
    var m1 := Write(m, l.stubStart, stub);
    var m2 := Write(m1, l.tgtStart, Span(m1, l.bufStart, l.size));
    forall i: nat | i < |data|
      ensures Span(m2, l.imgStart, |data|)[i] == data[i]
    {
      JumpByte(m, l, p, data, stub, i);
    }
  }

  lemma InPlace(m: Ram, l: Layout, data: seq<bv8>)
    requires l.size == 0 && Placed(m, l, data)
    ensures Span(m, l.imgStart, |data|) == data
  {
    hide At;
    forall i: nat | i < |data|
      ensures Span(m, l.imgStart, |data|)[i] == data[i]
    {
      assert Home(l, l.imgStart + i) == l.imgStart + i;
    }
  }

  lemma JumpByte(m: Ram, l: Layout, p: Program, data: seq<bv8>, stub: seq<bv8>, i: nat)
    requires LayoutGood(l, p) && l.size > 0 && Placed(m, l, data) && l.imgStart + |data| == l.imgEnd && i < |data|
    requires |stub| == p.stubSize
    ensures var m1 := Write(m, l.stubStart, stub);
            At(Write(m1, l.tgtStart, Span(m1, l.bufStart, l.size)), l.imgStart + i) == data[i]
  {
    hide Write, At, Span;
    var a := l.imgStart + i;
    NothingCollides(l, p, a, a);
    assert At(m, Home(l, a)) == data[i];
  }
}
