/** Control-block emission: the emit context, and the memory it writes chains into. */
module Emit {
  import opened Memory
  import opened DmaMachine
  import opened Chains
  import opened Walks
  import opened Scatter

  /** The memory that the processor and the DMA engine share. */
  class Ram {
    var cells: Mem

    constructor ()
      ensures cells == map[]
    {
      cells := map[];
    }

    method Store(a: int, v: byte)
      modifies this
      ensures cells == Put(old(cells), a, v)
    {
      cells := Put(cells, a, v);
    }

    /** A 32-bit field. */
    method StoreWord(a: int, w: int)
      modifies this
      ensures cells == PutWord(old(cells), a, w)
    {
      Store(a, ByteOf(w, 0));
      Store(a + 1, ByteOf(w, 1));
      Store(a + 2, ByteOf(w, 2));
      Store(a + 3, ByteOf(w, 3));
    }

    /** `memset` with zero. */
    method Clear(a: int, n: nat)
      modifies this
      ensures cells == Cleared(old(cells), a, n)
    {
      var i := 0;
      while i < n
        invariant i <= n && cells == Cleared(old(cells), a, i)
      {
        Store(a + i, 0);
        i := i + 1;
      }
    }
  }

  function Cleared(m: Mem, a: int, n: nat): Mem {
    if n == 0 then m else Put(Cleared(m, a, n - 1), a + n - 1, 0)
  }

  // ---------------------------------------------------------------------------------------------
  // Blocks in memory

  /** The eight words of a block; the two words behind `next_cb` are cleared. */
  function PutBlock(m: Mem, a: int, b: Block): Mem {
    var m1 := PutWord(PutWord(m, a + 28, 0), a + 24, 0);
    var m2 := PutWord(PutWord(PutWord(m1, a, b.ti), a + 8, b.dst), a + 4, b.src);
    PutWord(PutWord(PutWord(m2, a + 12, b.len), a + 16, b.stride), a + 20, b.next)
  }

  function PutBlocks(m: Mem, p: int, bs: seq<Block>): Mem {
    if bs == [] then m
    else PutBlock(PutBlocks(m, p, bs[..|bs| - 1]), Blk(p, |bs| - 1), bs[|bs| - 1])
  }

  predicate IsWord(x: int) {
    0 <= x < 0x1_0000_0000
  }

  predicate Encodable(b: Block) {
    IsWord(b.ti) && IsWord(b.src) && IsWord(b.dst) && IsWord(b.len) && IsWord(b.stride) && IsWord(b.next)
  }

  lemma PutBlockReads(m: Mem, a: int, b: Block)
    requires Encodable(b)
    ensures Matches(PutBlock(m, a, b), a, b)
    ensures forall x :: !(a <= x < a + 32) ==> Get(PutBlock(m, a, b), x) == Get(m, x)
  {
    hide PutWord, Get, ByteOf;
    var m1 := PutWord(PutWord(m, a + 28, 0), a + 24, 0);
    var m2 := PutWord(m1, a, b.ti);
    var m3 := PutWord(m2, a + 8, b.dst);
    var m4 := PutWord(m3, a + 4, b.src);
    var m5 := PutWord(m4, a + 12, b.len);
    var m6 := PutWord(m5, a + 16, b.stride);
    PutWordReads(m, a + 28, 0);
    PutWordReads(PutWord(m, a + 28, 0), a + 24, 0);
    PutWordReads(m1, a, b.ti);
    PutWordReads(m2, a + 8, b.dst);
    PutWordReads(m3, a + 4, b.src);
    PutWordReads(m4, a + 12, b.len);
    PutWordReads(m5, a + 16, b.stride);
    PutWordReads(m6, a + 20, b.next);
    assert Get(m4, a + 4 + 0) == ByteOf(b.src, 0) && Get(m4, a + 4 + 1) == ByteOf(b.src, 1)
           && Get(m4, a + 4 + 2) == ByteOf(b.src, 2) && Get(m4, a + 4 + 3) == ByteOf(b.src, 3);
  }

  /** Behind an emission the engine loads `c` at `a`, and no byte outside that block moved. */
  ghost predicate BlockAt(m: Mem, m': Mem, a: int, c: Cblk) {
    Load(m', a) == c && SameOutside(m, m', a, a + 32)
  }

  ghost predicate SameOutside(m: Mem, m': Mem, lo: int, hi: int) {
    forall x :: !(lo <= x < hi) ==> Get(m', x) == Get(m, x)
  }

  predicate CblkFits(c: Cblk) {
    IsWord(c.ti) && IsWord(c.src) && IsWord(c.dst) && IsWord(c.len) && IsWord(c.stride) && IsWord(c.next)
  }

  lemma PutBlockLoads(m: Mem, a: int, b: Block)
    requires Encodable(b)
    ensures BlockAt(m, PutBlock(m, a, b), a, Cblk(b.ti, b.src, b.dst, b.len, b.stride, b.next))
  {
    hide PutWord, Get, ByteOf, Word;
    var m2 := PutWord(PutWord(PutWord(m, a + 28, 0), a + 24, 0), a, b.ti);
    var m4 := PutWord(PutWord(m2, a + 8, b.dst), a + 4, b.src);
    var m5 := PutWord(m4, a + 12, b.len);
    var m6 := PutWord(m5, a + 16, b.stride);
    PutWordReads(m4, a + 12, b.len);
    KeepsWord(m, a + 28, 0, a);
    KeepsWord(PutWord(m, a + 28, 0), a + 24, 0, a);
    KeepsWord(PutWord(PutWord(m, a + 28, 0), a + 24, 0), a, b.ti, a);
    KeepsWord(m2, a + 8, b.dst, a);
    KeepsWord(PutWord(m2, a + 8, b.dst), a + 4, b.src, a);
    KeepsWord(m4, a + 12, b.len, a);
    KeepsWord(m5, a + 16, b.stride, a);
    KeepsWord(m6, a + 20, b.next, a);
  }

  /** What storing one word does to the words of the block around it. */
  lemma KeepsWord(m: Mem, a: int, w: int, lo: int)
    requires IsWord(w) && lo <= a <= lo + 28
    ensures Word(PutWord(m, a, w), a) == w
    ensures forall x :: x + 4 <= a || a + 4 <= x ==> Word(PutWord(m, a, w), x) == Word(m, x)
    ensures SameOutside(m, PutWord(m, a, w), lo, lo + 32)
  {
    PutWordReads(m, a, w);
    hide PutWord, Get, ByteOf;
  }

  /** Clearing a block and then storing its fields leaves the block. */
  lemma ClearThenStore(m: Mem, a: int, b: Block)
    ensures var m1 := PutWord(PutWord(PutWord(Cleared(m, a, 32), a, b.ti), a + 8, b.dst), a + 4, b.src);
            var m2 := PutWord(PutWord(m1, a + 12, b.len), a + 16, b.stride);
            PutWord(m2, a + 20, b.next) == PutBlock(m, a, b)
  {
    hide PutWord, Cleared;
    var m1 := PutWord(PutWord(PutWord(Cleared(m, a, 32), a, b.ti), a + 8, b.dst), a + 4, b.src);
    var m2 := PutWord(PutWord(m1, a + 12, b.len), a + 16, b.stride);
    var l, r := PutWord(m2, a + 20, b.next), PutBlock(m, a, b);
    forall x
      ensures x in l <==> x in r
      ensures x in l ==> l[x] == r[x]
    {
      SameCell(m, a, b, x);
    }
  }

  /** And where all fields are words, the engine loads them there. */
  lemma StoredLoads(m: Mem, a: int, b: Block)
    ensures var m1 := PutWord(PutWord(PutWord(Cleared(m, a, 32), a, b.ti), a + 8, b.dst), a + 4, b.src);
            var m2 := PutWord(PutWord(m1, a + 12, b.len), a + 16, b.stride);
            PutWord(m2, a + 20, b.next) == PutBlock(m, a, b)
    ensures var c := Cblk(b.ti, b.src, b.dst, b.len, b.stride, b.next);
            CblkFits(c) ==> BlockAt(m, PutBlock(m, a, b), a, c)
  {
    hide PutWord, Cleared, PutBlock, BlockAt;
    ClearThenStore(m, a, b);
    if Encodable(b) {
      PutBlockLoads(m, a, b);
    }
  }

  lemma SameCell(m: Mem, a: int, b: Block, x: int)
    ensures var m1 := PutWord(PutWord(PutWord(Cleared(m, a, 32), a, b.ti), a + 8, b.dst), a + 4, b.src);
            var m2 := PutWord(PutWord(m1, a + 12, b.len), a + 16, b.stride);
            var l, r := PutWord(m2, a + 20, b.next), PutBlock(m, a, b);
            (x in l <==> x in r) && (x in l ==> l[x] == r[x])
  {
    hide PutWord, Cleared, ByteOf;
    var m0 := Cleared(m, a, 32);
    var m1 := PutWord(m0, a, b.ti);
    var m2 := PutWord(m1, a + 8, b.dst);
    var m3 := PutWord(m2, a + 4, b.src);
    var m4 := PutWord(m3, a + 12, b.len);
    var m5 := PutWord(m4, a + 16, b.stride);
    ClearedCell(m, a, 32, x);
    WordCell(m0, a, b.ti, x);
    WordCell(m1, a + 8, b.dst, x);
    WordCell(m2, a + 4, b.src, x);
    WordCell(m3, a + 12, b.len, x);
    WordCell(m4, a + 16, b.stride, x);
    WordCell(m5, a + 20, b.next, x);
    var n0 := PutWord(m, a + 28, 0);
    var n1 := PutWord(n0, a + 24, 0);
    var n2 := PutWord(n1, a, b.ti);
    var n3 := PutWord(n2, a + 8, b.dst);
    var n4 := PutWord(n3, a + 4, b.src);
    var n5 := PutWord(n4, a + 12, b.len);
    var n6 := PutWord(n5, a + 16, b.stride);
    WordCell(m, a + 28, 0, x);
    WordCell(n0, a + 24, 0, x);
    WordCell(n1, a, b.ti, x);
    WordCell(n2, a + 8, b.dst, x);
    WordCell(n3, a + 4, b.src, x);
    WordCell(n4, a + 12, b.len, x);
    WordCell(n5, a + 16, b.stride, x);
    WordCell(n6, a + 20, b.next, x);
    if a + 24 <= x < a + 28 {
      ZeroBytes(x - (a + 24));
    } else if a + 28 <= x < a + 32 {
      ZeroBytes(x - (a + 28));
    }
  }

  lemma ZeroBytes(j: int)
    requires 0 <= j < 4
    ensures ByteOf(0, j) == 0
  {
  }

  lemma WordCell(m: Mem, a: int, w: int, x: int)
    ensures x in PutWord(m, a, w) <==> x in m || a <= x < a + 4
    ensures x in PutWord(m, a, w) ==> PutWord(m, a, w)[x] == if a <= x < a + 4 then ByteOf(w, x - a) else m[x]
  {
    hide ByteOf;
  }

  lemma {:induction false} ClearedCell(m: Mem, a: int, n: nat, x: int)
    ensures x in Cleared(m, a, n) <==> x in m || a <= x < a + n
    ensures x in Cleared(m, a, n) ==> Cleared(m, a, n)[x] == if a <= x < a + n then 0 else m[x]
  {
    if n > 0 {
      ClearedCell(m, a, n - 1, x);
    }
  }

  ghost predicate AllEncodable(bs: seq<Block>) {
    forall k :: 0 <= k < |bs| ==> Encodable(bs[k])
  }

  /** Emitted blocks are code, and nothing outside them moved. */
  lemma {:induction false} PutBlocksIsCode(m: Mem, p: int, bs: seq<Block>)
    requires AllEncodable(bs)
    ensures Code(PutBlocks(m, p, bs), p, bs)
    ensures forall x :: !InCode(p, |bs|, x) ==> Get(PutBlocks(m, p, bs), x) == Get(m, x)
    decreases |bs|
  {
    hide PutBlock, Matches, Get;
    if bs != [] {
      var n := |bs| - 1;
      var front, b := bs[..n], bs[n];
      PutBlocksIsCode(m, p, front);
      var m1 := PutBlocks(m, p, front);
      PutBlockReads(m1, Blk(p, n), b);
      var m2 := PutBlock(m1, Blk(p, n), b);
      assert SameCode(m1, m2, p, front);
      CodeFrame(m1, m2, p, front);
      forall k | 0 <= k < |bs| ensures Matches(m2, Blk(p, k), bs[k]) {
        if k < n {
          assert front[k] == bs[k];
          assert Matches(m2, Blk(p, k), front[k]);
        }
      }
    }
  }

  lemma PutBlocksNext(m: Mem, p: int, bs: seq<Block>, k: nat)
    requires k < |bs|
    ensures PutBlocks(m, p, bs[..k + 1]) == PutBlock(PutBlocks(m, p, bs[..k]), Blk(p, k), bs[k])
  {
    hide PutBlock;
    assert bs[..k + 1][..k] == bs[..k];
  }

  /** Overwriting `next_cb` is emitting the block with another successor. */
  lemma Rebranch(m: Mem, a: int, b: Block, target: int)
    ensures PutWord(PutBlock(m, a, b), a + 20, target) == PutBlock(m, a, b.(next := target))
  {
    var m2 := PutWord(PutWord(PutWord(PutWord(PutWord(m, a + 28, 0), a + 24, 0), a, b.ti), a + 8, b.dst), a + 4, b.src);
    OverwriteWord(PutWord(PutWord(m2, a + 12, b.len), a + 16, b.stride), a + 20, b.next, target);
    hide PutWord;
  }

  lemma OverwriteWord(m: Mem, a: int, v: int, w: int)
    ensures PutWord(PutWord(m, a, v), a, w) == PutWord(m, a, w)
  {
    hide ByteOf;
  }

  function Retarget(bs: seq<Block>, target: int): seq<Block>
    requires bs != []
  {
    bs[|bs| - 1 := bs[|bs| - 1].(next := target)]
  }

  lemma RebranchLast(m: Mem, p: int, bs: seq<Block>, target: int)
    requires bs != []
    ensures PutWord(PutBlocks(m, p, bs), Blk(p, |bs| - 1) + 20, target) == PutBlocks(m, p, Retarget(bs, target))
  {
    hide PutBlock, PutWord;
    var n := |bs| - 1;
    Rebranch(PutBlocks(m, p, bs[..n]), Blk(p, n), bs[n], target);
    assert Retarget(bs, target)[..n] == bs[..n];
  }

  // ---------------------------------------------------------------------------------------------
  // The emit context

  class EmitCtx {
    const ram: Ram
    const base: int
    const cap: nat
    var p: int

    predicate Valid()
      reads this
    {
      base > 0 && base % 32 == 0 && base <= p <= base + 32 * cap && (p - base) % 32 == 0
    }

    /** Room for `n` more blocks; without it the emitters panic. */
    predicate Room(n: int)
      reads this
    {
      p + 32 * n <= base + 32 * cap
    }

    constructor (ram: Ram, base: int, cap: nat)
      requires base > 0 && base % 32 == 0
      ensures Valid() && this.ram == ram && this.base == base && this.cap == cap && p == base
    {
      this.ram, this.base, this.cap, this.p := ram, base, cap, base;
    }

    /** Appends the block with these words, linked to the block that will follow it. */
    method EmitWith(flags: int, dst: int, src: int, len: int)
      requires Valid() && Room(1)
      modifies this, ram
      ensures Valid() && p == old(p) + 32
      ensures ram.cells == PutBlock(old(ram.cells), old(p), Block(flags, src, dst, len, 0, p, false, false, false))
      ensures var c := Cblk(flags, src, dst, len, 0, p);
              CblkFits(c) ==> BlockAt(old(ram.cells), ram.cells, old(p), c)
    {
      hide PutBlock, Cleared, PutWord;
      var cb := p;
      p := p + 32;
      ghost var m, b := ram.cells, Block(flags, src, dst, len, 0, p, false, false, false);
      ram.Clear(cb, CB_SIZE);
      ram.StoreWord(cb, flags);
      ram.StoreWord(cb + 8, dst);
      ram.StoreWord(cb + 4, src);
      ram.StoreWord(cb + 12, len);
      ram.StoreWord(cb + 20, p);
      NoStride(m, cb, b);
      if Encodable(b) {
        PutBlockLoads(m, cb, b);
      }
    }

    /** A copy: when the engine comes to it, it moves `len` bytes and goes on behind it. */
    method Emit(dst: int, src: int, len: int)
      requires Valid() && Room(1)
      modifies this, ram
      ensures Valid() && p == old(p) + 32
      ensures ram.cells == PutBlock(old(ram.cells), old(p), Block(TI_COPY, src, dst, len, 0, p, false, false, false))
      ensures IsWord(src) && IsWord(dst) && IsWord(p) && 0 <= len < 0x4000_0000 ==>
                && SameOutside(old(ram.cells), ram.cells, old(p), p)
                && Step(State(ram.cells, old(p))) == State(Row(ram.cells, dst, src, len, true, true), p)
    {
      hide PutBlock, Row;
      EmitWith(TI_COPY, dst, src, len);
    }

    /** The strides are 16-bit fields; the row field holds one less than the row count. */
    method EmitStridedWith(flags: int, dst: int, src: int, rows: int, cols: int, dstStride: int, srcStride: int)
      requires Valid() && Room(1) && Flag(flags, TI_2DMODE)
      requires 1 <= rows <= 0x4000 && 0 <= cols < 0x1_0000
      modifies this, ram
      ensures Valid() && p == old(p) + 32
      ensures ram.cells == PutBlock(old(ram.cells), old(p),
                Block(flags, src, dst, Length(rows - 1, cols), Stride(dstStride % 0x1_0000, srcStride % 0x1_0000), p, false, false, false))
      ensures var c := Cblk(flags, src, dst, Length(rows - 1, cols), Stride(dstStride % 0x1_0000, srcStride % 0x1_0000), p);
              CblkFits(c) ==> BlockAt(old(ram.cells), ram.cells, old(p), c)
    {
      hide PutBlock, Cleared, PutWord, Length, Stride, CblkFits, BlockAt;
      var cb := p;
      p := p + 32;
      var len, stride := Length(rows - 1, cols), Stride(dstStride % 0x1_0000, srcStride % 0x1_0000);
      ghost var m, b := ram.cells, Block(flags, src, dst, len, stride, p, false, false, false);
      ram.Clear(cb, CB_SIZE);
      ram.StoreWord(cb, flags);
      ram.StoreWord(cb + 8, dst);
      ram.StoreWord(cb + 4, src);
      ram.StoreWord(cb + 12, len);
      ram.StoreWord(cb + 16, stride);
      ram.StoreWord(cb + 20, p);
      StoredLoads(m, cb, b);
    }

    /** A strided copy: the engine moves `rows` rows, each start one row and the signed stride behind the last. */
    method EmitStrided(dst: int, src: int, rows: int, cols: int, dstStride: int, srcStride: int)
      requires Valid() && Room(1) && 1 <= rows <= 0x4000 && 0 <= cols < 0x1_0000
      modifies this, ram
      ensures Valid() && p == old(p) + 32
      ensures ram.cells == PutBlock(old(ram.cells), old(p),
                Block(TI_COPY_2D, src, dst, Length(rows - 1, cols), Stride(dstStride % 0x1_0000, srcStride % 0x1_0000), p, false, false, false))
      ensures IsWord(src) && IsWord(dst) && IsWord(p) && -0x8000 <= dstStride < 0x8000 && -0x8000 <= srcStride < 0x8000 ==>
                && SameOutside(old(ram.cells), ram.cells, old(p), p)
                && Step(State(ram.cells, old(p)))
                   == State(Grid(ram.cells, dst, src, rows, cols, cols + dstStride, cols + srcStride, true, true), p)
    {
      hide PutBlock, Step, Length, Stride;
      EmitStridedWith(TI_COPY_2D, dst, src, rows, cols, dstStride, srcStride);
      if IsWord(src) && IsWord(dst) && IsWord(p) && -0x8000 <= dstStride < 0x8000 && -0x8000 <= srcStride < 0x8000 {
        FieldsFit(rows, cols, dstStride, srcStride);
        StridedStep(ram.cells, old(p), src, dst, rows, cols, dstStride, srcStride, p);
      }
    }

    /** Redirects the last block: from there the engine goes on at `target`, and nothing else changes. */
    method Branch(target: int)
      requires Valid() && p > base
      modifies ram
      ensures ram.cells == PutWord(old(ram.cells), p - 32 + 20, target)
      ensures IsWord(target) ==>
                && SameOutside(old(ram.cells), ram.cells, p - 32 + 20, p - 32 + 24)
                && Load(ram.cells, p - 32) == Load(old(ram.cells), p - 32).(next := target)
                && Step(State(ram.cells, p - 32)).cb == target
    {
      hide PutWord, Transfer;
      ghost var m := ram.cells;
      ram.StoreWord(p - 32 + 20, target);
      if IsWord(target) {
        PutWordReads(m, p - 32 + 20, target);
        KeepsWord(m, p - 32 + 20, target, p - 32);
      }
    }

    /** Makes the last block halt the engine: behind it no step does anything. */
    method End()
      requires Valid() && p > base
      modifies ram
      ensures ram.cells == PutWord(old(ram.cells), p - 32 + 20, 0)
      ensures SameOutside(old(ram.cells), ram.cells, p - 32 + 20, p - 32 + 24)
      ensures var s := Step(State(ram.cells, p - 32)); s.cb == 0 && Step(s) == s
    {
      Branch(0);
    }
  }

  /** `length`: the row field and the column field. */
  function Length(rows: int, cols: int): int {
    rows * 0x1_0000 + cols
  }

  /** `stride`: the pitches added after each row. */
  function Stride(dst: int, src: int): int {
    dst * 0x1_0000 + src
  }

  lemma FieldsFit(rows: int, cols: int, dstStride: int, srcStride: int)
    requires 1 <= rows <= 0x4000 && 0 <= cols < 0x1_0000
    ensures IsWord(Length(rows - 1, cols)) && IsWord(Stride(dstStride % 0x1_0000, srcStride % 0x1_0000))
  {
  }

  /** The fields are unpacked again when the engine comes to the block. */
  lemma StridedStep(m: Mem, cb: int, src: int, dst: int, rows: int, cols: int, dstStride: int, srcStride: int, next: int)
    requires cb != 0 && 1 <= rows <= 0x4000 && 0 <= cols < 0x1_0000
    requires -0x8000 <= dstStride < 0x8000 && -0x8000 <= srcStride < 0x8000
    requires Load(m, cb) == Cblk(TI_COPY_2D, src, dst, Length(rows - 1, cols), Stride(dstStride % 0x1_0000, srcStride % 0x1_0000), next)
    ensures Step(State(m, cb)) == State(Grid(m, dst, src, rows, cols, cols + dstStride, cols + srcStride, true, true), next)
  {
    hide Grid, Load;
    var len, stride := Length(rows - 1, cols), Stride(dstStride % 0x1_0000, srcStride % 0x1_0000);
    Halves(rows - 1, cols);
    Halves(dstStride % 0x1_0000, srcStride % 0x1_0000);
    assert len / 0x1_0000 % 0x4000 + 1 == rows && len % 0x1_0000 == cols;
    SignBack(dstStride);
    SignBack(srcStride);
    assert Signed16(stride) == Signed16(srcStride);
  }

  lemma Halves(hi: int, lo: int)
    requires 0 <= lo < 0x1_0000
    ensures (hi * 0x1_0000 + lo) / 0x1_0000 == hi && (hi * 0x1_0000 + lo) % 0x1_0000 == lo
  {
  }

  lemma SignBack(x: int)
    requires -0x8000 <= x < 0x8000
    ensures Signed16(x % 0x1_0000) == x && Signed16(x) == x
  {
  }

  /** A plain block keeps the zero that clearing left in its stride. */
  lemma NoStride(m: Mem, a: int, b: Block)
    requires b.stride == 0
    ensures var m1 := PutWord(PutWord(PutWord(Cleared(m, a, 32), a, b.ti), a + 8, b.dst), a + 4, b.src);
            PutWord(PutWord(m1, a + 12, b.len), a + 20, b.next) == PutBlock(m, a, b)
  {
    hide PutWord, Cleared;
    ClearThenStore(m, a, b);
    var m1 := PutWord(PutWord(PutWord(Cleared(m, a, 32), a, b.ti), a + 8, b.dst), a + 4, b.src);
    var m2 := PutWord(m1, a + 12, b.len);
    assert PutWord(m2, a + 16, 0) == m2 by {
      forall x
        ensures x in PutWord(m2, a + 16, 0) <==> x in m2
        ensures x in m2 ==> PutWord(m2, a + 16, 0)[x] == m2[x]
      {
        ZeroStays(m, a, b, x);
      }
    }
  }

  lemma ZeroStays(m: Mem, a: int, b: Block, x: int)
    ensures var m1 := PutWord(PutWord(PutWord(Cleared(m, a, 32), a, b.ti), a + 8, b.dst), a + 4, b.src);
            var m2 := PutWord(m1, a + 12, b.len);
            (x in PutWord(m2, a + 16, 0) <==> x in m2) && (x in m2 ==> PutWord(m2, a + 16, 0)[x] == m2[x])
  {
    hide PutWord, Cleared, ByteOf;
    var m0 := Cleared(m, a, 32);
    var m1 := PutWord(m0, a, b.ti);
    var m2 := PutWord(m1, a + 8, b.dst);
    var m3 := PutWord(m2, a + 4, b.src);
    ClearedCell(m, a, 32, x);
    WordCell(m0, a, b.ti, x);
    WordCell(m1, a + 8, b.dst, x);
    WordCell(m2, a + 4, b.src, x);
    WordCell(m3, a + 12, b.len, x);
    WordCell(PutWord(m3, a + 12, b.len), a + 16, 0, x);
    if a + 16 <= x < a + 20 {
      ZeroBytes(x - (a + 16));
    }
  }

  // ---------------------------------------------------------------------------------------------
  // Appending one block of a chain

  /** The words of a block, without the marks that say which SRC bytes are open. */
  function Plain(b: Block): Block {
    b.(open0 := false, open1 := false, open2 := false)
  }

  /** Appending the block that comes next in `bs`. */
  lemma Append(m: Mem, m': Mem, p: int, bs: seq<Block>, k: nat, b: Block)
    requires k < |bs| && Plain(bs[k]) == b
    requires m' == PutBlock(PutBlocks(m, p, bs[..k]), Blk(p, k), b)
    ensures m' == PutBlocks(m, p, bs[..k + 1])
  {
    hide PutBlocks, PutWord;
    PutBlocksNext(m, p, bs, k);
  }
}
