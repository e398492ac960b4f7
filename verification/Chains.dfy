/**
 Control-block chains as self-modifying code: block templates, single steps, and the three ways in
 which the arithmetic chains walk their lookup tables.
 */
module Chains {
  import opened Memory
  import opened DmaMachine

  /**
   A block of a chain.  All of its words are fixed, except that SRC byte `j` is whatever an earlier
   block of the chain left there when `open<j>` is set.
   */
  datatype Block = Block(ti: int, src: int, dst: int, len: int, stride: int, next: int,
                         open0: bool, open1: bool, open2: bool)

  /** Address of block `k` of the chain at `p`. */
  function Blk(p: int, k: int): int {
    p + 32 * k
  }

  /** Address of byte `j` of the SRC field of block `k`. */
  function SrcAt(p: int, k: int, j: int): int {
    Blk(p, k) + 4 + j
  }

  predicate Matches(m: Mem, a: int, b: Block) {
    && Word(m, a) == b.ti && Word(m, a + 8) == b.dst && Word(m, a + 12) == b.len
    && Word(m, a + 16) == b.stride && Word(m, a + 20) == b.next
    && (b.open0 || Get(m, a + 4) == ByteOf(b.src, 0))
    && (b.open1 || Get(m, a + 5) == ByteOf(b.src, 1))
    && (b.open2 || Get(m, a + 6) == ByteOf(b.src, 2))
    && Get(m, a + 7) == ByteOf(b.src, 3)
  }

  ghost predicate Code(m: Mem, p: int, bs: seq<Block>) {
    forall k :: 0 <= k < |bs| ==> Matches(m, Blk(p, k), bs[k])
  }

  /** `a` is an open SRC byte of the chain. */
  predicate Open(p: int, bs: seq<Block>, a: int) {
    && p <= a < p + 32 * |bs|
    && OpenByte(bs[(a - p) / 32], (a - p) % 32)
  }

  predicate InCode(p: int, n: int, a: int) {
    p <= a < p + 32 * n
  }

  /** Two memories agree on everything in the chain that is not open. */
  ghost predicate SameCode(m: Mem, m': Mem, p: int, bs: seq<Block>) {
    forall a :: InCode(p, |bs|, a) && !Open(p, bs, a) ==> Get(m', a) == Get(m, a)
  }

  predicate OpenByte(b: Block, j: int) {
    (j == 4 && b.open0) || (j == 5 && b.open1) || (j == 6 && b.open2)
  }

  lemma SameByte(m: Mem, m': Mem, p: int, bs: seq<Block>, k: int, j: int)
    requires SameCode(m, m', p, bs)
    requires 0 <= k < |bs| && 0 <= j < 32 && !OpenByte(bs[k], j)
    ensures Get(m', Blk(p, k) + j) == Get(m, Blk(p, k) + j)
  {
    var a := Blk(p, k) + j;
    assert (a - p) / 32 == k && (a - p) % 32 == j;
    assert InCode(p, |bs|, a) && !Open(p, bs, a);
  }

  lemma SameWord(m: Mem, m': Mem, p: int, bs: seq<Block>, k: int, j: int)
    requires SameCode(m, m', p, bs)
    requires 0 <= k < |bs| && (j == 0 || 8 <= j <= 28)
    ensures Word(m', Blk(p, k) + j) == Word(m, Blk(p, k) + j)
  {
    SameByte(m, m', p, bs, k, j);
    SameByte(m, m', p, bs, k, j + 1);
    SameByte(m, m', p, bs, k, j + 2);
    SameByte(m, m', p, bs, k, j + 3);
  }

  lemma BlockFrame(m: Mem, m': Mem, p: int, bs: seq<Block>, k: int)
    requires SameCode(m, m', p, bs) && 0 <= k < |bs| && Matches(m, Blk(p, k), bs[k])
    ensures Matches(m', Blk(p, k), bs[k])
  {
    hide SameCode, Word, Get, ByteOf, Blk;
    var b := bs[k];
    SameWord(m, m', p, bs, k, 0);
    SameWord(m, m', p, bs, k, 8);
    SameWord(m, m', p, bs, k, 12);
    SameWord(m, m', p, bs, k, 16);
    SameWord(m, m', p, bs, k, 20);
    if !b.open0 { SameByte(m, m', p, bs, k, 4); }
    if !b.open1 { SameByte(m, m', p, bs, k, 5); }
    if !b.open2 { SameByte(m, m', p, bs, k, 6); }
    SameByte(m, m', p, bs, k, 7);
  }

  lemma CodeFrame(m: Mem, m': Mem, p: int, bs: seq<Block>)
    requires Code(m, p, bs) && SameCode(m, m', p, bs)
    ensures Code(m', p, bs)
  {
    hide SameCode, Matches, Blk;
    forall k | 0 <= k < |bs| ensures Matches(m', Blk(p, k), bs[k]) {
      BlockFrame(m, m', p, bs, k);
    }
  }

  // ---------------------------------------------------------------------------------------------
  // Single blocks

  lemma StepCopy(s: State, b: Block)
    requires s.cb != 0 && Matches(s.mem, s.cb, b)
    requires b.ti == TI_COPY && 0 <= b.len < 0x4000_0000
    ensures Step(s) == State(Row(s.mem, b.dst, Word(s.mem, s.cb + 4), b.len, true, true), b.next)
  {
    hide Row;
    hide Grid;
  }

  /** A scatter: one byte per row, rows `pitch` bytes apart in the destination. */
  lemma StepScatter(s: State, b: Block, rows: int, pitch: int)
    requires s.cb != 0 && Matches(s.mem, s.cb, b) && !b.open0 && !b.open1 && !b.open2
    requires 0 <= b.src < 0x1_0000_0000
    requires b.ti == TI_COPY_2D && 1 <= rows <= 0x4000 && b.len == (rows - 1) * 0x1_0000 + 1
    requires 1 <= pitch <= 0x8000 && b.stride == (pitch - 1) * 0x1_0000
    ensures Step(s) == State(Grid(s.mem, b.dst, b.src, rows, 1, pitch, 1, true, true), b.next)
  {
    hide Row;
    hide Grid;
    WordOfBytes(b.src);
    assert Word(s.mem, s.cb + 4) == b.src;
  }

  function Slot(dst: int, pitch: int, i: int): int {
    dst + pitch * i
  }

  lemma OffGrid(dst: int, pitch: int, i: int, a: int)
    requires pitch == 32 || pitch == 64
    requires (a - dst) % pitch != 0
    ensures a != Slot(dst, pitch, i)
  {
    if pitch == 32 {
    } else {
    }
  }

  lemma {:induction false} ScatterSpec(m: Mem, dst: int, src: int, n: nat, pitch: int)
    requires pitch == 32 || pitch == 64
    requires src + n <= dst || Slot(dst, pitch, n - 1) < src
    ensures var g := Grid(m, dst, src, n, 1, pitch, 1, true, true);
            && (forall i :: 0 <= i < n ==> Get(g, Slot(dst, pitch, i)) == Get(m, src + i))
            && (forall a :: a < dst || Slot(dst, pitch, n - 1) < a || (a - dst) % pitch != 0 ==> Get(g, a) == Get(m, a))
  {
    hide Put, Get, Grid;
    if n == 0 {
      NoRows(m, dst, src, pitch);
    } else {
      ScatterSpec(m, dst, src, n - 1, pitch);
      var g' := Grid(m, dst, src, n - 1, 1, pitch, 1, true, true);
      var g := Grid(m, dst, src, n, 1, pitch, 1, true, true);
      var d, x := Slot(dst, pitch, n - 1), src + n - 1;
      NextRow(m, dst, src, n, pitch);
      PutReads(g', d, Get(g', x));
      forall i | 0 <= i < n
        ensures Get(g, Slot(dst, pitch, i)) == Get(m, src + i)
      {
        if i < n - 1 {
          assert Slot(dst, pitch, i) != d;
        }
      }
      forall a | a < dst || d < a || (a - dst) % pitch != 0
        ensures Get(g, a) == Get(m, a)
      {
        if (a - dst) % pitch != 0 {
          OffGrid(dst, pitch, n - 1, a);
        }
      }
    }
  }

  lemma NoRows(m: Mem, dst: int, src: int, pitch: int)
    ensures Grid(m, dst, src, 0, 1, pitch, 1, true, true) == m
  {
  }

  lemma NextRow(m: Mem, dst: int, src: int, n: nat, pitch: int)
    requires n > 0
    ensures var g' := Grid(m, dst, src, n - 1, 1, pitch, 1, true, true);
            Grid(m, dst, src, n, 1, pitch, 1, true, true) == Put(g', Slot(dst, pitch, n - 1), Get(g', src + n - 1))
  {
    var g' := Grid(m, dst, src, n - 1, 1, pitch, 1, true, true);
    assert Row(g', Slot(dst, pitch, n - 1), src + n - 1, 0, true, true) == g';
  }
}
