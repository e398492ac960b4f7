/** The scatter blocks that open every chain: operand bytes move into SRC fields of later blocks. */
module Scatter {
  import opened Memory
  import opened DmaMachine
  import opened Chains
  import opened Walks

  function ScatterBlock(dst: int, src: int, rows: int, pitch: int, next: int): Block {
    Block(TI_COPY_2D, src, dst, (rows - 1) * 0x1_0000 + 1, (pitch - 1) * 0x1_0000, next, false, false, false)
  }

  /** A block that looks up with the listed SRC bytes filled in at run time. */
  function CopyBlock(dst: int, src: int, len: int, next: int, open0: bool, open1: bool, open2: bool): Block {
    Block(TI_COPY, src, dst, len, 0, next, open0, open1, open2)
  }

  /** Block index of the `k`-th row of a scatter that starts at block `c`. */
  function Idx(c: int, pitch: int, k: int): int {
    if pitch == 32 then c + k else c + 2 * k
  }

  predicate Apart(p: int, n: int, a: int, w: int) {
    a + w <= p || p + 32 * n <= a
  }

  /** Only SRC byte `j` of the chain's own blocks differs. */
  ghost predicate OnlySrcByte(m: Mem, m': Mem, p: int, n: int, j: int) {
    forall x :: !(InCode(p, n, x) && (x - p) % 32 == 4 + j) ==> Get(m', x) == Get(m, x)
  }

  ghost predicate Scattered(m: Mem, m': Mem, p: int, c: int, pitch: int, j: int, a: int, w: int) {
    forall k :: 0 <= k < w ==> Get(m', SrcAt(p, Idx(c, pitch, k), j)) == Get(m, a + k)
  }

  ghost predicate ScatterTarget(bs: seq<Block>, c: int, pitch: int, j: int, w: int) {
    forall k :: 0 <= k < w ==> 0 <= Idx(c, pitch, k) < |bs| && OpenByte(bs[Idx(c, pitch, k)], 4 + j)
  }

  lemma SlotIsSrc(p: int, c: int, pitch: int, j: int, k: int)
    requires pitch == 32 || pitch == 64
    ensures Slot(SrcAt(p, c, j), pitch, k) == SrcAt(p, Idx(c, pitch, k), j)
  {
  }

  /** A byte of the code that a scatter changes is the SRC byte of one of its rows. */
  lemma ScatterHits(p: int, bs: seq<Block>, c: nat, pitch: int, j: int, w: nat, x: int)
    requires pitch == 32 || pitch == 64
    requires 0 <= j < 3 && w >= 1 && ScatterTarget(bs, c, pitch, j, w)
    requires SrcAt(p, c, j) <= x <= SrcAt(p, Idx(c, pitch, w - 1), j) && (x - SrcAt(p, c, j)) % pitch == 0
    ensures InCode(p, |bs|, x) && (x - p) % 32 == 4 + j && Open(p, bs, x)
  {
    var k := (x - SrcAt(p, c, j)) / pitch;
    assert x == SrcAt(p, Idx(c, pitch, k), j);
    assert (x - p) / 32 == Idx(c, pitch, k);
  }

  lemma ScatterStep(s: State, p: int, bs: seq<Block>, k0: nat, c: nat, pitch: int, j: int, a: int, w: nat, next: int)
    requires p > 0 && Code(s.mem, p, bs) && k0 < |bs| && s.cb == Blk(p, k0)
    requires (pitch == 32 || pitch == 64) && 0 <= j < 3 && 1 <= w <= 0x4000 && 0 <= a < 0x1_0000_0000
    requires bs[k0] == ScatterBlock(SrcAt(p, c, j), a, w, pitch, next)
    requires ScatterTarget(bs, c, pitch, j, w) && Apart(p, |bs|, a, w)
    ensures Step(s).cb == next
    ensures SameCode(s.mem, Step(s).mem, p, bs) && OnlySrcByte(s.mem, Step(s).mem, p, |bs|, j)
    ensures Scattered(s.mem, Step(s).mem, p, c, pitch, j, a, w)
  {
    hide Step, Matches, Grid, Word, Get, Open;
    var dst := SrcAt(p, c, j);
    StepScatter(s, bs[k0], w, pitch);
    assert 0 <= Idx(c, pitch, 0) < |bs| && 0 <= Idx(c, pitch, w - 1) < |bs|;
    assert Slot(dst, pitch, w - 1) == SrcAt(p, Idx(c, pitch, w - 1), j) by { SlotIsSrc(p, c, pitch, j, w - 1); }
    ScatterSpec(s.mem, dst, a, w, pitch);
    var g := Step(s).mem;
    forall k | 0 <= k < w ensures Get(g, SrcAt(p, Idx(c, pitch, k), j)) == Get(s.mem, a + k) {
      SlotIsSrc(p, c, pitch, j, k);
    }
    forall x ensures (!(InCode(p, |bs|, x) && (x - p) % 32 == 4 + j) || !Open(p, bs, x)) ==> Get(g, x) == Get(s.mem, x) {
      if dst <= x <= Slot(dst, pitch, w - 1) && (x - dst) % pitch == 0 {
        ScatterHits(p, bs, c, pitch, j, w, x);
      }
    }
  }
}
