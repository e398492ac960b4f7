/**
 The DMA engine that the arithmetic chains run on.

 The engine loads the six words of a control block, moves the bytes the block asks for in
 ascending order, and continues at `next_cb`; it stops at address zero.
 */
module DmaMachine {
  import opened Memory

  const TI_2DMODE := 0x002
  const TI_DST_INC := 0x010
  const TI_SRC_INC := 0x100

  const TI_COPY := TI_DST_INC + TI_SRC_INC
  const TI_COPY_2D := TI_COPY + TI_2DMODE

  const CB_SIZE := 32

  datatype Cblk = Cblk(ti: int, src: int, dst: int, len: int, stride: int, next: int)

  datatype State = State(mem: Mem, cb: int)

  function Load(m: Mem, cb: int): Cblk {
    Cblk(Word(m, cb), Word(m, cb + 4), Word(m, cb + 8), Word(m, cb + 12), Word(m, cb + 16), Word(m, cb + 20))
  }

  predicate Flag(ti: int, flag: int)
    requires flag > 0
  {
    ti / flag % 2 == 1
  }

  /** A 16-bit stride field read as a signed number. */
  function Signed16(x: int): int {
    if x % 0x1_0000 >= 0x8000 then x % 0x1_0000 - 0x1_0000 else x % 0x1_0000
  }

  /**
   The first `n` bytes of a row.  Without SRC_INC the engine keeps drawing from one 128-bit beat,
   so column `c` sees byte `c % 16` of it (bcm2835/errata.txt).
   */
  function Row(m: Mem, dst: int, src: int, n: nat, dinc: bool, sinc: bool): Mem {
    if n == 0 then m
    else
      var r := Row(m, dst, src, n - 1, dinc, sinc);
      Put(r, if dinc then dst + n - 1 else dst, Get(r, if sinc then src + n - 1 else src + (n - 1) % 16))
  }

  /** The first `rows` rows of a 2D transfer; the pitches are the distances between row starts. */
  function Grid(m: Mem, dst: int, src: int, rows: nat, cols: nat, dpitch: int, spitch: int, dinc: bool, sinc: bool): Mem {
    if rows == 0 then m
    else
      var r := Grid(m, dst, src, rows - 1, cols, dpitch, spitch, dinc, sinc);
      Row(r, dst + dpitch * (rows - 1), src + spitch * (rows - 1), cols, dinc, sinc)
  }

  /** What one loaded block does to memory.  In 2D mode the row field holds one less than the row count. */
  function Transfer(m: Mem, c: Cblk): Mem
    requires 0 <= c.len
  {
    var dinc, sinc := Flag(c.ti, TI_DST_INC), Flag(c.ti, TI_SRC_INC);
    if Flag(c.ti, TI_2DMODE) then
      var rows, cols := c.len / 0x1_0000 % 0x4000 + 1, c.len % 0x1_0000;
      Grid(m, c.dst, c.src, rows, cols,
           (if dinc then cols else 0) + Signed16(c.stride / 0x1_0000),
           (if sinc then cols else 0) + Signed16(c.stride), dinc, sinc)
    else
      Row(m, c.dst, c.src, c.len % 0x4000_0000, dinc, sinc)
  }

  function Step(s: State): State {
    if s.cb == 0 then s
    else
      var c := Load(s.mem, s.cb);
      State(Transfer(s.mem, c), c.next)
  }

  function Run(s: State, n: nat): State {
    if n == 0 then s else Step(Run(s, n - 1))
  }

  /** The block addresses visited by the first `n` steps. */
  function Visits(s: State, n: nat): multiset<int> {
    if n == 0 then multiset{} else Visits(s, n - 1) + multiset{Run(s, n - 1).cb}
  }

  lemma {:induction false} RunCompose(s: State, a: nat, b: nat)
    ensures Run(s, a + b) == Run(Run(s, a), b)
    ensures Visits(s, a + b) == Visits(s, a) + Visits(Run(s, a), b)
  {
    hide Step;
    if b != 0 {
      RunCompose(s, a, b - 1);
      assert a + b - 1 == a + (b - 1);
    }
  }
}
