/** Byte-addressed memory, as the DMA engine and the boot loader see it. */
module Memory {

  type byte = x: int | 0 <= x < 256

  /** A memory image.  Addresses that were never written read as zero. */
  type Mem = map<int, byte>

  function Get(m: Mem, a: int): byte {
    if a in m then m[a] else 0
  }

  function Put(m: Mem, a: int, v: byte): Mem {
    m[a := v]
  }

  lemma PutReads(m: Mem, a: int, v: byte)
    ensures Get(Put(m, a, v), a) == v
    ensures forall x :: x != a ==> Get(Put(m, a, v), x) == Get(m, x)
  {
  }

  /** The little-endian 32-bit word stored at `a`. */
  function Word(m: Mem, a: int): (w: int)
    ensures 0 <= w < 0x1_0000_0000
  {
    Get(m, a) + 0x100 * Get(m, a + 1) + 0x1_0000 * Get(m, a + 2) + 0x100_0000 * Get(m, a + 3)
  }

  function ByteOf(w: int, j: int): byte
    requires 0 <= j < 4
  {
    if j == 0 then w % 0x100
    else if j == 1 then w / 0x100 % 0x100
    else if j == 2 then w / 0x1_0000 % 0x100
    else w / 0x100_0000 % 0x100
  }

  function PutWord(m: Mem, a: int, w: int): Mem {
    Put(Put(Put(Put(m, a, ByteOf(w, 0)), a + 1, ByteOf(w, 1)), a + 2, ByteOf(w, 2)), a + 3, ByteOf(w, 3))
  }

  lemma WordOfBytes(w: int)
    requires 0 <= w < 0x1_0000_0000
    ensures w == ByteOf(w, 0) + 0x100 * ByteOf(w, 1) + 0x1_0000 * ByteOf(w, 2) + 0x100_0000 * ByteOf(w, 3)
  {
    assert w / 0x1_0000 == w / 0x100 / 0x100;
    assert w / 0x100_0000 == w / 0x1_0000 / 0x100;
  }

  /** A stored word reads back, and nothing else moves. */
  lemma PutWordReads(m: Mem, a: int, w: int)
    requires 0 <= w < 0x1_0000_0000
    ensures Word(PutWord(m, a, w), a) == w
    ensures forall j :: 0 <= j < 4 ==> Get(PutWord(m, a, w), a + j) == ByteOf(w, j)
    ensures forall x :: !(a <= x < a + 4) ==> Get(PutWord(m, a, w), x) == Get(m, x)
  {
    WordOfBytes(w);
  }

  /** The `n` bytes at `a`, lowest address first. */
  function Bytes(m: Mem, a: int, n: nat): (s: seq<byte>)
    ensures |s| == n
    ensures forall i :: 0 <= i < n ==> s[i] == Get(m, a + i)
  {
    seq<byte>(n, i => Get(m, a + i))
  }

  function PutBytes(m: Mem, a: int, s: seq<byte>): (r: Mem)
    ensures forall x :: Get(r, x) == if a <= x < a + |s| then s[x - a] else Get(m, x)
  {
    m + map x | a <= x < a + |s| :: Elem(s, a, x)
  }

  /** The element of `s` that lands on address `x` when `s` is laid out from `a`. */
  function Elem(s: seq<byte>, a: int, x: int): byte
    requires a <= x < a + |s|
  {
    s[x - a]
  }
}
