/** What several modules need: optional values, slices of slices, and the numbers that bytes stand for. */
module Shared {

  datatype Option<T> = None | Some(value: T)

  lemma SliceOfSlice<T>(s: seq<T>, a: nat, b: nat, i: nat, j: nat)
    requires a <= b <= |s| && i <= j <= b - a
    ensures s[a..b][i..j] == s[a + i..a + j]
  {
    var x, y := s[a..b][i..j], s[a + i..a + j];
    assert |x| == |y|;
    forall k | 0 <= k < j - i
      ensures x[k] == y[k]
    {
      assert x[k] == s[a..b][i + k] == s[a + (i + k)];
    }
  }

  // ---------------------------------------------------------------------------------------------
  // Bytes as bit-vectors and as numbers

  /** The byte with the value `k`, by counting. */
  ghost function Octet(k: nat): (b: bv8)
    requires k < 0x100
    ensures b as int == k
  {
    if k == 0 then 0 else
      var p := Octet(k - 1);
      Counted(p);
      p + 1
  }

  lemma Counted(b: bv8)
    requires b as int < 0xFF
    ensures (b + 1) as int == b as int + 1
  {
  }

  lemma ByteBack(k: nat)
    requires k < 0x100
    ensures (k as bv8) as int == k
  {
    BackByte(Octet(k));
  }

  lemma BackByte(b: bv8)
    ensures (b as int) as bv8 == b
  {
  }
}
