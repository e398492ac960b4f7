/** Worked examples: published check values, and messages byte by byte as they go over the line. */
module WireExamples {
  import Crc
  import Fcs
  import opened Frames

  /** "123456789" */
  const DIGITS: seq<bv8> := [0x31, 0x32, 0x33, 0x34, 0x35, 0x36, 0x37, 0x38, 0x39]

  lemma CrcNext(s: seq<bv8>, x: bv32, b: bv8, y: bv32)
    requires Crc.Serial(Crc.Word(0xFFFF_FFFF), s) == Crc.Word(x) && Crc.Shift8(Crc.Xor(Crc.Word(x), Crc.Wide(b))) == Crc.Word(y)
    ensures Crc.Serial(Crc.Word(0xFFFF_FFFF), s + [b]) == Crc.Word(y)
  {
    hide Crc.Bits, Crc.Shift8, Crc.Xor, Crc.Wide;
    Crc.BitsAreShift8(Crc.Word(x), b);
    assert (s + [b])[..|s|] == s;
  }

  lemma FcsNext(s: seq<bv8>, x: bv16, b: bv8, y: bv16, t: seq<bv8>)
    requires t == s + [b] && Fcs.Over(Fcs.INIT, s) == Fcs.Word(x) && Fcs.Next(Fcs.Word(x), b) == Fcs.Word(y)
    ensures Fcs.Over(Fcs.INIT, t) == Fcs.Word(y)
  {
    hide Fcs.Next;
    assert (s + [b])[..|s|] == s;
  }

  lemma CrcStep1()
    ensures Crc.Shift8(Crc.Xor(Crc.Word(0xffffffff), Crc.Wide(0x31))) == Crc.Word(0x7c231048)
  {
  }

  lemma CrcStep2()
    ensures Crc.Shift8(Crc.Xor(Crc.Word(0x7c231048), Crc.Wide(0x32))) == Crc.Word(0xb0acbb32)
  {
  }

  lemma CrcStep3()
    ensures Crc.Shift8(Crc.Xor(Crc.Word(0xb0acbb32), Crc.Wide(0x33))) == Crc.Word(0x77b79c2d)
  {
  }

  lemma CrcStep4()
    ensures Crc.Shift8(Crc.Xor(Crc.Word(0x77b79c2d), Crc.Wide(0x34))) == Crc.Word(0x641c1f5c)
  {
  }

  lemma CrcStep5()
    ensures Crc.Shift8(Crc.Xor(Crc.Word(0x641c1f5c), Crc.Wide(0x35))) == Crc.Word(0x340ac5e3)
  {
  }

  lemma CrcStep6()
    ensures Crc.Shift8(Crc.Xor(Crc.Word(0x340ac5e3), Crc.Wide(0x36))) == Crc.Word(0xf68d2c9e)
  {
  }

  lemma CrcStep7()
    ensures Crc.Shift8(Crc.Xor(Crc.Word(0xf68d2c9e), Crc.Wide(0x37))) == Crc.Word(0xaffc9660)
  {
  }

  lemma CrcStep8()
    ensures Crc.Shift8(Crc.Xor(Crc.Word(0xaffc9660), Crc.Wide(0x38))) == Crc.Word(0x651f2550)
  {
  }

  lemma CrcStep9()
    ensures Crc.Shift8(Crc.Xor(Crc.Word(0x651f2550), Crc.Wide(0x39))) == Crc.Word(0x340bc6d9)
  {
  }

  /** The check value that is published for this CRC. */
  lemma CrcCheckValue()
    ensures Crc.Crc32Of(Crc.Word(0), DIGITS) == Crc.Word(0xCBF43926)
  {
    hide Crc.Serial, Crc.Shift8, Crc.Xor, Crc.Wide;
    CrcNone();
    CrcStep1();
    CrcNext([], 0xffffffff, 0x31, 0x7c231048);
    assert [] + [0x31] == DIGITS[..1];
    CrcStep2();
    CrcNext(DIGITS[..1], 0x7c231048, 0x32, 0xb0acbb32);
    assert DIGITS[..1] + [0x32] == DIGITS[..2];
    CrcStep3();
    CrcNext(DIGITS[..2], 0xb0acbb32, 0x33, 0x77b79c2d);
    assert DIGITS[..2] + [0x33] == DIGITS[..3];
    CrcStep4();
    CrcNext(DIGITS[..3], 0x77b79c2d, 0x34, 0x641c1f5c);
    assert DIGITS[..3] + [0x34] == DIGITS[..4];
    CrcStep5();
    CrcNext(DIGITS[..4], 0x641c1f5c, 0x35, 0x340ac5e3);
    assert DIGITS[..4] + [0x35] == DIGITS[..5];
    CrcStep6();
    CrcNext(DIGITS[..5], 0x340ac5e3, 0x36, 0xf68d2c9e);
    assert DIGITS[..5] + [0x36] == DIGITS[..6];
    CrcStep7();
    CrcNext(DIGITS[..6], 0xf68d2c9e, 0x37, 0xaffc9660);
    assert DIGITS[..6] + [0x37] == DIGITS[..7];
    CrcStep8();
    CrcNext(DIGITS[..7], 0xaffc9660, 0x38, 0x651f2550);
    assert DIGITS[..7] + [0x38] == DIGITS[..8];
    CrcStep9();
    CrcNext(DIGITS[..8], 0x651f2550, 0x39, 0x340bc6d9);
    assert DIGITS[..8] + [0x39] == DIGITS[..9];
    assert DIGITS[..9] == DIGITS;
    assert Crc.Not(Crc.Word(0)) == Crc.Word(0xFFFF_FFFF) && Crc.Not(Crc.Word(0x340bc6d9)) == Crc.Word(0xCBF43926);
  }

  lemma CrcNone()
    ensures Crc.Serial(Crc.Word(0xFFFF_FFFF), []) == Crc.Word(0xFFFF_FFFF)
  {
  }

  lemma FcsNone()
    ensures Fcs.Over(Fcs.INIT, []) == Fcs.Word(0xFFFF)
  {
  }

  lemma FcsStep1()
    ensures Fcs.Next(Fcs.Word(0xffff), 0x31) == Fcs.Word(0x2f8d)
  {
  }

  lemma FcsStep2()
    ensures Fcs.Next(Fcs.Word(0x2f8d), 0x32) == Fcs.Word(0x4d53)
  {
  }

  lemma FcsStep3()
    ensures Fcs.Next(Fcs.Word(0x4d53), 0x33) == Fcs.Word(0x634b)
  {
  }

  lemma FcsStep4()
    ensures Fcs.Next(Fcs.Word(0x634b), 0x34) == Fcs.Word(0x8b13)
  {
  }

  lemma FcsStep5()
    ensures Fcs.Next(Fcs.Word(0x8b13), 0x35) == Fcs.Word(0x44bf)
  {
  }

  lemma FcsStep6()
    ensures Fcs.Next(Fcs.Word(0x44bf), 0x36) == Fcs.Word(0x198d)
  {
  }

  lemma FcsStep7()
    ensures Fcs.Next(Fcs.Word(0x198d), 0x37) == Fcs.Word(0x1ac8)
  {
  }

  lemma FcsStep8()
    ensures Fcs.Next(Fcs.Word(0x1ac8), 0x38) == Fcs.Word(0xf795)
  {
  }

  lemma FcsStep9()
    ensures Fcs.Next(Fcs.Word(0xf795), 0x39) == Fcs.Word(0x6f91)
  {
  }

  /** And for this frame check sequence. */
  lemma FcsCheckValue()
    ensures Fcs.Not(Fcs.Over(Fcs.INIT, DIGITS)) == Fcs.Word(0x906E)
  {
    hide Fcs.Over, Fcs.Next;
    FcsNone();
    FcsStep1();
    FcsNext([], 0xffff, 0x31, 0x2f8d, [0x31]);
    FcsStep2();
    FcsNext([0x31], 0x2f8d, 0x32, 0x4d53, [0x31, 0x32]);
    FcsStep3();
    FcsNext([0x31, 0x32], 0x4d53, 0x33, 0x634b, [0x31, 0x32, 0x33]);
    FcsStep4();
    FcsNext([0x31, 0x32, 0x33], 0x634b, 0x34, 0x8b13, [0x31, 0x32, 0x33, 0x34]);
    FcsStep5();
    FcsNext([0x31, 0x32, 0x33, 0x34], 0x8b13, 0x35, 0x44bf, [0x31, 0x32, 0x33, 0x34, 0x35]);
    FcsStep6();
    FcsNext([0x31, 0x32, 0x33, 0x34, 0x35], 0x44bf, 0x36, 0x198d, [0x31, 0x32, 0x33, 0x34, 0x35, 0x36]);
    FcsStep7();
    FcsNext([0x31, 0x32, 0x33, 0x34, 0x35, 0x36], 0x198d, 0x37, 0x1ac8, [0x31, 0x32, 0x33, 0x34, 0x35, 0x36, 0x37]);
    FcsStep8();
    FcsNext([0x31, 0x32, 0x33, 0x34, 0x35, 0x36, 0x37], 0x1ac8, 0x38, 0xf795, [0x31, 0x32, 0x33, 0x34, 0x35, 0x36, 0x37, 0x38]);
    FcsStep9();
    FcsNext([0x31, 0x32, 0x33, 0x34, 0x35, 0x36, 0x37, 0x38], 0xf795, 0x39, 0x6f91, [0x31, 0x32, 0x33, 0x34, 0x35, 0x36, 0x37, 0x38, 0x39]);
    assert Fcs.Not(Fcs.Word(0x6f91)) == Fcs.Word(0x906E);
  }

  lemma AckStep1()
    ensures Fcs.Next(Fcs.Word(0xffff), 0x01) == Fcs.Word(0x1e0e)
  {
  }

  lemma AckStep2()
    ensures Fcs.Next(Fcs.Word(0x1e0e), 0x02) == Fcs.Word(0xca72)
  {
  }

  /** The acknowledgement of frame 0x0201. */
  lemma AckExample()
    ensures EncodeAck(0x0201) == [0x06, 0x01, 0x02, 0x8d, 0x35, 0x04]
  {
    hide Fcs.Over, Fcs.Next;
    FcsNone();
    AckStep1();
    FcsNext([], 0xffff, 0x01, 0x1e0e, [0x01]);
    AckStep2();
    FcsNext([0x01], 0x1e0e, 0x02, 0xca72, [0x01, 0x02]);
    PutBytes(1, 2);
    TrailerIs(0xca72, 0x8d, 0x35);
  }

  lemma HeaderStep1()
    ensures Fcs.Next(Fcs.Word(0xffff), 0x02) == Fcs.Word(0x2c95)
  {
  }

  lemma HeaderStep2()
    ensures Fcs.Next(Fcs.Word(0x2c95), 0x01) == Fcs.Word(0xd281)
  {
  }

  lemma HeaderStep3()
    ensures Fcs.Next(Fcs.Word(0xd281), 0x01) == Fcs.Word(0x84da)
  {
  }

  lemma HeaderStep4()
    ensures Fcs.Next(Fcs.Word(0x84da), 0x00) == Fcs.Word(0x7953)
  {
  }

  lemma HeaderStep5()
    ensures Fcs.Next(Fcs.Word(0x7953), 0x43) == Fcs.Word(0x10f8)
  {
  }

  lemma HeaderStep6()
    ensures Fcs.Next(Fcs.Word(0x10f8), 0x48) == Fcs.Word(0xb59b)
  {
  }

  lemma HeaderStep7()
    ensures Fcs.Next(Fcs.Word(0xb59b), 0x4e) == Fcs.Word(0x8195)
  {
  }

  lemma HeaderStep8()
    ensures Fcs.Next(Fcs.Word(0x8195), 0x4b) == Fcs.Word(0x3f72)
  {
  }

  lemma HeaderExample()
    ensures var h: seq<bv8> := [0x02, 0x01, 0x01, 0x00, 0x43, 0x48, 0x4e, 0x4b]; Checked(h) == [0x02, 0x01, 0x01, 0x00, 0x43, 0x48, 0x4e, 0x4b, 0x8d, 0xc0]
  {
    hide Fcs.Over, Fcs.Next;
    FcsNone();
    HeaderStep1();
    FcsNext([], 0xffff, 0x02, 0x2c95, [0x02]);
    HeaderStep2();
    FcsNext([0x02], 0x2c95, 0x01, 0xd281, [0x02, 0x01]);
    HeaderStep3();
    FcsNext([0x02, 0x01], 0xd281, 0x01, 0x84da, [0x02, 0x01, 0x01]);
    HeaderStep4();
    FcsNext([0x02, 0x01, 0x01], 0x84da, 0x00, 0x7953, [0x02, 0x01, 0x01, 0x00]);
    HeaderStep5();
    FcsNext([0x02, 0x01, 0x01, 0x00], 0x7953, 0x43, 0x10f8, [0x02, 0x01, 0x01, 0x00, 0x43]);
    HeaderStep6();
    FcsNext([0x02, 0x01, 0x01, 0x00, 0x43], 0x10f8, 0x48, 0xb59b, [0x02, 0x01, 0x01, 0x00, 0x43, 0x48]);
    HeaderStep7();
    FcsNext([0x02, 0x01, 0x01, 0x00, 0x43, 0x48], 0xb59b, 0x4e, 0x8195, [0x02, 0x01, 0x01, 0x00, 0x43, 0x48, 0x4e]);
    HeaderStep8();
    FcsNext([0x02, 0x01, 0x01, 0x00, 0x43, 0x48, 0x4e], 0x8195, 0x4b, 0x3f72, [0x02, 0x01, 0x01, 0x00, 0x43, 0x48, 0x4e, 0x4b]);
    TrailerIs(0x3f72, 0x8d, 0xc0);
  }

  lemma TextStep1()
    ensures Fcs.Next(Fcs.Word(0xffff), 0x5a) == Fcs.Word(0xf258)
  {
  }

  lemma TextExample()
    ensures var t: seq<bv8> := [0x5a]; Checked(t) == [0x5a, 0xa7, 0x0d]
  {
    hide Fcs.Over, Fcs.Next;
    FcsNone();
    TextStep1();
    FcsNext([], 0xffff, 0x5a, 0xf258, [0x5a]);
    TrailerIs(0xf258, 0xa7, 0x0d);
  }

  lemma TrailerIs(r: bv16, lo: bv8, hi: bv8)
    requires !r == (hi as bv16 << 8) | (lo as bv16)
    ensures Fcs.Trailer(Fcs.Word(r)) == [lo, hi]
  {
  }

  lemma PutBytes(lo: nat, hi: nat)
    requires lo < 0x100 && hi < 0x100
    ensures Put16(lo + 0x100 * hi) == [lo as bv8, hi as bv8]
  {
    PutParts(lo, hi);
  }

  /** A frame of kind CHNK, number 0x0102, with the one byte 0x5A. */
  lemma FrameExample()
    ensures Encode(Frame(0x0102, [0x43, 0x48, 0x4E, 0x4B], [0x5A]))
         == [0x01, 0x02, 0x01, 0x01, 0x00, 0x43, 0x48, 0x4e, 0x4b, 0x8d, 0xc0, 0x02, 0x5a, 0xa7, 0x0d, 0x03, 0x04]
  {
    hide Checked;
    PutBytes(2, 1);
    PutBytes(1, 0);
    var f := Frame(0x0102, [0x43, 0x48, 0x4E, 0x4B], [0x5A]);
    assert Header(f) == [0x02, 0x01, 0x01, 0x00, 0x43, 0x48, 0x4e, 0x4b];
    HeaderExample();
    TextExample();
  }
}
