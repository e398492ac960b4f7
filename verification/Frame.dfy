/** Frames on the serial line: how they are sent, and how a receiver finds them again. */
module Frames {
  import opened Shared
  import opened Fcs

  const SOH: bv8 := 0x01
  const STX: bv8 := 0x02
  const ETX: bv8 := 0x03
  const EOT: bv8 := 0x04
  const ACK: bv8 := 0x06

  datatype Frame = Frame(iden: nat, kind: seq<bv8>, payload: seq<bv8>)

  predicate FrameValid(f: Frame) {
    f.iden < 0x1_0000 && |f.kind| == 4 && |f.payload| < 0x1_0000
  }

  // ---------------------------------------------------------------------------------------------
  // Numbers of two bytes, low byte first

  function Put16(x: nat): seq<bv8>
    requires x < 0x1_0000
  {
    [(x % 0x100) as bv8, (x / 0x100) as bv8]
  }

  function Get16(lo: bv8, hi: bv8): (x: nat)
    ensures x < 0x1_0000
  {
    Ranges(lo);
    Ranges(hi);
    lo as int + 0x100 * hi as int
  }

  lemma Ranges(b: bv8)
    ensures 0 <= b as int < 0x100
  {
  }

  lemma GetPut16(x: nat)
    requires x < 0x1_0000
    ensures Get16(Put16(x)[0], Put16(x)[1]) == x
  {
    ByteBack(x % 0x100);
    ByteBack(x / 0x100);
  }

  lemma PutParts(a: nat, b: nat)
    requires a < 0x100 && b < 0x100
    ensures Put16(a + 0x100 * b) == [a as bv8, b as bv8]
  {
    var x := a + 0x100 * b;
    assert x % 0x100 == a && x / 0x100 == b;
  }

  lemma PutGet16(lo: bv8, hi: bv8)
    ensures Put16(Get16(lo, hi)) == [lo, hi]
  {
    hide Put16;
    Ranges(lo);
    Ranges(hi);
    PutParts(lo as int, hi as int);
    BackByte(lo);
    BackByte(hi);
  }

  // ---------------------------------------------------------------------------------------------
  // What is sent

  function Header(f: Frame): (h: seq<bv8>)
    requires FrameValid(f)
    ensures |h| == 8
  {
    Put16(f.iden) + Put16(|f.payload|) + f.kind
  }

  /** A message with its check sequence. */
  function Checked(s: seq<bv8>): (r: seq<bv8>)
    ensures |r| == |s| + 2 && Over(INIT, r) == OK
  {
    Residue(INIT, s);
    s + Trailer(Over(INIT, s))
  }

  function Encode(f: Frame): (s: seq<bv8>)
    requires FrameValid(f)
    ensures |s| == 16 + |f.payload|
  {
    [SOH] + Checked(Header(f)) + [STX] + Checked(f.payload) + [ETX, EOT]
  }

  function EncodeAck(iden: nat): (s: seq<bv8>)
    requires iden < 0x1_0000
    ensures |s| == 6
  {
    [ACK] + Checked(Put16(iden)) + [EOT]
  }

  /** The sending side of the line. */
  class Line {
    var sent: seq<bv8>

    constructor ()
      ensures sent == []
    {
      sent := [];
    }

    method Put(x: bv8)
      modifies this
      ensures sent == old(sent) + [x]
    {
      sent := sent + [x];
    }

    /** `fsm_put_fcs`: a byte goes out and into the check sequence. */
    method PutFcs(x: bv8, fcs: Word) returns (r: Word)
      modifies this
      ensures sent == old(sent) + [x] && r == Over(fcs, [x])
    {
      Put(x);
      r := Fcs16(fcs, [x]);
    }

    /** `fsm_put16_fcs` */
    method Put16Fcs(x: nat, fcs: Word) returns (r: Word)
      requires x < 0x1_0000
      modifies this
      ensures sent == old(sent) + Put16(x) && r == Over(fcs, Put16(x))
    {
      var lo, hi: bv8 := (x % 0x100) as bv8, (x / 0x100) as bv8;
      r := PutFcs(lo, fcs);
      r := PutFcs(hi, r);
      OverConcat(fcs, [lo], [hi]);
      assert [lo] + [hi] == Put16(x);
    }

    /** `fsm_put16` of the complemented check sequence. */
    method PutTrailer(fcs: Word)
      modifies this
      ensures sent == old(sent) + Trailer(fcs)
    {
      Put(LowByte(Not(fcs)));
      Put(HighByte(Not(fcs)));
    }

    /** The header, up to its check sequence. */
    method PutHeader(f: Frame) returns (fcs: Word)
      requires FrameValid(f)
      modifies this
      ensures sent == old(sent) + Header(f) && fcs == Over(INIT, Header(f))
    {
      hide Over, Put16;
      fcs := Put16Fcs(f.iden, INIT);
      fcs := Put16Fcs(|f.payload|, fcs);
      OverConcat(INIT, Put16(f.iden), Put16(|f.payload|));
      ghost var front := Put16(f.iden) + Put16(|f.payload|);
      assert sent == old(sent) + front;
      var i := 0;
      assert front + f.kind[..0] == front;
      while i < 4
        invariant i <= 4 && sent == old(sent) + (front + f.kind[..i])
        invariant fcs == Over(INIT, front + f.kind[..i])
      {
        fcs := PutFcs(f.kind[i], fcs);
        OverConcat(INIT, front + f.kind[..i], [f.kind[i]]);
        assert front + f.kind[..i] + [f.kind[i]] == front + f.kind[..i + 1];
        i := i + 1;
      }
      assert front + f.kind[..4] == Header(f);
    }

    /** `fsm_send` */
    method Send(f: Frame)
      requires FrameValid(f)
      modifies this
      ensures sent == old(sent) + Encode(f)
    {
      hide Over, Trailer, Header;
      Put(SOH);
      var fcs := PutHeader(f);
      PutTrailer(fcs);
      Put(STX);
      sent := sent + f.payload;
      fcs := Fcs16(INIT, f.payload);
      PutTrailer(fcs);
      Put(ETX);
      Put(EOT);
      ghost var h, t := Header(f), Trailer(Over(INIT, Header(f)));
      assert sent == old(sent) + [SOH] + h + t + [STX] + f.payload + Trailer(fcs) + [ETX] + [EOT];
    }

    /** `fsm_send_ack` */
    method SendAck(iden: nat)
      requires iden < 0x1_0000
      modifies this
      ensures sent == old(sent) + EncodeAck(iden)
    {
      hide Over, Trailer;
      Put(ACK);
      var fcs := Put16Fcs(iden, INIT);
      PutTrailer(fcs);
      Put(EOT);
    }
  }

  // ---------------------------------------------------------------------------------------------
  // What a receiver makes of a stream that never stalls

  datatype Outcome = Received(frame: Frame, next: nat) | Starved

  function HeaderLength(hdr: seq<bv8>): nat
    requires |hdr| == 10
  {
    Get16(hdr[2], hdr[3])
  }

  function FrameOf(hdr: seq<bv8>, body: seq<bv8>): Frame
    requires |hdr| == 10
  {
    Frame(Get16(hdr[0], hdr[1]), hdr[4..8], body)
  }

  /** One turn of the receiver: go on looking from a later place, or stop. */
  datatype Turn = Skip(to: nat) | Stop(outcome: Outcome)

  /** Behind an intact header: the body, as long as the header says. */
  function LookBody(s: seq<bv8>, q: nat, hdr: seq<bv8>): (t: Turn)
    requires |hdr| == 10
    ensures t.Skip? ==> q < t.to
  {
    if q >= |s| then Stop(Starved)
    else if s[q] != STX then Skip(q + 1)
    else
      var end := q + 3 + HeaderLength(hdr);
      if end >= |s| then Stop(Starved)
      else if s[end] != ETX then Skip(end + 1)
      else if end + 1 >= |s| then Stop(Starved)
      else if s[end + 1] != EOT then Skip(end + 2)
      else if Over(INIT, s[q + 1..end]) != OK then Skip(end + 2)
      else Stop(Received(FrameOf(hdr, s[q + 1..end - 2]), end + 2))
  }

  function Look(s: seq<bv8>, pos: nat): (t: Turn)
    requires pos < |s|
    ensures t.Skip? ==> pos < t.to
  {
    if s[pos] != SOH then Skip(pos + 1)
    else if pos + 11 > |s| then Stop(Starved)
    else
      var hdr := s[pos + 1..pos + 11];
      if Over(INIT, hdr) != OK then Skip(pos + 11) else LookBody(s, pos + 11, hdr)
  }

  /** `fsm_recv` from `pos` on: what is in the way is skipped, what is damaged is left behind. */
  function Parse(s: seq<bv8>, pos: nat): Outcome
    decreases |s| - pos
  {
    if pos >= |s| then Starved else
      match Look(s, pos)
      case Skip(to) => Parse(s, to)
      case Stop(o) => o
  }

  /** The step of the receiver at a start-of-header byte, once everything the frame needs is there. */
  lemma ParseHere(s: seq<bv8>, pos: nat, f: Frame)
    requires FrameValid(f) && pos + |Encode(f)| <= |s| && s[pos..pos + |Encode(f)|] == Encode(f)
    ensures Parse(s, pos) == Received(f, pos + |Encode(f)|)
  {
    hide Over, Checked, Header, Get16;
    var n := |f.payload|;
    var end := pos + 14 + n;
    EncodeParts(f);
    SliceParts(s, pos, Encode(f), n);
    HeaderBack(f);
    PayloadBack(f);
    assert s[pos + 12..end - 2] == s[pos + 12..end][..|f.payload|];
  }

  lemma SliceParts(s: seq<bv8>, pos: nat, e: seq<bv8>, n: nat)
    requires |e| == 16 + n && pos + |e| <= |s| && s[pos..pos + |e|] == e
    ensures s[pos] == e[0] && s[pos + 11] == e[11] && s[pos + 14 + n] == e[14 + n] && s[pos + 15 + n] == e[15 + n]
    ensures s[pos + 1..pos + 11] == e[1..11] && s[pos + 12..pos + 14 + n] == e[12..14 + n]
  {
    var t := s[pos..pos + |e|];
    assert s[pos] == t[0] && s[pos + 11] == t[11] && s[pos + 14 + n] == t[14 + n] && s[pos + 15 + n] == t[15 + n];
    SliceOfSlice(s, pos, pos + |e|, 1, 11);
    SliceOfSlice(s, pos, pos + |e|, 12, 14 + n);
  }

  lemma EncodeParts(f: Frame)
    requires FrameValid(f)
    ensures var e, n := Encode(f), |f.payload|;
            && e[0] == SOH && e[1..11] == Checked(Header(f)) && e[11] == STX
            && e[12..14 + n] == Checked(f.payload) && e[14 + n] == ETX && e[15 + n] == EOT
  {
    hide Checked, Header;
  }

  lemma HeaderBack(f: Frame)
    requires FrameValid(f)
    ensures var h := Checked(Header(f));
            HeaderLength(h) == |f.payload| && FrameOf(h, f.payload) == f && Over(INIT, h) == OK
  {
    hide Put16, Get16, Over, Trailer;
    var h := Header(f);
    GetPut16(f.iden);
    GetPut16(|f.payload|);
    TwoLong(f.iden);
    TwoLong(|f.payload|);
    assert Checked(h)[..8] == h;
    assert Checked(h)[4..8] == f.kind;
  }

  lemma TwoLong(x: nat)
    requires x < 0x1_0000
    ensures |Put16(x)| == 2
  {
  }

  lemma PayloadBack(f: Frame)
    ensures Checked(f.payload)[..|f.payload|] == f.payload && Over(INIT, Checked(f.payload)) == OK
  {
    hide Over, Trailer;
  }

  lemma {:induction false} ParseSkips(s: seq<bv8>, pos: nat, to: nat)
    requires pos <= to <= |s| && forall i :: pos <= i < to ==> s[i] != SOH
    ensures Parse(s, pos) == Parse(s, to)
    decreases |s| - pos
  {
    if pos < to {
      ParseSkips(s, pos + 1, to);
    }
  }

  /** Behind anything that holds no start of header, a frame that was sent is the frame that is received. */
  lemma FrameRoundTrip(noise: seq<bv8>, f: Frame, rest: seq<bv8>)
    requires FrameValid(f) && SOH !in noise
    ensures Parse(noise + Encode(f) + rest, 0) == Received(f, |noise| + |Encode(f)|)
  {
    hide Encode, Parse;
    var s := noise + Encode(f) + rest;
    ParseSkips(s, 0, |noise|);
    assert s[|noise|..|noise| + |Encode(f)|] == Encode(f);
    ParseHere(s, |noise|, f);
  }

  /** Nothing is received that does not stand in the stream as somebody would have sent it. */
  lemma {:induction false} ReceivedWasSent(s: seq<bv8>, pos: nat)
    requires Parse(s, pos).Received?
    ensures var r := Parse(s, pos);
            && FrameValid(r.frame) && pos + |Encode(r.frame)| <= r.next <= |s|
            && s[r.next - |Encode(r.frame)|..r.next] == Encode(r.frame)
    decreases |s| - pos
  {
    hide Look, Encode, FrameValid;
    match Look(s, pos)
    case Skip(to) => ReceivedWasSent(s, to);
    case Stop(_) => StopIsEncoded(s, pos);
  }

  lemma StopIsEncoded(s: seq<bv8>, pos: nat)
    requires pos < |s| && Look(s, pos).Stop? && Look(s, pos).outcome.Received?
    ensures var r := Look(s, pos).outcome;
            && FrameValid(r.frame) && pos + |Encode(r.frame)| == r.next <= |s|
            && s[pos..r.next] == Encode(r.frame)
  {
    hide Over, Encode, FrameOf, FrameValid;
    AcceptedIsEncoded(s, pos, pos + 14 + HeaderLength(s[pos + 1..pos + 11]));
  }

  lemma AcceptedIsEncoded(s: seq<bv8>, pos: nat, end: nat)
    requires pos + 14 <= end && end + 2 <= |s| && s[pos] == SOH && s[pos + 11] == STX && s[end] == ETX && s[end + 1] == EOT
    requires Over(INIT, s[pos + 1..pos + 11]) == OK && Over(INIT, s[pos + 12..end]) == OK
    requires end == pos + 14 + HeaderLength(s[pos + 1..pos + 11])
    ensures var f := FrameOf(s[pos + 1..pos + 11], s[pos + 12..end - 2]);
            FrameValid(f) && |Encode(f)| == end + 2 - pos && s[pos..end + 2] == Encode(f)
  {
    hide Over, Checked, Header, Get16;
    var hdr, body := s[pos + 1..pos + 11], s[pos + 12..end];
    var payload := s[pos + 12..end - 2];
    var f := FrameOf(hdr, payload);
    CheckedOnly(hdr[..8], hdr);
    HeaderOnly(hdr, payload);
    assert body[..|body| - 2] == payload;
    CheckedOnly(payload, body);
    assert s[pos..end + 2] == [s[pos]] + hdr + [s[pos + 11]] + body + [s[end], s[end + 1]];
  }

  /** A message that brings the register to its value ends in its own check sequence. */
  lemma CheckedOnly(s: seq<bv8>, t: seq<bv8>)
    requires |t| == |s| + 2 && t[..|s|] == s && Over(INIT, t) == OK
    ensures t == Checked(s)
  {
    hide Over, Trailer;
    var lo, hi := t[|s|], t[|s| + 1];
    assert t == s + [lo, hi];
    OnlyTrailer(INIT, s, lo, hi);
  }

  lemma HeaderOnly(hdr: seq<bv8>, payload: seq<bv8>)
    requires |hdr| == 10 && |payload| == HeaderLength(hdr)
    ensures FrameValid(FrameOf(hdr, payload)) && Header(FrameOf(hdr, payload)) == hdr[..8]
  {
    hide Put16, Get16;
    PutGet16(hdr[0], hdr[1]);
    PutGet16(hdr[2], hdr[3]);
    assert hdr[..8] == [hdr[0], hdr[1]] + [hdr[2], hdr[3]] + hdr[4..8];
  }

  // ---------------------------------------------------------------------------------------------
  // What is left behind

  /** A check sequence that is not the one of what stands before it. */
  predicate Damaged(t: seq<bv8>)
    requires |t| >= 2
  {
    t != Checked(t[..|t| - 2])
  }

  /** How long the text is that the header of a frame announces. */
  function Announced(d: seq<bv8>): nat
    requires |d| >= 11
  {
    Get16(d[3], d[4])
  }

  /** Behind a good header: something else than a text of the length announced, rightly framed and checked. */
  predicate SpoiltText(d: seq<bv8>)
    requires |d| >= 12
  {
    var n := Announced(d);
    || (|d| == 12 && d[11] != STX)
    || (|d| == 15 + n && d[11] == STX && d[14 + n] != ETX)
    || (|d| == 16 + n && d[11] == STX && d[14 + n] == ETX && (d[15 + n] != EOT || Damaged(d[12..14 + n])))
  }

  /** What is no frame: a byte that begins none, a damaged header, or a frame that is spoilt behind its header. */
  predicate Spoilt(d: seq<bv8>) {
    || (|d| == 1 && d[0] != SOH)
    || (|d| == 11 && d[0] == SOH && Damaged(d[1..11]))
    || (|d| >= 12 && d[0] == SOH && !Damaged(d[1..11]) && SpoiltText(d))
  }

  /** Pieces behind one another. */
  function Join(ds: seq<seq<bv8>>): seq<bv8> {
    if ds == [] then [] else ds[0] + Join(ds[1..])
  }

  ghost predicate AllSpoilt(ds: seq<seq<bv8>>) {
    forall i :: 0 <= i < |ds| ==> Spoilt(ds[i])
  }

  lemma DamagedIs(t: seq<bv8>)
    requires |t| >= 2
    ensures Damaged(t) <==> Over(INIT, t) != OK
  {
    hide Over, Trailer;
    if Over(INIT, t) == OK {
      CheckedOnly(t[..|t| - 2], t);
    }
  }

  /** A turn goes on behind a stretch if and only if the stretch is spoilt. */
  lemma SkipsSpoilt(s: seq<bv8>, pos: nat, to: nat)
    requires pos < to <= |s|
    ensures Look(s, pos) == Skip(to) <==> Spoilt(s[pos..to])
  {
    hide Over, Damaged, Get16, FrameOf;
    var d := s[pos..to];
    assert d[0] == s[pos];
    if |d| >= 11 {
      SliceOfSlice(s, pos, to, 1, 11);
      DamagedIs(d[1..11]);
      var hdr := s[pos + 1..pos + 11];
      assert d[1..11] == hdr && hdr[2] == s[pos + 3] == d[3] && hdr[3] == s[pos + 4] == d[4];
      assert HeaderLength(hdr) == Announced(d);
      if |d| >= 12 && Over(INIT, hdr) == OK && s[pos] == SOH {
        SkipsText(s, pos, to, hdr);
      }
    }
  }

  lemma SkipsText(s: seq<bv8>, pos: nat, to: nat, hdr: seq<bv8>)
    requires pos + 12 <= to <= |s| && |hdr| == 10 && HeaderLength(hdr) == Announced(s[pos..to])
    ensures LookBody(s, pos + 11, hdr) == Skip(to) <==> SpoiltText(s[pos..to])
  {
    hide Over, Damaged, Get16, FrameOf, HeaderLength, Announced;
    var d, n := s[pos..to], HeaderLength(hdr);
    if |d| == 16 + n {
      SliceOfSlice(s, pos, to, 12, 14 + n);
      DamagedIs(d[12..14 + n]);
    }
  }

  lemma SkipsInside(s: seq<bv8>, pos: nat)
    requires pos < |s| && Look(s, pos).Skip?
    ensures pos < Look(s, pos).to <= |s|
  {
    hide Over, Get16;
  }

  lemma {:induction false} ParsePast(s: seq<bv8>, pos: nat, ds: seq<seq<bv8>>)
    requires AllSpoilt(ds) && pos + |Join(ds)| <= |s| && s[pos..pos + |Join(ds)|] == Join(ds)
    ensures Parse(s, pos) == Parse(s, pos + |Join(ds)|)
    decreases |ds|
  {
    hide Look, Spoilt;
    if ds != [] {
      var to := pos + |ds[0]|;
      var all := Join(ds);
      assert all[..|ds[0]|] == ds[0] && all[|ds[0]|..] == Join(ds[1..]);
      SliceOfSlice(s, pos, pos + |all|, 0, |ds[0]|);
      SliceOfSlice(s, pos, pos + |all|, |ds[0]|, |all|);
      assert |ds[0]| > 0 by { SpoiltIsSome(ds[0]); }
      SkipsSpoilt(s, pos, to);
      ParsePast(s, to, ds[1..]);
    }
  }

  lemma SpoiltIsSome(d: seq<bv8>)
    requires Spoilt(d)
    ensures d != []
  {
  }

  lemma {:induction false} PiecesBefore(s: seq<bv8>, pos: nat) returns (ds: seq<seq<bv8>>)
    requires Parse(s, pos).Received?
    ensures var r := Parse(s, pos);
            FrameValid(r.frame) && pos <= r.next <= |s| && AllSpoilt(ds) && s[pos..r.next] == Join(ds) + Encode(r.frame)
    decreases |s| - pos
  {
    hide Look, Encode, FrameValid, Spoilt;
    match Look(s, pos)
    case Stop(_) =>
      StopIsEncoded(s, pos);
      ds := [];
    case Skip(to) =>
      SkipsInside(s, pos);
      SkipsSpoilt(s, pos, to);
      var more := PiecesBefore(s, to);
      ds := [s[pos..to]] + more;
      var n := Parse(s, to).next;
      assert ds[1..] == more;
      assert s[pos..n] == s[pos..to] + s[to..n];
  }

  /** The frame ends at `n`, and nothing but spoilt pieces stands before it, however many and of whatever kind. */
  ghost predicate FirstFrame(s: seq<bv8>, f: Frame, n: nat) {
    FrameValid(f) && n <= |s| && exists ds :: AllSpoilt(ds) && s[..n] == Join(ds) + Encode(f)
  }

  /** The frame that is received is exactly the first one. */
  lemma ReceivedExactly(s: seq<bv8>, f: Frame, n: nat)
    ensures Parse(s, 0) == Received(f, n) <==> FirstFrame(s, f, n)
  {
    hide Parse, Encode, AllSpoilt;
    if Parse(s, 0) == Received(f, n) {
      var ds := PiecesBefore(s, 0);
      assert s[0..n] == s[..n];
    } else if FrameValid(f) && n <= |s| {
      forall ds | AllSpoilt(ds) ensures s[..n] != Join(ds) + Encode(f) {
        if s[..n] == Join(ds) + Encode(f) {
          Resent(s, ds, f, n);
        }
      }
    }
  }

  lemma Resent(s: seq<bv8>, ds: seq<seq<bv8>>, f: Frame, n: nat)
    requires FrameValid(f) && AllSpoilt(ds) && n <= |s| && s[..n] == Join(ds) + Encode(f)
    ensures Parse(s, 0) == Received(f, n)
  {
    hide Parse, Encode, Join, AllSpoilt;
    var k := |Join(ds)|;
    SliceOfSlice(s, 0, n, 0, k);
    SliceOfSlice(s, 0, n, k, n);
    assert s[0..n] == s[..n];
    ParsePast(s, 0, ds);
    ParseHere(s, k, f);
  }

  /** The ordinary recovery: a frame that arrives with a damaged text is left behind, and its repetition is received. */
  lemma ResendIsReceived(g: Frame, body: seq<bv8>, f: Frame, rest: seq<bv8>)
    requires FrameValid(g) && FrameValid(f) && |body| == |g.payload| + 2 && Over(INIT, body) != OK
    ensures var d := [SOH] + Checked(Header(g)) + [STX] + body + [ETX, EOT];
            Parse(d + Encode(f) + rest, 0) == Received(f, |d| + |Encode(f)|)
  {
    hide Parse, Encode, Checked, Header, Over, Get16;
    var h, n := Checked(Header(g)), |g.payload|;
    var d := [SOH] + h + [STX] + body + [ETX, EOT];
    HeaderBack(g);
    DamagedIs(h);
    DamagedIs(body);
    assert d[1..11] == h && d[12..14 + n] == body && d[3] == h[2] && d[4] == h[3];
    assert Join([d]) == d;
    Resent(d + Encode(f) + rest, [d], f, |d| + |Encode(f)|);
  }

  /** `fsm_recv`, on a stream that never stalls. */
  method Recv(s: seq<bv8>, start: nat) returns (r: Outcome)
    ensures r == Parse(s, start)
    ensures start == 0 ==> forall f, n :: r == Received(f, n) <==> FirstFrame(s, f, n)
  {
    hide Look, FirstFrame;
    forall f, n: nat ensures Parse(s, 0) == Received(f, n) <==> FirstFrame(s, f, n) {
      ReceivedExactly(s, f, n);
    }
    var pos := start;
    while pos < |s|
      invariant Parse(s, start) == Parse(s, pos)
      decreases |s| - pos
    {
      var t := RecvHeader(s, pos);
      if t.Stop? {
        return t.outcome;
      }
      pos := t.to;
    }
    r := Starved;
  }

  /** From a byte that may be a start of header on. */
  method RecvHeader(s: seq<bv8>, start: nat) returns (t: Turn)
    requires start < |s|
    ensures t == Look(s, start)
  {
    hide Over, LookBody;
    var pos := start + 1;
    if s[start] != SOH {
      return Skip(pos);
    }
    if pos + 10 > |s| {
      return Stop(Starved);
    }
    var hdr := s[pos..pos + 10];
    pos := pos + 10;
    var fcs := Fcs16(INIT, hdr);
    if fcs != OK {
      return Skip(pos);
    }
    t := RecvBody(s, pos, hdr);
  }

  /** From the start of text to the end of transmission. */
  method RecvBody(s: seq<bv8>, start: nat, hdr: seq<bv8>) returns (t: Turn)
    requires |hdr| == 10
    ensures t == LookBody(s, start, hdr)
  {
    hide Over, HeaderLength, FrameOf;
    if start >= |s| {
      return Stop(Starved);
    }
    var pos := start + 1;
    if s[start] != STX {
      return Skip(pos);
    }
    var size := 2 + HeaderLength(hdr);
    if pos + size >= |s| {
      return Stop(Starved);
    }
    var body := s[pos..pos + size];
    pos := pos + size + 1;
    if s[pos - 1] != ETX {
      return Skip(pos);
    }
    if pos >= |s| {
      return Stop(Starved);
    }
    pos := pos + 1;
    if s[pos - 1] != EOT {
      return Skip(pos);
    }
    var fcs := Fcs16(INIT, body);
    if fcs != OK {
      return Skip(pos);
    }
    SliceOfSlice(s, start + 1, start + 1 + size, 0, size - 2);
    t := Stop(Received(FrameOf(hdr, body[..size - 2]), pos));
  }

  // ---------------------------------------------------------------------------------------------
  // Acknowledgements

  datatype AckOutcome = Acked(next: nat) | NotAcked

  /** `fsm_recv_ack` from `pos` on: acknowledgements of other frames are passed over. */
  function ParseAck(s: seq<bv8>, pos: nat, iden: nat): AckOutcome
    decreases |s| - pos
  {
    if pos >= |s| then NotAcked
    else if s[pos] != ACK then ParseAck(s, pos + 1, iden)
    else if pos + 6 > |s| then NotAcked
    else
      var raw := s[pos + 1..pos + 5];
      if s[pos + 5] != EOT || Over(INIT, raw) != OK || Get16(raw[0], raw[1]) != iden then ParseAck(s, pos + 6, iden)
      else Acked(pos + 6)
  }

  lemma AckHere(s: seq<bv8>, pos: nat, iden: nat, sent: nat)
    requires iden < 0x1_0000 && sent < 0x1_0000 && pos + 6 <= |s| && s[pos..pos + 6] == EncodeAck(sent)
    ensures ParseAck(s, pos, iden) == if iden == sent then Acked(pos + 6) else ParseAck(s, pos + 6, iden)
  {
    hide Over, Get16, Put16, Trailer;
    var e := s[pos..pos + 6];
    GetPut16(sent);
    TwoLong(sent);
    assert e[1..5] == Checked(Put16(sent)) && e[0] == ACK && e[5] == EOT;
    SliceOfSlice(s, pos, pos + 6, 1, 5);
    assert e[1] == Put16(sent)[0] && e[2] == Put16(sent)[1];
    assert s[pos] == e[0] && s[pos + 5] == e[5];
  }

  lemma {:induction false} AckSkips(s: seq<bv8>, pos: nat, to: nat, iden: nat)
    requires pos <= to <= |s| && forall i :: pos <= i < to ==> s[i] != ACK
    ensures ParseAck(s, pos, iden) == ParseAck(s, to, iden)
    decreases |s| - pos
  {
    if pos < to {
      AckSkips(s, pos + 1, to, iden);
    }
  }

  /** An acknowledgement is found behind anything without an ACK, and only by who waits for it. */
  lemma AckRoundTrip(noise: seq<bv8>, sent: nat, rest: seq<bv8>, iden: nat)
    requires iden < 0x1_0000 && sent < 0x1_0000 && ACK !in noise
    ensures var s := noise + EncodeAck(sent) + rest;
            ParseAck(s, 0, iden) == if iden == sent then Acked(|noise| + 6) else ParseAck(s, |noise| + 6, iden)
  {
    hide EncodeAck, ParseAck;
    var s := noise + EncodeAck(sent) + rest;
    AckSkips(s, 0, |noise|, iden);
    assert s[|noise|..|noise| + 6] == EncodeAck(sent);
    AckHere(s, |noise|, iden, sent);
  }

  /** Whoever sees an acknowledgement sees one of the frame in question. */
  lemma {:induction false} AckedWasSent(s: seq<bv8>, pos: nat, iden: nat)
    requires iden < 0x1_0000 && ParseAck(s, pos, iden).Acked?
    ensures var next := ParseAck(s, pos, iden).next;
            pos + 6 <= next <= |s| && s[next - 6..next] == EncodeAck(iden)
    decreases |s| - pos
  {
    hide Over, Get16, Put16;
    if s[pos] != ACK {
      AckedWasSent(s, pos + 1, iden);
    } else {
      var raw := s[pos + 1..pos + 5];
      if s[pos + 5] != EOT || Over(INIT, raw) != OK || Get16(raw[0], raw[1]) != iden {
        AckedWasSent(s, pos + 6, iden);
      } else {
        PutGet16(raw[0], raw[1]);
        assert raw[..2] == [raw[0], raw[1]];
        CheckedOnly(Put16(iden), raw);
        SixBytes(s, pos);
      }
    }
  }

  lemma SixBytes(s: seq<bv8>, pos: nat)
    requires pos + 6 <= |s|
    ensures s[pos..pos + 6] == [s[pos]] + s[pos + 1..pos + 5] + [s[pos + 5]]
  {
  }

  /** What is no acknowledgement of the frame: a byte that begins none, or six bytes that are not the right ones. */
  predicate SpoiltAck(d: seq<bv8>, iden: nat)
    requires iden < 0x1_0000
  {
    (|d| == 1 && d[0] != ACK) || (|d| == 6 && d[0] == ACK && d != EncodeAck(iden))
  }

  ghost predicate AllSpoiltAcks(ds: seq<seq<bv8>>, iden: nat)
    requires iden < 0x1_0000
  {
    forall i :: 0 <= i < |ds| ==> SpoiltAck(ds[i], iden)
  }

  /** At an ACK with five bytes behind it: exactly the right six are taken. */
  lemma SixBytesDecide(s: seq<bv8>, pos: nat, iden: nat)
    requires iden < 0x1_0000 && pos + 6 <= |s| && s[pos] == ACK
    ensures ParseAck(s, pos, iden) == if s[pos..pos + 6] == EncodeAck(iden) then Acked(pos + 6) else ParseAck(s, pos + 6, iden)
  {
    hide Over, Get16, Put16, EncodeAck;
    if s[pos..pos + 6] == EncodeAck(iden) {
      AckHere(s, pos, iden, iden);
    } else {
      var raw := s[pos + 1..pos + 5];
      if s[pos + 5] == EOT && Over(INIT, raw) == OK && Get16(raw[0], raw[1]) == iden {
        TakenIsRight(s, pos, iden);
      }
    }
  }

  lemma TakenIsRight(s: seq<bv8>, pos: nat, iden: nat)
    requires iden < 0x1_0000 && pos + 6 <= |s| && s[pos] == ACK && s[pos + 5] == EOT
    requires Over(INIT, s[pos + 1..pos + 5]) == OK && Get16(s[pos + 1], s[pos + 2]) == iden
    ensures s[pos..pos + 6] == EncodeAck(iden)
  {
    hide Over, Get16, Put16;
    var raw := s[pos + 1..pos + 5];
    PutGet16(raw[0], raw[1]);
    assert raw[..2] == [raw[0], raw[1]];
    CheckedOnly(Put16(iden), raw);
    SixBytes(s, pos);
  }

  lemma {:induction false} AckPast(s: seq<bv8>, pos: nat, ds: seq<seq<bv8>>, iden: nat)
    requires iden < 0x1_0000 && AllSpoiltAcks(ds, iden) && pos + |Join(ds)| <= |s| && s[pos..pos + |Join(ds)|] == Join(ds)
    ensures ParseAck(s, pos, iden) == ParseAck(s, pos + |Join(ds)|, iden)
    decreases |ds|
  {
    hide EncodeAck, Over, Get16;
    if ds != [] {
      var to := pos + |ds[0]|;
      var all := Join(ds);
      assert all[..|ds[0]|] == ds[0] && all[|ds[0]|..] == Join(ds[1..]);
      SliceOfSlice(s, pos, pos + |all|, 0, |ds[0]|);
      SliceOfSlice(s, pos, pos + |all|, |ds[0]|, |all|);
      assert s[pos] == ds[0][0];
      if |ds[0]| == 6 {
        SixBytesDecide(s, pos, iden);
      }
      AckPast(s, to, ds[1..], iden);
    }
  }

  lemma {:induction false} AckPieces(s: seq<bv8>, pos: nat, iden: nat) returns (ds: seq<seq<bv8>>)
    requires iden < 0x1_0000 && ParseAck(s, pos, iden).Acked?
    ensures var n := ParseAck(s, pos, iden).next;
            pos <= n <= |s| && AllSpoiltAcks(ds, iden) && s[pos..n] == Join(ds) + EncodeAck(iden)
    decreases |s| - pos
  {
    hide EncodeAck, Over, Get16;
    var to := if s[pos] == ACK then pos + 6 else pos + 1;
    if s[pos] == ACK {
      SixBytesDecide(s, pos, iden);
    }
    if s[pos] == ACK && s[pos..to] == EncodeAck(iden) {
      ds := [];
    } else {
      var more := AckPieces(s, to, iden);
      ds := [s[pos..to]] + more;
      var n := ParseAck(s, to, iden).next;
      assert ds[1..] == more;
      assert s[pos..n] == s[pos..to] + s[to..n];
    }
  }

  /** The acknowledgement ends at `n`, and nothing but what is none stands before it. */
  ghost predicate FirstAck(s: seq<bv8>, iden: nat, n: nat)
    requires iden < 0x1_0000
  {
    n <= |s| && exists ds :: AllSpoiltAcks(ds, iden) && s[..n] == Join(ds) + EncodeAck(iden)
  }

  /** The acknowledgement that is taken is exactly the first one. */
  lemma AckedExactly(s: seq<bv8>, iden: nat, n: nat)
    requires iden < 0x1_0000
    ensures ParseAck(s, 0, iden) == Acked(n) <==> FirstAck(s, iden, n)
  {
    hide ParseAck, EncodeAck, AllSpoiltAcks;
    if ParseAck(s, 0, iden) == Acked(n) {
      var ds := AckPieces(s, 0, iden);
      assert s[0..n] == s[..n];
    } else if n <= |s| {
      forall ds | AllSpoiltAcks(ds, iden) ensures s[..n] != Join(ds) + EncodeAck(iden) {
        if s[..n] == Join(ds) + EncodeAck(iden) {
          AckBehind(s, ds, iden, n);
        }
      }
    }
  }

  lemma AckBehind(s: seq<bv8>, ds: seq<seq<bv8>>, iden: nat, n: nat)
    requires iden < 0x1_0000 && AllSpoiltAcks(ds, iden) && n <= |s| && s[..n] == Join(ds) + EncodeAck(iden)
    ensures ParseAck(s, 0, iden) == Acked(n)
  {
    hide ParseAck, EncodeAck, Join, AllSpoiltAcks;
    var k := |Join(ds)|;
    SliceOfSlice(s, 0, n, 0, k);
    SliceOfSlice(s, 0, n, k, n);
    assert s[0..n] == s[..n];
    AckPast(s, 0, ds, iden);
    AckHere(s, k, iden, iden);
  }

  /** `fsm_recv_ack`, on a stream that never stalls. */
  method RecvAck(s: seq<bv8>, start: nat, iden: nat) returns (r: AckOutcome)
    ensures r == ParseAck(s, start, iden)
    ensures start == 0 && iden < 0x1_0000 ==> forall n :: r == Acked(n) <==> FirstAck(s, iden, n)
  {
    hide Over, FirstAck;
    if iden < 0x1_0000 {
      forall n: nat ensures ParseAck(s, 0, iden) == Acked(n) <==> FirstAck(s, iden, n) {
        AckedExactly(s, iden, n);
      }
    }
    var pos := start;
    while pos < |s|
      invariant ParseAck(s, start, iden) == ParseAck(s, pos, iden)
      decreases |s| - pos
    {
      var c := s[pos];
      pos := pos + 1;
      if c == ACK {
        if pos + 5 > |s| {
          return NotAcked;
        }
        var raw := s[pos..pos + 4];
        pos := pos + 5;
        if s[pos - 1] == EOT {
          var fcs := Fcs16(INIT, raw);
          if fcs == OK && Get16(raw[0], raw[1]) == iden {
            return Acked(pos);
          }
        }
      }
    }
    r := NotAcked;
  }
}
