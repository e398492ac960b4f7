/** The LZMA2 format as an encoder writes it: chunks, their headers, and what they reset. */
module Lzma2Format {
  import opened Memory
  import opened RangeCoder
  import opened LzmaCode
  import opened LzmaSymbols
  import opened LzmaHonest

  /** `(pb * 5 + lp) * 9 + lc` */
  function PropsOf(byte0: byte): Props {
    Props(byte0 as int % 9, byte0 as int % 45 / 9, byte0 as int / 45)
  }

  lemma PropsUnique(lc: nat, lp: nat, pb: nat)
    requires lc < 9 && lp < 5 && lc + 9 * lp + 45 * pb < 256
    ensures PropsOf(lc + 9 * lp + 45 * pb) == Props(lc, lp, pb)
  {
    var x := lc + 9 * lp + 45 * pb;
    assert x / 45 == pb && x % 45 == lc + 9 * lp;
  }

  /** One of the two is the beginning of the other. */
  predicate Agreeing(a: seq<byte>, b: seq<byte>) {
    a <= b || b <= a
  }

  /** How one step of the control layer ends; `More` means that the loop goes on. */
  datatype Ret = More | Okay | StreamEnd | DataError

  /** Control bytes that are out of place: no reset yet, no properties yet, or no meaning. */
  predicate Refused(c: byte, needDictReset: bool, needProps: bool) {
    || (needDictReset && c != 0 && c != 1 && c < 0xE0)
    || (0x80 <= c < 0xC0 && needProps)
    || 2 < c < 0x80
  }

  /** Where the header of a chunk leads, by its control byte. */
  function Destination(c: byte): Sequence {
    if c >= 0xC0 then Properties else if c >= 0x80 then Prepare else CopyRaw
  }

  datatype Sequence = Control | Uncompressed1 | Uncompressed2 | Compressed0 | Compressed1 | Properties | Prepare | RunLzma | CopyRaw

  // ---------------------------------------------------------------------------------------------
  // What an encoder knows between two chunks

  /** The history with the recent kinds and distances, the properties, the probabilities, and what must still come first. */
  datatype Enc = Enc(lz: Lz, props: Props, probs: seq<nat>, needReset: bool, needProps: bool)

  /** A chunk: bytes as they are, or the symbols that `full` spells.  `resets` says how much starts afresh: nothing,
      the state, the properties too, or also the dictionary. */
  datatype Part =
    | Stored(reset: bool, data: seq<byte>)
    | Packed(resets: nat, code: byte, full: seq<byte>, sent: seq<Symbol>, size: nat)

  function Unbiased(): seq<nat> {
    seq(PROBS_TOTAL, _ => 1024)
  }

  function NewState(e: Enc): Enc {
    e.(lz := Lz(e.lz.hist, 0, 0, 0, 0, 0), probs := Unbiased())
  }

  function NewDict(e: Enc): Enc {
    e.(lz := e.lz.(hist := []), needReset := false, needProps := true)
  }

  /** What the control byte of a chunk leaves. */
  function Opened(e: Enc, part: Part): Enc {
    match part
    case Stored(reset, _) => if reset then NewDict(e) else e
    case Packed(resets, _, _, _, _) =>
      if resets >= 3 then NewDict(e).(needProps := false)
      else if resets == 2 then e.(needProps := false)
      else if resets == 1 then NewState(e)
      else e
  }

  /** What the properties byte leaves, if there is one. */
  function Begun(e: Enc, part: Part): Enc {
    if part.Packed? && part.resets >= 2 then NewState(e).(props := PropsOf(part.code)) else e
  }

  predicate HeaderFits(e: Enc, part: Part) {
    match part
    case Stored(reset, _) => e.needReset ==> reset
    case Packed(resets, code, _, _, _) =>
      && resets <= 3 && (e.needReset ==> resets == 3) && (resets < 2 ==> !e.needProps)
      && (resets >= 2 ==> code <= 224 && PropsValid(PropsOf(code)))
  }

  /** Sizes that the header can tell. */
  predicate Sized(part: Part) {
    match part
    case Stored(_, data) => 1 <= |data| <= 0x1_0000
    case Packed(resets, _, full, _, size) => resets <= 3 && 1 <= |full| <= 0x1_0000 && 1 <= size <= 0x20_0000
  }

  /** The chunk's bytes are what an encoder in state `e` writes for its symbols. */
  ghost predicate BodyFits(e: Enc, part: Part, window: nat) {
    && Sized(part)
    && (part.Packed? ==>
          && Genuine(e.props, window, Fresh(e.probs, part.full), e.lz, part.full, part.sent)
          && part.size == |ApplyAll(e.lz, part.sent, window).hist| - |e.lz.hist|)
  }

  ghost function Closed(e: Enc, part: Part, window: nat): Enc
    requires BodyFits(e, part, window)
  {
    match part
    case Stored(_, data) => e.(lz := e.lz.(hist := e.lz.hist + data))
    case Packed(_, _, full, sent, _) =>
      e.(lz := ApplyAll(e.lz, sent, window), probs := Standing(e.props, window, e.probs, e.lz, sent).probs)
  }

  /** The bytes a chunk stands for. */
  ghost function Meaning(e: Enc, part: Part, window: nat): seq<byte>
    requires BodyFits(e, part, window)
  {
    match part
    case Stored(_, data) => data
    case Packed(_, _, _, sent, _) => ApplyAll(e.lz, sent, window).hist[|e.lz.hist|..]
  }

  ghost predicate AllFits(e: Enc, parts: seq<Part>, window: nat)
    decreases |parts|
  {
    parts == [] ||
      var p := parts[0];
      var b := Begun(Opened(e, p), p);
      HeaderFits(e, p) && BodyFits(b, p, window) && AllFits(Closed(b, p, window), parts[1..], window)
  }

  ghost function MeaningOfAll(e: Enc, parts: seq<Part>, window: nat): seq<byte>
    requires AllFits(e, parts, window)
    decreases |parts|
  {
    if parts == [] then [] else
      var p := parts[0];
      var b := Begun(Opened(e, p), p);
      Meaning(b, p, window) + MeaningOfAll(Closed(b, p, window), parts[1..], window)
  }

  // ---------------------------------------------------------------------------------------------
  // Bytes

  function Two(n: int): seq<byte>
    requires 0 <= n < 0x1_0000
  {
    [n / 0x100, n % 0x100]
  }

  function ControlOf(part: Part): byte
    requires Sized(part)
  {
    match part
    case Stored(reset, _) => if reset then 1 else 2
    case Packed(resets, _, _, _, size) => 0x80 + 0x20 * resets + (size - 1) / 0x1_0000
  }

  function LengthOf(part: Part): nat {
    if part.Packed? then |part.full| else |part.data|
  }

  function AfterLength(part: Part): seq<byte> {
    match part
    case Stored(_, data) => data
    case Packed(resets, code, full, _, _) => if resets >= 2 then [code] + full else full
  }

  function AfterSize(part: Part): seq<byte>
    requires Sized(part)
  {
    Two(LengthOf(part) - 1) + AfterLength(part)
  }

  function AfterControl(part: Part): seq<byte>
    requires Sized(part)
  {
    if part.Packed? then Two((part.size - 1) % 0x1_0000) + AfterSize(part) else AfterSize(part)
  }

  ghost predicate AllSized(parts: seq<Part>) {
    forall i :: 0 <= i < |parts| ==> Sized(parts[i])
  }

  /** The whole stream, closed by a zero. */
  function StreamBytes(parts: seq<Part>): seq<byte>
    requires AllSized(parts)
  {
    if parts == [] then [0] else [ControlOf(parts[0])] + AfterControl(parts[0]) + StreamBytes(parts[1..])
  }

  /** A fresh probability has even odds. */
  lemma StartsEven()
    ensures |Unbiased()| == PROBS_TOTAL && forall k :: 0 <= k < PROBS_TOTAL ==> Unbiased()[k] == 2048 - Unbiased()[k]
  {
  }

  /** A stream of one stored chunk, byte by byte. */
  lemma StoredExample(data: seq<byte>)
    requires |data| == 0x103
    ensures AllSized([Stored(true, data)]) && StreamBytes([Stored(true, data)]) == [0x01, 0x01, 0x02] + data + [0x00]
  {
    var ps := [Stored(true, data)];
    assert ps[1..] == [] && StreamBytes(ps[1..]) == [0];
    assert AfterControl(ps[0]) == [0x01, 0x02] + data;
    assert [0x01] + ([0x01, 0x02] + data) == [0x01, 0x01, 0x02] + data;
  }

  /** And of one compressed chunk of 0x30406 bytes that starts everything afresh, with lc 3, lp 0 and pb 2. */
  lemma PackedExample(full: seq<byte>, sent: seq<Symbol>)
    requires |full| == 0x0708
    ensures var ps := [Packed(3, 0x5D, full, sent, 0x3_0406)];
            && AllSized(ps) && PropsOf(0x5D) == Props(3, 0, 2)
            && StreamBytes(ps) == [0xE3, 0x04, 0x05, 0x07, 0x07, 0x5D] + full + [0x00]
  {
    var ps := [Packed(3, 0x5D, full, sent, 0x3_0406)];
    assert ps[1..] == [] && StreamBytes(ps[1..]) == [0];
    assert Two(0x0405) == [0x04, 0x05] && Two(0x0707) == [0x07, 0x07];
    assert AfterControl(ps[0]) == [0x04, 0x05] + ([0x07, 0x07] + ([0x5D] + full));
    assert ControlOf(ps[0]) == 0xE3;
    assert [0xE3] + ([0x04, 0x05] + ([0x07, 0x07] + ([0x5D] + full))) == [0xE3, 0x04, 0x05, 0x07, 0x07, 0x5D] + full;
  }

  lemma {:induction false} FitsAreSized(e: Enc, parts: seq<Part>, window: nat)
    requires AllFits(e, parts, window)
    ensures AllSized(parts)
    decreases |parts|
  {
    hide Genuine, HeaderFits, Sized, Closed;
    if parts != [] {
      var p := parts[0];
      var b := Begun(Opened(e, p), p);
      assert BodyFits(b, p, window);
      assert Sized(p);
      FitsAreSized(Closed(b, p, window), parts[1..], window);
      forall i | 0 <= i < |parts| ensures Sized(parts[i]) {
        if i > 0 {
          assert parts[i] == parts[1..][i - 1];
        }
      }
    }
  }

  // ---------------------------------------------------------------------------------------------
  // A decoder's view of the rest of the stream

  /** Between two chunks: `text` is the rest of the stream, and makes `target` of what has been delivered. */
  ghost predicate AtControl(e: Enc, parts: seq<Part>, target: seq<byte>, delivered: seq<byte>, text: seq<byte>, window: nat) {
    && AllFits(e, parts, window) && AllSized(parts)
    && target == delivered + MeaningOfAll(e, parts, window) && text == StreamBytes(parts)
  }

  /** In front of the body of `part`, behind which `tail` follows. */
  ghost predicate Ahead(e: Enc, part: Part, tail: seq<Part>, target: seq<byte>, delivered: seq<byte>, window: nat) {
    && BodyFits(e, part, window) && AllFits(Closed(e, part, window), tail, window) && AllSized(tail)
    && target == delivered + (Meaning(e, part, window) + MeaningOfAll(Closed(e, part, window), tail, window))
  }

  /** A text that agrees with the rest of the stream begins with the same byte. */
  lemma AgreeFirst(a: seq<byte>, text: seq<byte>)
    requires Agreeing(a, text) && a != [] && text != []
    ensures a[0] == text[0]
  {
  }

  lemma HeadOf(text: seq<byte>, x: byte, b: seq<byte>)
    requires text == [x] + b
    ensures text != [] && text[0] == x && text[1..] == b
  {
  }

  /** The control byte is that of the next chunk, or the zero at the end. */
  lemma AtControlSplits(e: Enc, parts: seq<Part>, target: seq<byte>, delivered: seq<byte>, text: seq<byte>, window: nat)
    requires AtControl(e, parts, target, delivered, text, window)
    ensures text != [] && (parts == [] ==> text[0] == 0 && target == delivered)
    ensures parts != [] ==>
              var p, tail := parts[0], parts[1..];
              && Sized(p) && AllSized(tail) && HeaderFits(e, p) && text[0] == ControlOf(p)
              && text[1..] == AfterControl(p) + StreamBytes(tail)
              && Ahead(Begun(Opened(e, p), p), p, tail, target, delivered, window)
  {
    hide Genuine, HeaderFits, Opened, Begun, Closed, Meaning, ControlOf, AfterControl, Sized;
    if parts != [] {
      var p, tail := parts[0], parts[1..];
      var s := StreamBytes(tail);
      assert [ControlOf(p)] + AfterControl(p) + s == [ControlOf(p)] + (AfterControl(p) + s);
      HeadOf(text, ControlOf(p), AfterControl(p) + s);
    }
  }

  /** A control byte in terms of the byte alone. */
  function OpenedBy(c: byte, e: Enc): Enc {
    if c == 1 then NewDict(e)
    else if c < 0x80 then e
    else if c < 0xA0 then e
    else if c < 0xC0 then NewState(e)
    else if c < 0xE0 then e.(needProps := false)
    else NewDict(e).(needProps := false)
  }

  lemma ControlMeans(e: Enc, part: Part)
    requires Sized(part) && HeaderFits(e, part)
    ensures var c := ControlOf(part);
            && c != 0 && !Refused(c, e.needReset, e.needProps) && OpenedBy(c, e) == Opened(e, part)
            && (c >= 0x80 <==> part.Packed?) && (part.Packed? ==> c as int % 0x20 == (part.size - 1) / 0x1_0000)
            && Destination(c) == DestinationOf(part)
  {
    if part.Packed? {
      var h := (part.size - 1) / 0x1_0000;
      assert h < 0x20;
    }
  }

  /** A control byte is refused exactly when no chunk that may come next begins with it. */
  lemma ControlExactly(e: Enc, c: byte)
    requires c != 0
    ensures !Refused(c, e.needReset, e.needProps) <==> exists part :: Sized(part) && HeaderFits(e, part) && ControlOf(part) == c
  {
    forall part | Sized(part) && HeaderFits(e, part) && ControlOf(part) == c ensures !Refused(c, e.needReset, e.needProps) {
      ControlMeans(e, part);
    }
    if !Refused(c, e.needReset, e.needProps) {
      if c < 0x80 {
        var part := Stored(c == 1, [0]);
        assert Sized(part) && HeaderFits(e, part) && ControlOf(part) == c;
      } else {
        var k: nat, h: nat := (c as int - 0x80) / 0x20, c as int % 0x20;
        var part := Packed(k, 0, [0], [], h * 0x1_0000 + 1);
        assert Sized(part) && HeaderFits(e, part);
        assert ControlOf(part) == c;
      }
    }
  }

  function DestinationOf(part: Part): Sequence {
    if part.Stored? then CopyRaw else if part.resets >= 2 then Properties else Prepare
  }

  /** All bytes of a chunk are delivered and the next chunk begins. */
  lemma AheadDone(e: Enc, part: Part, tail: seq<Part>, target: seq<byte>, delivered: seq<byte>, delivered': seq<byte>, window: nat)
    requires Ahead(e, part, tail, target, delivered, window) && delivered' == delivered + Meaning(e, part, window)
    ensures AtControl(Closed(e, part, window), tail, target, delivered', StreamBytes(tail), window)
  {
    hide Genuine, Closed, Meaning, BodyFits;
    var m, n := Meaning(e, part, window), MeaningOfAll(Closed(e, part, window), tail, window);
    assert delivered + (m + n) == (delivered + m) + n;
  }

  /** Some stored bytes are delivered. */
  lemma StoredOn(e: Enc, reset: bool, data: seq<byte>, k: nat, tail: seq<Part>, target: seq<byte>, delivered: seq<byte>, window: nat)
    requires Ahead(e, Stored(reset, data), tail, target, delivered, window) && k < |data|
    ensures Ahead(e.(lz := e.lz.(hist := e.lz.hist + data[..k])), Stored(reset, data[k..]), tail, target, delivered + data[..k], window)
  {
    hide AllFits, MeaningOfAll;
    var e' := e.(lz := e.lz.(hist := e.lz.hist + data[..k]));
    var p, p' := Stored(reset, data), Stored(reset, data[k..]);
    assert data == data[..k] + data[k..];
    assert e.lz.hist + data == e.lz.hist + data[..k] + data[k..];
    assert Closed(e', p', window) == Closed(e, p, window);
    var n := MeaningOfAll(Closed(e, p, window), tail, window);
    assert delivered + (data + n) == delivered + data[..k] + (data[k..] + n);
  }

  // ---------------------------------------------------------------------------------------------
  // Headers, byte by byte

  /** How far the header of `part` has been read; `follow` is what comes behind the chunk. */
  predicate HeaderAt(sequence: Sequence, next: Sequence, uncompressed: nat, compressed: nat, part: Part, follow: seq<byte>, text: seq<byte>)
    requires Sized(part)
  {
    && next == DestinationOf(part)
    && match sequence
       case Uncompressed1 =>
         && part.Packed? && uncompressed == (part.size - 1) / 0x1_0000 * 0x1_0000
         && text == [(part.size - 1) % 0x1_0000 / 0x100] + ([(part.size - 1) % 0x100] + (AfterSize(part) + follow))
       case Uncompressed2 =>
         && part.Packed? && uncompressed == (part.size - 1) / 0x100 * 0x100
         && text == [(part.size - 1) % 0x100] + (AfterSize(part) + follow)
       case Compressed0 => (part.Packed? ==> uncompressed == part.size) && text == AfterSize(part) + follow
       case Compressed1 =>
         && (part.Packed? ==> uncompressed == part.size) && compressed == (LengthOf(part) - 1) / 0x100 * 0x100
         && text == [(LengthOf(part) - 1) % 0x100] + (AfterLength(part) + follow)
       case Properties =>
         && part.Packed? && part.resets >= 2 && uncompressed == part.size && compressed == LengthOf(part)
         && text == AfterLength(part) + follow
       case _ => false
  }

  lemma TwoFirst(x: byte, y: byte, a: seq<byte>, b: seq<byte>)
    ensures [x, y] + a + b == [x] + ([y] + (a + b))
  {
    assert [x, y] == [x] + [y];
  }

  lemma HeaderBegins(part: Part, uncompressed: nat, compressed: nat, follow: seq<byte>, text: seq<byte>)
    requires Sized(part) && text == AfterControl(part) + follow
    requires part.Packed? ==> uncompressed == (part.size - 1) / 0x1_0000 * 0x1_0000
    ensures HeaderAt(if part.Packed? then Uncompressed1 else Compressed0, DestinationOf(part), uncompressed, compressed, part, follow, text)
  {
    hide AfterSize, Sized, DestinationOf;
    if part.Packed? {
      var n := (part.size - 1) % 0x1_0000;
      LowByte(part.size - 1);
      TwoFirst(n / 0x100, n % 0x100, AfterSize(part), follow);
    }
  }

  lemma LowByte(n: nat)
    ensures n % 0x1_0000 % 0x100 == n % 0x100
  {
  }

  lemma SizeHigh(next: Sequence, uncompressed: nat, compressed: nat, part: Part, follow: seq<byte>, text: seq<byte>)
    requires Sized(part) && HeaderAt(Uncompressed1, next, uncompressed, compressed, part, follow, text)
    ensures text != [] && HeaderAt(Uncompressed2, next, uncompressed + 0x100 * text[0] as int, compressed, part, follow, text[1..])
  {
    hide AfterSize;
    HeadOf(text, (part.size - 1) % 0x1_0000 / 0x100, [(part.size - 1) % 0x100] + (AfterSize(part) + follow));
  }

  lemma SizeLow(next: Sequence, uncompressed: nat, compressed: nat, part: Part, follow: seq<byte>, text: seq<byte>)
    requires Sized(part) && HeaderAt(Uncompressed2, next, uncompressed, compressed, part, follow, text)
    ensures text != [] && HeaderAt(Compressed0, next, uncompressed + text[0] as int + 1, compressed, part, follow, text[1..])
  {
    hide AfterSize;
    HeadOf(text, (part.size - 1) % 0x100, AfterSize(part) + follow);
  }

  lemma LengthHigh(next: Sequence, uncompressed: nat, compressed: nat, part: Part, follow: seq<byte>, text: seq<byte>)
    requires Sized(part) && HeaderAt(Compressed0, next, uncompressed, compressed, part, follow, text)
    ensures text != [] && HeaderAt(Compressed1, next, uncompressed, 0x100 * text[0] as int, part, follow, text[1..])
  {
    hide AfterLength;
    var n := LengthOf(part) - 1;
    TwoFirst(n / 0x100, n % 0x100, AfterLength(part), follow);
    HeadOf(text, n / 0x100, [n % 0x100] + (AfterLength(part) + follow));
  }

  lemma LengthLow(next: Sequence, uncompressed: nat, compressed: nat, part: Part, follow: seq<byte>, text: seq<byte>)
    requires Sized(part) && HeaderAt(Compressed1, next, uncompressed, compressed, part, follow, text)
    ensures text != [] && compressed + text[0] as int + 1 == LengthOf(part) && text[1..] == AfterLength(part) + follow
    ensures next == DestinationOf(part) && (part.Packed? ==> uncompressed == part.size)
  {
    hide AfterLength;
    HeadOf(text, (LengthOf(part) - 1) % 0x100, AfterLength(part) + follow);
  }

  lemma CodeByte(part: Part, follow: seq<byte>, text: seq<byte>)
    requires part.Packed? && part.resets >= 2 && text == AfterLength(part) + follow
    ensures text != [] && text[0] == part.code && text[1..] == part.full + follow
  {
    assert AfterLength(part) + follow == [part.code] + (part.full + follow);
    HeadOf(text, part.code, part.full + follow);
  }

  /** Bytes in front of both sides. */
  lemma AgreeInFront(x: seq<byte>, a: seq<byte>, b: seq<byte>)
    requires Agreeing(a, b)
    ensures Agreeing(x + a, x + b)
  {
    if a <= b {
      assert x + a == (x + b)[..|x| + |a|];
    } else {
      assert x + b == (x + a)[..|x| + |b|];
    }
  }

  /** Agreement with a chunk and what follows is agreement with the chunk. */
  lemma AgreeFront(a: seq<byte>, x: seq<byte>, b: seq<byte>)
    requires Agreeing(a, x + b)
    ensures Agreeing(a, x)
  {
    assert x == (x + b)[..|x|];
  }

  /** As many bytes as both have are the same. */
  lemma AgreeTaken(a: seq<byte>, b: seq<byte>, k: nat)
    requires Agreeing(a, b) && k <= |a| && k <= |b|
    ensures a[..k] == b[..k]
  {
  }

  /** One control byte: the end of the stream, or the header of the next chunk begins. */
  lemma ControlTaken(e: Enc, parts: seq<Part>, target: seq<byte>, delivered: seq<byte>, text: seq<byte>, window: nat, u: nat, k: nat)
    requires AtControl(e, parts, target, delivered, text, window)
    ensures text != [] && (parts == [] ==> text[0] == 0 && target == delivered)
    ensures parts != [] ==>
              var p, tail, c := parts[0], parts[1..], text[0];
              && c != 0 && !Refused(c, e.needReset, e.needProps) && Sized(p) && AllSized(tail)
              && Ahead(Begun(OpenedBy(c, e), p), p, tail, target, delivered, window)
              && ((c >= 0x80 ==> u == c as int % 0x20 * 0x1_0000) ==>
                    HeaderAt(if c >= 0x80 then Uncompressed1 else Compressed0, Destination(c), u, k, p, StreamBytes(tail), text[1..]))
  {
    hide AtControl, Ahead, HeaderFits, Opened, OpenedBy, Begun, Agreeing, AfterControl, StreamBytes, HeaderAt, Destination, DestinationOf, ControlOf, Refused;
    AtControlSplits(e, parts, target, delivered, text, window);
    if parts != [] {
      var p, tail, c := parts[0], parts[1..], text[0];
      ControlMeans(e, p);
      if c >= 0x80 ==> u == c as int % 0x20 * 0x1_0000 {
        HeaderBegins(p, u, k, StreamBytes(tail), text[1..]);
      }
    }
  }

  /** The properties byte of a chunk that fits is one that the decoder accepts. */
  lemma CodeAccepted(e: Enc, part: Part, tail: seq<Part>, target: seq<byte>, delivered: seq<byte>, window: nat)
    requires Ahead(Begun(e, part), part, tail, target, delivered, window) && part.Packed? && part.resets >= 2
    ensures part.code <= 224 && PropsValid(PropsOf(part.code))
  {
    hide AllFits, MeaningOfAll, Closed, Meaning, AllFit, Standing;
    var p := PropsOf(part.code);
    assert p.pb == part.code as int / 45;
  }

  /** A stored chunk is over. */
  lemma StoredDone(e: Enc, part: Part, tail: seq<Part>, target: seq<byte>, delivered: seq<byte>, window: nat)
    requires part.Stored? && Ahead(e, part, tail, target, delivered, window)
    ensures AtControl(Closed(e, part, window), tail, target, delivered + part.data, StreamBytes(tail), window)
  {
    hide AllFits, MeaningOfAll, AtControl, StreamBytes;
    AheadDone(e, part, tail, target, delivered, delivered + part.data, window);
  }

  lemma BodyAllFit(e: Enc, part: Part, window: nat)
    requires BodyFits(e, part, window) && part.Packed?
    ensures AllFit(e.lz, part.sent, window)
  {
    hide AllFit, ApplyAll, Standing;
  }

  lemma AheadSized(e: Enc, part: Part, tail: seq<Part>, target: seq<byte>, delivered: seq<byte>, window: nat)
    requires Ahead(e, part, tail, target, delivered, window)
    ensures Sized(part)
  {
    hide AllFits, MeaningOfAll, Closed, Meaning, Genuine;
  }
}
