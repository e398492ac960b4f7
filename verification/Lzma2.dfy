/** The LZMA2 layer: chunks, resets, and input that arrives in pieces of any size. */
module Lzma2 {
  import opened Memory
  import opened RangeCoder
  import opened LzmaCode
  import opened LzmaSymbols
  import opened Dictionary
  import opened RangeDecoder
  import opened LzmaDecoder
  import opened LzmaStreams
  import opened LzmaHonest
  import opened Lzma2Format

  const IN_REQUIRED := 21

  lemma DecodedApplies(props: Props, window: nat, input: seq<byte>, c0: Coder, lz0: Lz, syms: seq<Symbol>, c: Coder, lz: Lz)
    requires Decoded(props, window, input, c0, lz0, syms, c, lz)
    ensures AllFit(lz0, syms, window) && ApplyAll(lz0, syms, window) == lz
  {
  }

  lemma FoundWasSent(props: Props, window: nat, chunk: seq<byte>, full: seq<byte>, c0: Coder, lz0: Lz, syms: seq<Symbol>,
                     at: Coder, lz: Lz, sent: seq<Symbol>)
    requires Decoded(props, window, chunk, c0, lz0, syms, at, lz) && Sound(at) && Normalize(at, chunk).pos <= |chunk|
    requires 5 <= |chunk| && chunk <= full && c0 == Fresh(c0.probs, chunk)
    requires AllFit(lz0, sent, window) && |syms| <= |sent| && AllFair(c0.probs) && |c0.probs| == PROBS_TOTAL
    requires PropsValid(props) && Contains(NarrowAll(Blank(c0.probs), AllOps(props, lz0, sent, window)), full)
    ensures syms == sent[..|syms|] && lz.hist <= ApplyAll(lz0, sent, window).hist
  {
    hide Contains, NarrowAll, Leading, LzValid, Takes, AllOps, AllFit, ApplyAll, Normalize;
    ExtendChunk(props, window, chunk, full, c0, lz0, syms, at, lz);
    LeadingStable(chunk, full, 5);
    DecodesWhatWasSent(props, lz0, c0.probs, sent, syms, window, full);
  }

  ghost predicate Comes(props: Props, window: nat, c0: Coder, lz0: Lz, syms: seq<Symbol>, full: seq<byte>, sent: seq<Symbol>, total: int,
                        text: seq<byte>) {
    && Promises(props, window, c0, lz0, full, sent, total) && total == |ApplyAll(lz0, sent, window).hist|
    && syms <= sent && Agreeing(text, full)
  }

  /** More symbols have been found. */
  lemma ComesOn(props: Props, window: nat, c0: Coder, lz0: Lz, syms: seq<Symbol>, full: seq<byte>, sent: seq<Symbol>, total: int,
                text: seq<byte>, syms': seq<Symbol>)
    requires Comes(props, window, c0, lz0, syms, full, sent, total, text) && syms' <= sent
    ensures Comes(props, window, c0, lz0, syms', full, sent, total, text)
  {
    hide Genuine;
  }

  lemma ComesPromises(props: Props, window: nat, c0: Coder, lz0: Lz, syms: seq<Symbol>, full: seq<byte>, sent: seq<Symbol>, total: int,
                      text: seq<byte>, room: int, whole: seq<byte>)
    requires Comes(props, window, c0, lz0, syms, full, sent, total, text) && room <= total && whole <= text && |whole| <= |full|
    ensures Promises(props, window, c0, lz0, full, sent, room) && syms <= sent && whole <= full
  {
    hide Genuine;
  }

  lemma Rejoin(chunk: seq<byte>, chunk': seq<byte>, input: seq<byte>, i: nat, j: nat)
    requires i <= j <= |input| && chunk' == chunk + input[i..j]
    ensures chunk' + input[j..] == chunk + input[i..]
  {
  }

  /** The bytes at hand are the chunk's first, and no more than they can be read unless they are all. */
  predicate InReach(whole: seq<byte>, full: seq<byte>, reach: nat, end: nat) {
    whole <= full && (|whole| == |full| || reach <= end)
  }

  class Decoder {
    const rc: Rc
    const dict: Dict
    const lzma: Lzma
    var sequence: Sequence
    var next: Sequence
    var uncompressed: nat
    var compressed: nat
    var needDictReset: bool
    var needProps: bool
    var temp: seq<byte>
    var tempSize: nat

    /** The bytes of the current LZMA chunk so far, how many of them the range decoder has taken, and what they spell. */
    ghost var chunk: seq<byte>
    ghost var used: nat
    ghost var c0: Coder
    ghost var lz0: Lz
    ghost var syms: seq<Symbol>
    ghost var at: Coder

    /** Everything that has gone to the output. */
    ghost var delivered: seq<byte>

    constructor (buf: array<byte>, size: nat)
      requires 0 < size <= buf.Length && size % 16 == 0
      ensures Valid() && dict.buf == buf && dict.end == size && fresh(rc) && fresh(dict) && fresh(lzma)
      ensures delivered == [] && needDictReset
    {
      var registers := new Rc();
      var ring := new Dict(buf, size);
      rc, dict := registers, ring;
      lzma := new Lzma(registers, ring);
      sequence, next := Control, Control;
      uncompressed, compressed := 0, 0;
      needDictReset, needProps := true, true;
      temp, tempSize := seq(63, _ => 0), 0;
      delivered := [];
    }

    ghost function Regs(pos: nat): Coder
      reads rc
    {
      Coder(rc.range, rc.code, pos, rc.probs)
    }

    /** The range decoder and the dictionary stand where the chunk's bytes have led them. */
    ghost predicate Following()
      reads this`chunk, this`used, this`c0, this`lz0, this`syms, this`at, rc, dict, dict.buf, lzma
    {
      && lzma.rc == rc && lzma.dict == dict && |rc.probs| == PROBS_TOTAL
      && lzma.Ready() && lzma.Pending() && Sound(at)
      && Decoded(lzma.props, dict.end, chunk, c0, lz0, syms, at, lzma.Ahead())
      && Normalize(at, chunk) == Regs(used)
    }

    ghost predicate InChunk()
      reads this`chunk, this`used, this`c0, this`lz0, this`syms, this`at, this`temp, this`tempSize, this`compressed
      reads rc, dict, dict.buf, lzma
    {
      && Following()
      && |temp| == 63 && tempSize < IN_REQUIRED && tempSize <= compressed
      && used + tempSize == |chunk| && temp[..tempSize] == chunk[used..]
    }

    /** How long the history may become before the dictionary limit is reached. */
    ghost function Room(): int
      reads dict
    {
      |dict.hist| + (dict.limit - dict.pos)
    }

    /**
     * The chunk in progress is the whole of what an encoder wrote for `sent`, the bytes that have come so far
     * are its bytes, and with it the history has `total` bytes.
     */
    ghost predicate Due(full: seq<byte>, sent: seq<Symbol>, b: XzBuf, total: int)
      requires b.Valid()
      reads this`c0, this`lz0, this`syms, this`chunk, this`used, this`compressed, lzma, b
    {
      Comes(lzma.props, dict.end, c0, lz0, syms, full, sent, total, chunk + b.input[b.inPos..]) && |full| == used + compressed
    }

    /** One call of `lzma_main` on a buffer that holds the chunk's next bytes from `from` on. */
    method Pump(buffer: seq<byte>, from: nat, limit: nat) returns (ok: bool, ghost more: seq<Symbol>, ghost last: Coder, ghost bad: Symbol)
      requires Following() && dict.pos <= dict.limit && from <= limit && limit + IN_REQUIRED <= |buffer|
      modifies rc, lzma`len, lzma`state, lzma`rep0, lzma`rep1, lzma`rep2, lzma`rep3, dict`pos, dict`full, dict`hist, dict.buf
      ensures lzma.rc == rc && lzma.dict == dict && |rc.probs| == PROBS_TOTAL && dict.Valid()
      ensures rc.inPos <= limit + IN_REQUIRED
      ensures ok ==> lzma.Ready() && lzma.Pending() && Sound(last) && from <= last.pos
      ensures ok ==> Decoded(lzma.props, dict.end, buffer, old(Regs(from)), old(lzma.Ahead()), more, last, lzma.Ahead())
      ensures ok ==> Normalize(last, buffer) == Regs(rc.inPos)
      ensures ok ==> old(dict.pos) <= dict.pos <= dict.limit && (dict.pos < dict.limit ==> rc.inPos > limit && lzma.len == 0)
      ensures ok && old(dict.pos) < dict.limit ==> old(dict.pos) < dict.pos
      ensures ok ==> Wanted(old(lzma.Ahead()), more, dict.end, |old(dict.hist)| + (dict.limit - old(dict.pos)))
      ensures !ok ==> Blocked(lzma.props, dict.end, buffer, old(Regs(from)), old(lzma.Ahead()), more, bad,
                              |old(dict.hist)| + (dict.limit - old(dict.pos)), limit + IN_REQUIRED)
    {
      hide Decoded, Blocked, Wanted, Copy, Dict.Valid, LzValid, AllFair;
      rc.input, rc.inPos, rc.inLimit := buffer, from, limit;
      ok, more, bad, last := lzma.RunSymbols();
      if ok {
        LastIsLater(lzma.props, dict.end, buffer, old(Regs(from)), old(lzma.Ahead()), more, last, lzma.Ahead());
      }
    }

    lemma FollowingFacts()
      requires Following()
      ensures lzma.rc == rc && lzma.dict == dict && dict.Valid() && lzma.Pending() && Sound(at)
      ensures Decoded(lzma.props, dict.end, chunk, c0, lz0, syms, at, lzma.Ahead()) && Normalize(at, chunk) == Regs(used)
    {
    }

    /** Book what a run over a buffer has added to the chunk. */
    ghost method Book(buffer: seq<byte>, from: nat, grown: seq<byte>, lz: Lz, more: seq<Symbol>, last: Coder)
      requires lzma.rc == rc && lzma.dict == dict && |rc.probs| == PROBS_TOTAL && lzma.Ready() && lzma.Pending()
      requires Sound(at) && Decoded(lzma.props, dict.end, chunk, c0, lz0, syms, at, lz)
      requires Normalize(at, chunk).pos == used <= |chunk| && chunk <= grown
      requires Sound(last) && from <= last.pos && Normalize(last, buffer) == Regs(rc.inPos)
      requires Decoded(lzma.props, dict.end, buffer, Normalize(at, chunk).(pos := from), lz, more, last, lzma.Ahead())
      requires rc.inPos <= |buffer| && used + (rc.inPos - from) <= |grown|
      requires from <= rc.inPos && buffer[from..rc.inPos] == grown[used..used + (rc.inPos - from)]
      modifies this`chunk, this`used, this`syms, this`at
      ensures Following() && chunk == grown && used == old(used) + (rc.inPos - from) && syms == old(syms) + more
    {
      hide Decoded, Dict.Valid, Normalize, Agree, Copy, LzValid;
      AgreeBytes(buffer, from, grown, used, rc.inPos - from);
      Absorb(lzma.props, dict.end, chunk, grown, c0, lz0, syms, at, lz, buffer, from, more, last, lzma.Ahead());
      var delta := used - from;
      at := if more == [] then at else Moved(last, delta);
      chunk, used, syms := grown, used + (rc.inPos - from), syms + more;
    }

    lemma InChunkFacts()
      requires InChunk()
      ensures Following() && dict.Valid() && tempSize <= compressed && used + tempSize == |chunk|
      ensures |temp| == 63 && tempSize < IN_REQUIRED
    {
    }

    /** Top up the bytes kept back; `wait` says that more input is needed before a symbol can be decoded. */
    method TopUp(b: XzBuf) returns (tmp: nat, limit: nat, wait: bool)
      requires InChunk() && b.Valid()
      modifies this`temp
      ensures |temp| == 63 && b.inPos + tmp <= |b.input| && tempSize + tmp <= compressed && tempSize + tmp <= 42
      ensures temp[..tempSize + tmp] == chunk[used..] + b.input[b.inPos..b.inPos + tmp]
      ensures wait ==> b.inPos + tmp == |b.input| && tempSize + tmp < IN_REQUIRED && tempSize + tmp < compressed
      ensures !wait ==> limit + IN_REQUIRED <= 63 && (limit == tempSize + tmp == compressed || limit + IN_REQUIRED == tempSize + tmp)
    {
      hide Following;
      var inAvail := |b.input| - b.inPos;
      tmp := 2 * IN_REQUIRED - tempSize;
      if tmp > compressed - tempSize {
        tmp := compressed - tempSize;
      }
      if tmp > inAvail {
        tmp := inAvail;
      }
      var size := tempSize + tmp;
      var buffer := temp[..tempSize] + b.input[b.inPos..b.inPos + tmp];
      limit, wait := 0, false;
      if size == compressed {
        temp := buffer + seq(63 - size, _ => 0);
        limit := size;
      } else {
        temp := buffer + temp[size..];
        if size < IN_REQUIRED {
          wait := true;
        } else {
          limit := size - IN_REQUIRED;
        }
      }
    }

    /** Input bytes join the chunk without being decoded yet. */
    ghost method Join(more: seq<byte>)
      requires Following() && used <= |chunk|
      modifies this`chunk
      ensures Following() && chunk == old(chunk) + more
    {
      hide Decoded, Dict.Valid, Normalize, Copy, LzValid;
      ExtendChunk(lzma.props, dict.end, chunk, chunk + more, c0, lz0, syms, at, lzma.Ahead());
      chunk := chunk + more;
    }

    /** All of the input joins the bytes kept back, and still they are too few. */
    method Await(b: XzBuf, tmp: nat)
      requires Following() && b.Valid() && |temp| == 63 && used + tempSize == |chunk|
      requires b.inPos + tmp == |b.input| && tempSize + tmp < IN_REQUIRED && tempSize + tmp < compressed
      requires temp[..tempSize + tmp] == chunk[used..] + b.input[b.inPos..b.inPos + tmp]
      modifies this`tempSize, this`chunk, b`inPos
      ensures InChunk() && b.Valid() && b.inPos == |b.input| && tempSize < compressed
      ensures chunk == old(chunk) + b.input[old(b.inPos)..]
    {
      hide Following;
      Join(b.input[b.inPos..b.inPos + tmp]);
      tempSize := tempSize + tmp;
      b.inPos := b.inPos + tmp;
    }

    /**
     * `lzma_main` on a buffer whose bytes `[from, from + avail)` are the chunk's next ones, and the check
     * behind it that nothing beyond them was taken.
     */
    method Feed(buffer: seq<byte>, from: nat, limit: nat, avail: nat, ghost whole: seq<byte>) returns (ok: bool)
      requires Following() && dict.pos <= dict.limit && from <= limit && limit + IN_REQUIRED <= |buffer|
      requires used <= |chunk| && chunk <= whole && used + avail == |whole|
      requires from + avail <= |buffer| && buffer[from..from + avail] == whole[used..]
      modifies this`chunk, this`used, this`syms, this`at
      modifies rc, lzma`len, lzma`state, lzma`rep0, lzma`rep1, lzma`rep2, lzma`rep3, dict`pos, dict`full, dict`hist, dict.buf
      ensures dict.Valid() && rc.inPos <= limit + IN_REQUIRED
      ensures ok ==> Following() && from <= rc.inPos <= from + avail && used == old(used) + (rc.inPos - from)
      ensures ok ==> chunk == whole[..if |old(chunk)| < used then used else |old(chunk)|] && old(syms) <= syms
      ensures ok ==> old(dict.pos) <= dict.pos <= dict.limit && (dict.pos < dict.limit ==> rc.inPos > limit && lzma.len == 0)
      ensures ok && old(dict.pos) < dict.limit ==> old(dict.pos) < dict.pos
      ensures ok ==> Room() == old(Room())
      ensures forall full, sent ::
                Promises(lzma.props, dict.end, c0, lz0, full, sent, old(Room())) && old(syms) <= sent && InReach(whole, full, limit + IN_REQUIRED, from + avail)
                ==> ok && syms <= sent
    {
      hide Following, Dict.Valid, Decoded, Blocked, Wanted, Normalize, Lzma.Ready, Lzma.Ahead, Copy, Lzma.Pending, Promises;
      FollowingFacts();
      dict.Lengths();
      ghost var lz, room := lzma.Ahead(), Room();
      ghost var more, last, bad;
      ok, more, last, bad := Pump(buffer, from, limit);
      dict.Lengths();
      if ok {
        forall full, sent | Promises(lzma.props, dict.end, c0, lz0, full, sent, room) && syms <= sent
                            && InReach(whole, full, limit + IN_REQUIRED, from + avail)
          ensures rc.inPos <= from + avail && syms + more <= sent
        {
          FoundInFeed(buffer, from, limit, avail, whole, lz, more, last, lzma.Ahead(), room, full, sent);
        }
        if rc.inPos > from + avail {
          ok := false;
        } else {
          LaterStill(last, buffer);
          ghost var end := used + (rc.inPos - from);
          ghost var grown := whole[..if |chunk| < end then end else |chunk|];
          Slices(buffer, from, rc.inPos - from, avail, whole, used);
          Book(buffer, from, grown, lz, more, last);
        }
      } else {
        forall full, sent | InReach(whole, full, limit + IN_REQUIRED, from + avail)
          ensures !Promises(lzma.props, dict.end, c0, lz0, full, sent, room)
        {
          BlockedIsNotGenuine(lzma.props, dict.end, chunk, c0, lz0, syms, at, lz, buffer, from, avail, whole, more, bad, room,
                              limit + IN_REQUIRED, full, sent);
        }
      }
    }

    lemma FoundInFeed(buffer: seq<byte>, from: nat, limit: nat, avail: nat, whole: seq<byte>, lz: Lz, more: seq<Symbol>, last: Coder, lz': Lz,
                      room: int, full: seq<byte>, sent: seq<Symbol>)
      requires Decoded(lzma.props, dict.end, chunk, c0, lz0, syms, at, lz) && Sound(at) && Normalize(at, chunk).pos == used <= |chunk| && chunk <= whole
      requires Decoded(lzma.props, dict.end, buffer, Normalize(at, chunk).(pos := from), lz, more, last, lz') && Sound(last) && from <= last.pos
      requires Wanted(lz, more, dict.end, room) && Normalize(last, buffer).pos == rc.inPos <= limit + IN_REQUIRED
      requires from + avail <= |buffer| && used + avail == |whole| && buffer[from..from + avail] == whole[used..]
      requires Promises(lzma.props, dict.end, c0, lz0, full, sent, room) && syms <= sent
      requires InReach(whole, full, limit + IN_REQUIRED, from + avail)
      ensures rc.inPos <= from + avail && syms + more <= sent
    {
      hide Decoded, Wanted, Normalize, Promises;
      if |whole| == |full| || rc.inPos <= from + avail {
        RunFindsSent(lzma.props, dict.end, chunk, c0, lz0, syms, at, lz, buffer, from, avail, whole, more, last, lz', room, full, sent);
      }
    }

    /** The same, seen from a chunk of `length` bytes whose bytes begin with `text`. */
    method Supply(buffer: seq<byte>, from: nat, limit: nat, avail: nat, ghost whole: seq<byte>, ghost text: seq<byte>, ghost length: nat)
      returns (ok: bool)
      requires Following() && dict.pos <= dict.limit && from <= limit && limit + IN_REQUIRED <= |buffer|
      requires used <= |chunk| && chunk <= whole && used + avail == |whole|
      requires from + avail <= |buffer| && buffer[from..from + avail] == whole[used..]
      requires whole <= text && |whole| <= length && (|whole| == length || limit + IN_REQUIRED <= from + avail)
      modifies this`chunk, this`used, this`syms, this`at
      modifies rc, lzma`len, lzma`state, lzma`rep0, lzma`rep1, lzma`rep2, lzma`rep3, dict`pos, dict`full, dict`hist, dict.buf
      ensures dict.Valid() && rc.inPos <= limit + IN_REQUIRED
      ensures ok ==> Following() && from <= rc.inPos <= from + avail && used == old(used) + (rc.inPos - from)
      ensures ok ==> chunk == whole[..if |old(chunk)| < used then used else |old(chunk)|] && old(syms) <= syms
      ensures ok ==> old(dict.pos) <= dict.pos <= dict.limit && (dict.pos < dict.limit ==> rc.inPos > limit && lzma.len == 0)
      ensures ok && old(dict.pos) < dict.limit ==> old(dict.pos) < dict.pos
      ensures ok ==> Room() == old(Room())
      ensures !ok ==> forall full, sent, total :: old(Comes(lzma.props, dict.end, c0, lz0, syms, full, sent, total, text)) && |full| == length ==>
                total < old(Room())
      ensures ok ==> forall full, sent, total :: old(Comes(lzma.props, dict.end, c0, lz0, syms, full, sent, total, text)) && |full| == length ==>
                total < old(Room()) || Comes(lzma.props, dict.end, c0, lz0, syms, full, sent, total, text)
    {
      hide Following, Dict.Valid, Comes, Promises;
      ghost var room := Room();
      ok := Feed(buffer, from, limit, avail, whole);
      forall full, sent, total | old(Comes(lzma.props, dict.end, c0, lz0, syms, full, sent, total, text)) && |full| == length && room <= total
        ensures ok && Comes(lzma.props, dict.end, c0, lz0, syms, full, sent, total, text)
      {
        ComesPromises(lzma.props, dict.end, c0, lz0, old(syms), full, sent, total, text, room, whole);
        ComesOn(lzma.props, dict.end, c0, lz0, old(syms), full, sent, total, text, syms);
      }
    }

    /** Decode from the bytes kept back, after `tmp` bytes of the input have joined them. */
    method Digest(b: XzBuf, tmp: nat, limit: nat) returns (ok: bool, done: bool)
      requires Following() && b.Valid() && dict.pos <= dict.limit && |temp| == 63 && tempSize < IN_REQUIRED && used + tempSize == |chunk|
      requires b.inPos + tmp <= |b.input| && tempSize + tmp <= compressed && tempSize + tmp <= 42
      requires temp[..tempSize + tmp] == chunk[used..] + b.input[b.inPos..b.inPos + tmp]
      requires limit + IN_REQUIRED <= 63 && (limit == tempSize + tmp == compressed || limit + IN_REQUIRED == tempSize + tmp)
      modifies this`temp, this`tempSize, this`compressed, this`chunk, this`used, this`syms, this`at, b`inPos
      modifies rc, lzma`len, lzma`state, lzma`rep0, lzma`rep1, lzma`rep2, lzma`rep3, dict`pos, dict`full, dict`hist, dict.buf
      ensures b.Valid() && dict.Valid()
      ensures ok ==> InChunk() && Advanced(old(chunk), chunk, old(syms), syms, b.input, old(b.inPos), b.inPos)
      ensures ok ==> used + compressed == old(used) + old(compressed)
      ensures ok ==> old(dict.pos) <= dict.pos <= dict.limit && (!done ==> tempSize == 0) && Room() == old(Room())
      ensures ok && old(dict.pos) < dict.limit ==> old(dict.pos) < dict.pos
      ensures forall full, sent, total :: old(Due(full, sent, b, total)) && old(Room()) <= total ==> ok && Due(full, sent, b, total)
    {
      hide InChunk, Following, Dict.Valid, Comes;
      ghost var text := chunk + b.input[b.inPos..];
      ghost var whole := chunk + b.input[b.inPos..b.inPos + tmp];
      ok := Supply(temp, 0, limit, tempSize + tmp, whole, text, used + compressed);
      if !ok {
        return false, true;
      }
      done := Release(b, old(chunk), tmp);
      Rejoin(old(chunk), chunk, b.input, old(b.inPos), b.inPos);
    }

    /** The first part of `lzma2_lzma`: decode from the bytes kept back, topped up from the input. */
    method FromTemp(b: XzBuf) returns (ok: bool, done: bool)
      requires InChunk() && b.Valid() && dict.pos <= dict.limit && (tempSize > 0 || compressed == 0)
      modifies this`temp, this`tempSize, this`compressed, this`chunk, this`used, this`syms, this`at, b`inPos
      modifies rc, lzma`len, lzma`state, lzma`rep0, lzma`rep1, lzma`rep2, lzma`rep3, dict`pos, dict`full, dict`hist, dict.buf
      ensures b.Valid() && dict.Valid()
      ensures ok ==> InChunk() && Advanced(old(chunk), chunk, old(syms), syms, b.input, old(b.inPos), b.inPos)
      ensures ok ==> used + compressed == old(used) + old(compressed)
      ensures ok ==> old(dict.pos) <= dict.pos <= dict.limit && (!done ==> tempSize == 0) && Room() == old(Room())
      ensures ok && old(dict.pos) < dict.limit ==> old(dict.pos) < dict.pos || (b.inPos == |b.input| && tempSize < compressed)
      ensures forall full, sent, total :: old(Due(full, sent, b, total)) && old(Room()) <= total ==> ok && Due(full, sent, b, total)
    {
      hide InChunk, Following, Dict.Valid, Comes;
      InChunkFacts();
      var tmp, limit, wait := TopUp(b);
      if wait {
        Await(b, tmp);
        Rejoin(old(chunk), chunk, b.input, old(b.inPos), b.inPos);
        ok, done := true, true;
      } else {
        assert forall full, sent, total :: old(Due(full, sent, b, total)) ==> Due(full, sent, b, total);
        ok, done := Digest(b, tmp, limit);
      }
    }

    /** Whatever was taken from the bytes kept back leaves them; the rest came from the input. */
    method Release(b: XzBuf, ghost chunk0: seq<byte>, ghost tmp: nat) returns (done: bool)
      requires Following() && b.Valid() && b.inPos + tmp <= |b.input| && |temp| == 63 && tempSize < IN_REQUIRED
      requires tempSize <= |chunk0| && tempSize + tmp <= compressed && rc.inPos <= tempSize + tmp <= 63
      requires temp[..tempSize + tmp] == chunk0[|chunk0| - tempSize..] + b.input[b.inPos..b.inPos + tmp]
      requires used == |chunk0| - tempSize + rc.inPos
      requires chunk == (chunk0 + b.input[b.inPos..b.inPos + tmp])[..if |chunk0| < used then used else |chunk0|]
      modifies this`temp, this`tempSize, this`compressed, b`inPos
      ensures InChunk() && b.Valid() && old(b.inPos) <= b.inPos && chunk == chunk0 + b.input[old(b.inPos)..b.inPos]
      ensures compressed == old(compressed) - rc.inPos && (!done ==> tempSize == 0)
    {
      hide Following;
      compressed := compressed - rc.inPos;
      CutTemp(temp, tempSize, rc.inPos, chunk0, b.input[b.inPos..b.inPos + tmp]);
      if rc.inPos < tempSize {
        tempSize := tempSize - rc.inPos;
        temp := temp[rc.inPos..rc.inPos + tempSize] + temp[tempSize..];
        done := true;
      } else {
        b.inPos := b.inPos + (rc.inPos - tempSize);
        tempSize, done := 0, false;
      }
    }

    /** The second part of `lzma2_lzma`: decode straight from the input. */
    method FromInput(b: XzBuf) returns (ok: bool)
      requires InChunk() && b.Valid() && dict.pos <= dict.limit && tempSize == 0 && b.inPos + IN_REQUIRED <= |b.input|
      modifies this`compressed, this`chunk, this`used, this`syms, this`at, b`inPos
      modifies rc, lzma`len, lzma`state, lzma`rep0, lzma`rep1, lzma`rep2, lzma`rep3, dict`pos, dict`full, dict`hist, dict.buf
      ensures b.Valid() && dict.Valid()
      ensures ok ==> InChunk() && Advanced(old(chunk), chunk, old(syms), syms, b.input, old(b.inPos), b.inPos)
      ensures ok ==> used + compressed == old(used) + old(compressed)
      ensures ok ==> old(dict.pos) <= dict.pos <= dict.limit
      ensures ok && old(dict.pos) < dict.limit ==> old(dict.pos) < dict.pos
      ensures forall full, sent, total :: old(Due(full, sent, b, total)) && old(Room()) <= total ==> ok && Due(full, sent, b, total)
    {
      hide Following, Dict.Valid, Comes;
      var inAvail := |b.input| - b.inPos;
      var limit := if inAvail >= compressed + IN_REQUIRED then b.inPos + compressed else |b.input| - IN_REQUIRED;
      var avail := if inAvail < compressed then inAvail else compressed;
      ghost var part := b.input[b.inPos..b.inPos + avail];
      ghost var text, whole := chunk + b.input[b.inPos..], chunk + part;
      assert whole[used..] == part;
      ok := Supply(b.input, b.inPos, limit, avail, whole, text, used + compressed);
      if ok {
        ghost var taken := rc.inPos - b.inPos;
        assert (old(chunk) + part)[..|old(chunk)| + taken] == old(chunk) + b.input[b.inPos..rc.inPos];
        compressed := compressed - (rc.inPos - b.inPos);
        b.inPos := rc.inPos;
        Rejoin(old(chunk), chunk, b.input, old(b.inPos), b.inPos);
      }
    }

    /** The third part of `lzma2_lzma`: too few bytes to decode safely are kept back. */
    method KeepBack(b: XzBuf)
      requires InChunk() && b.Valid() && tempSize == 0 && |b.input| - b.inPos < IN_REQUIRED
      modifies this`temp, this`tempSize, this`chunk, b`inPos
      ensures InChunk() && b.Valid() && old(b.inPos) <= b.inPos && chunk == old(chunk) + b.input[old(b.inPos)..b.inPos]
      ensures b.inPos == |b.input| || tempSize == compressed
      ensures tempSize == b.inPos - old(b.inPos)
    {
      hide Following;
      var inAvail := |b.input| - b.inPos;
      if inAvail > compressed {
        inAvail := compressed;
      }
      ghost var part := b.input[b.inPos..b.inPos + inAvail];
      assert (chunk + part)[used..] == part;
      Join(part);
      temp := b.input[b.inPos..b.inPos + inAvail] + temp[inAvail..];
      tempSize := inAvail;
      b.inPos := b.inPos + inAvail;
    }

    /** The second and the third part of `lzma2_lzma`. */
    method LzmaDirect(b: XzBuf) returns (ok: bool)
      requires InChunk() && b.Valid() && dict.pos <= dict.limit && tempSize == 0
      modifies this`temp, this`tempSize, this`compressed, this`chunk, this`used, this`syms, this`at, b`inPos
      modifies rc, lzma`len, lzma`state, lzma`rep0, lzma`rep1, lzma`rep2, lzma`rep3, dict`pos, dict`full, dict`hist, dict.buf
      ensures b.Valid() && dict.Valid()
      ensures ok ==> InChunk() && Advanced(old(chunk), chunk, old(syms), syms, b.input, old(b.inPos), b.inPos)
      ensures ok ==> used + compressed == old(used) + old(compressed) && old(dict.pos) <= dict.pos <= dict.limit
      ensures ok && old(dict.pos) < dict.limit && old(compressed) > 0 ==>
                old(dict.pos) < dict.pos || old(b.inPos) < b.inPos || (b.inPos == |b.input| && tempSize < compressed)
      ensures forall full, sent, total :: old(Due(full, sent, b, total)) && old(Room()) <= total ==> ok && Due(full, sent, b, total)
    {
      hide InChunk, Following, Dict.Valid, Advanced, Comes;
      InChunkFacts();
      AdvancedNone(chunk, syms, b.input, b.inPos);
      if |b.input| - b.inPos >= IN_REQUIRED {
        ok := FromInput(b);
        if !ok {
          return;
        }
      }
      ok := true;
      if |b.input| - b.inPos < IN_REQUIRED {
        ghost var i, c := b.inPos, chunk;
        InChunkFacts();
        KeepBack(b);
        InChunkFacts();
        Rejoin(c, chunk, b.input, i, b.inPos);
        AdvancedMore(old(chunk), c, chunk, old(syms), syms, syms, b.input, old(b.inPos), i, b.inPos);
      }
    }

    /**
     * `lzma2_lzma`: however the input is cut up, the range decoder takes the chunk's bytes one after the
     * other, and what it has decoded is what they spell.
     */
    method LzmaChunk(b: XzBuf) returns (ok: bool)
      requires InChunk() && b.Valid() && dict.pos <= dict.limit
      modifies this`temp, this`tempSize, this`compressed, this`chunk, this`used, this`syms, this`at, b`inPos
      modifies rc, lzma`len, lzma`state, lzma`rep0, lzma`rep1, lzma`rep2, lzma`rep3, dict`pos, dict`full, dict`hist, dict.buf
      ensures b.Valid() && dict.Valid()
      ensures ok ==> InChunk() && Advanced(old(chunk), chunk, old(syms), syms, b.input, old(b.inPos), b.inPos)
      ensures ok ==> used + compressed == old(used) + old(compressed) && old(dict.pos) <= dict.pos <= dict.limit
      ensures ok && old(dict.pos) < dict.limit ==>
                old(dict.pos) < dict.pos || old(b.inPos) < b.inPos || (b.inPos == |b.input| && tempSize < compressed)
      ensures forall full, sent, total :: old(Due(full, sent, b, total)) && old(Room()) <= total ==> ok && Due(full, sent, b, total)
    {
      hide InChunk, Following, Dict.Valid, Advanced, Comes;
      InChunkFacts();
      AdvancedNone(chunk, syms, b.input, b.inPos);
      if tempSize > 0 || compressed == 0 {
        var done;
        ok, done := FromTemp(b);
        if !ok || done {
          return;
        }
      }
      ghost var i, c, y := b.inPos, chunk, syms;
      ok := LzmaDirect(b);
      if ok {
        AdvancedTrans(old(chunk), c, chunk, old(syms), y, syms, b.input, old(b.inPos), i, b.inPos);
      }
    }

    // -------------------------------------------------------------------------------------------
    // The control layer

    /** What the decoder knows between two chunks. */
    ghost function EncNow(): Enc
      reads this`needDictReset, this`needProps, rc, dict, lzma
    {
      Enc(Lz(dict.hist, lzma.state, lzma.rep0, lzma.rep1, lzma.rep2, lzma.rep3), lzma.props, rc.probs, needDictReset, needProps)
    }

    ghost predicate Base()
      reads this`temp, this`delivered, rc, dict, dict.buf, lzma
    {
      && lzma.rc == rc && lzma.dict == dict && |rc.probs| == PROBS_TOTAL && AllFair(rc.probs)
      && dict.Valid() && dict.start == dict.pos < dict.end && lzma.MasksValid()
      && |temp| == 63 && EndsWith(delivered, dict.hist) && dict.sent == dict.hist
    }

    /** No chunk is being decoded: nothing is kept back and the range decoder is reset. */
    ghost predicate Idle()
      reads this`temp, this`tempSize, this`delivered, rc, dict, dict.buf, lzma
    {
      Base() && tempSize == 0 && lzma.len == 0 && rc.range == FIRST && rc.code == 0 && rc.initLeft == 5
    }

    /** The LZMA state fits the dictionary: unless the last symbol was a literal, its distance reaches back to a byte. */
    ghost predicate Fitting()
      reads dict, lzma
    {
      lzma.dict == dict && LzValid(lzma.View(), dict.end)
    }

    ghost predicate Starting()
      reads this, rc, dict, dict.buf, lzma
    {
      && Base() && Fitting() && tempSize == 0 && lzma.len == 0 && rc.range == FIRST && 0 < uncompressed
      && rc.initLeft <= 5 && |chunk| == 5 - rc.initLeft && rc.code == Leading(chunk, 5 - rc.initLeft) % WORD
    }

    ghost predicate Running()
      reads this, rc, dict, dict.buf, lzma
    {
      Base() && InChunk() && 0 < uncompressed && 5 <= |chunk| && c0 == Fresh(c0.probs, chunk)
    }

    /** What holds between two steps, by where the control layer stands. */
    ghost predicate Valid()
      reads this, rc, dict, dict.buf, lzma
    {
      match sequence
      case Control => Idle() && (needProps || Fitting())
      case Uncompressed1 => Idle() && Heading() && next != CopyRaw
      case Uncompressed2 => Idle() && Heading() && next != CopyRaw
      case Compressed0 => Idle() && Heading() && (next != CopyRaw ==> 0 < uncompressed)
      case Compressed1 => Idle() && Heading() && (next != CopyRaw ==> 0 < uncompressed)
      case Properties => Idle() && 0 < uncompressed
      case Prepare => Starting() && 0 < rc.initLeft
      case RunLzma => Running()
      case CopyRaw => Idle() && (needProps || Fitting()) && 0 < compressed
    }

    /** The header leads to a place that what is known so far allows. */
    ghost predicate Heading()
      reads this, rc, dict, dict.buf, lzma
    {
      || next == Properties
      || (next == Prepare && !needProps && Fitting())
      || (next == CopyRaw && (needProps || Fitting()))
    }

    /** `lzma_reset`: the probabilities, the recent distances and the range decoder start over. */
    method ResetState()
      requires Idle()
      modifies rc, lzma
      ensures Idle() && Fitting() && lzma.View() == Lz(dict.hist, 0, 0, 0, 0, 0) && lzma.props == old(lzma.props)
      ensures rc.probs == Unbiased()
    {
      hide Dict.Valid;
      lzma.state, lzma.rep0, lzma.rep1, lzma.rep2, lzma.rep3, lzma.len := 0, 0, 0, 0, 0, 0;
      rc.probs := seq(PROBS_TOTAL, _ => 1024);
      ResetRange();
    }

    /** `rc_reset` */
    method ResetRange()
      modifies rc`range, rc`code, rc`initLeft
      ensures rc.range == FIRST && rc.code == 0 && rc.initLeft == 5
    {
      rc.range, rc.code, rc.initLeft := FIRST, 0, 5;
    }

    method ResetDict()
      requires Idle()
      modifies dict
      ensures Idle() && dict.hist == []
    {
      assert 0 < dict.end <= dict.buf.Length && dict.end % 16 == 0;
      dict.Reset();
    }

    /** A dictionary reset, if the control byte asks for one; without any so far it must. */
    method DictFor(c: int) returns (ok: bool)
      requires Idle() && c != 0 && (needProps || Fitting())
      modifies this`needProps, this`needDictReset, dict
      ensures Idle() && (ok <==> !(old(needDictReset) && c != 1 && c < 0xE0))
      ensures ok ==> !needDictReset && (needProps || Fitting())
      ensures ok ==> EncNow() == if c >= 0xE0 || c == 1 then NewDict(old(EncNow())) else old(EncNow())
    {
      hide Idle, Fitting;
      if c >= 0xE0 || c == 1 {
        needProps, needDictReset := true, false;
        ResetDict();
      } else if needDictReset {
        return false;
      }
      ok := true;
    }

    /** What the control byte of a compressed chunk announces and resets; without properties so far it must bring some. */
    method PackedFor(c: int) returns (ok: bool)
      requires Idle() && 0x80 <= c < 0x100 && (needProps || Fitting())
      modifies this`uncompressed, this`sequence, this`next, this`needProps, rc, lzma
      ensures ok <==> c >= 0xC0 || !old(needProps)
      ensures ok ==> Idle() && Heading() && sequence == Uncompressed1 && next == (if c >= 0xC0 then Properties else Prepare)
      ensures ok ==> uncompressed == c % 0x20 * 0x1_0000
      ensures ok ==> EncNow() == if c >= 0xC0 then old(EncNow()).(needProps := false) else if c >= 0xA0 then NewState(old(EncNow())) else old(EncNow())
    {
      hide Idle, Fitting;
      uncompressed := c % 0x20 * 0x1_0000;
      sequence := Uncompressed1;
      if c >= 0xC0 {
        needProps := false;
        next := Properties;
      } else if needProps {
        return false;
      } else {
        next := Prepare;
        if c >= 0xA0 {
          assert lzma.dict == dict by { CopyFacts(); }
          ResetState();
        }
      }
      ok := true;
    }

    /** `SEQ_CONTROL`: what the control byte of a chunk demands and allows. */
    method ControlByte(b: XzBuf) returns (ret: Ret)
      requires Valid() && sequence == Control && b.Valid() && b.inPos < |b.input|
      modifies this`uncompressed, this`sequence, this`next, this`needProps, this`needDictReset, rc, dict, lzma, b`inPos
      ensures b.Valid() && b.inPos == old(b.inPos) + 1
      ensures var c := b.input[old(b.inPos)];
              && (ret == StreamEnd <==> c == 0) && ret != Okay
              && (ret == DataError <==> Refused(c, old(needDictReset), old(needProps)))
              && (ret != DataError ==> Valid()) && (ret == More ==> (c >= 0x80 ==> uncompressed == c as int % 0x20 * 0x1_0000))
              && (ret == More ==> EncNow() == OpenedBy(c, old(EncNow())))
              && (ret == More ==> !needDictReset && next == Destination(c) && sequence == (if c >= 0x80 then Uncompressed1 else Compressed0))
    {
      hide Idle, Fitting, NewState;
      var tmp: int := b.input[b.inPos];
      b.inPos := b.inPos + 1;
      if tmp == 0 {
        return StreamEnd;
      }
      var ok := DictFor(tmp);
      if !ok {
        return DataError;
      }
      if tmp >= 0x80 {
        ok := PackedFor(tmp);
        if !ok {
          return DataError;
        }
      } else {
        if tmp > 2 {
          return DataError;
        }
        sequence, next := Compressed0, CopyRaw;
      }
      ret := More;
    }

    lemma IdleFacts()
      requires Idle()
      ensures Base() && tempSize == 0 && lzma.len == 0 && rc.range == FIRST && rc.code == 0 && rc.initLeft == 5
    {
    }

    /** The two bytes of the uncompressed size, high byte first. */
    method UncompressedByte(b: XzBuf)
      requires Valid() && b.Valid() && b.inPos < |b.input| && (sequence.Uncompressed1? || sequence.Uncompressed2?)
      modifies this`sequence, this`uncompressed, b`inPos
      ensures Valid() && b.Valid() && b.inPos == old(b.inPos) + 1
      ensures old(sequence).Uncompressed1? ==> sequence == Uncompressed2 && uncompressed == old(uncompressed) + 0x100 * (b.input[old(b.inPos)] as int)
      ensures old(sequence).Uncompressed2? ==> sequence == Compressed0 && uncompressed == old(uncompressed) + b.input[old(b.inPos)] as int + 1
    {
      hide Idle, Fitting;
      var c: int := b.input[b.inPos];
      b.inPos := b.inPos + 1;
      if sequence == Uncompressed1 {
        uncompressed := uncompressed + c * 0x100;
        sequence := Uncompressed2;
      } else {
        uncompressed := uncompressed + c + 1;
        sequence := Compressed0;
      }
    }

    /** The two bytes of the compressed size, high byte first. */
    method CompressedByte(b: XzBuf)
      requires Valid() && b.Valid() && b.inPos < |b.input| && (sequence.Compressed0? || sequence.Compressed1?)
      modifies this`sequence, this`compressed, this`chunk, b`inPos
      ensures Valid() && b.Valid() && b.inPos == old(b.inPos) + 1
      ensures old(sequence).Compressed0? ==> sequence == Compressed1 && compressed == 0x100 * (b.input[old(b.inPos)] as int)
      ensures old(sequence).Compressed1? ==> sequence == next && compressed == old(compressed) + b.input[old(b.inPos)] as int + 1 && chunk == []
    {
      hide Idle, Base, Fitting;
      var c: int := b.input[b.inPos];
      b.inPos := b.inPos + 1;
      if sequence == Compressed0 {
        compressed := c * 0x100;
        sequence := Compressed1;
      } else {
        compressed := compressed + c + 1;
        chunk := [];
        IdleFacts();
        sequence := next;
      }
    }

    /** `lzma_props`: three small numbers in one byte, and a reset when they are acceptable. */
    method PropsByte(byte0: byte) returns (ok: bool)
      requires Idle()
      modifies rc, lzma
      ensures Idle() && (ok <==> byte0 <= 224 && PropsValid(PropsOf(byte0)))
      ensures ok ==> Fitting() && lzma.props == PropsOf(byte0) && lzma.View() == Lz(dict.hist, 0, 0, 0, 0, 0)
      ensures ok ==> rc.probs == Unbiased()
    {
      hide Idle, Fitting, P2n;
      var props: int := byte0;
      if props > (4 * 5 + 4) * 9 + 8 {
        return false;
      }
      var pb, lp := 0, 0;
      while props >= 9 * 5
        invariant 0 <= props && props + 45 * pb == byte0 as int
      {
        props := props - 9 * 5;
        pb := pb + 1;
      }
      while props >= 9
        invariant 0 <= props && props + 9 * lp + 45 * pb == byte0 as int && 9 * lp < 45
      {
        props := props - 9;
        lp := lp + 1;
      }
      PropsUnique(props, lp, pb);
      if props + lp > 4 {
        return false;
      }
      SetProps(Props(props, lp, pb));
      ResetState();
      ok := true;
    }

    method SetProps(p: Props)
      requires Idle() && PropsValid(p)
      modifies lzma
      ensures Idle() && lzma.props == p
    {
      hide Dict.Valid;
      lzma.lc, lzma.literalPosMask, lzma.posMask, lzma.props := p.lc, Power(p.lp) - 1, Power(p.pb) - 1, p;
    }

    /** `rc_read_init`: five bytes fill the code register; the first of them falls out again. */
    method ReadInit(b: XzBuf) returns (ok: bool)
      requires Starting() && b.Valid()
      modifies rc`code, rc`initLeft, b`inPos, this`chunk
      ensures Starting() && b.Valid() && old(b.inPos) <= b.inPos && (ok <==> rc.initLeft == 0)
      ensures chunk == old(chunk) + b.input[old(b.inPos)..b.inPos] && (!ok ==> b.inPos == |b.input|)
      ensures b.inPos - old(b.inPos) == old(rc.initLeft) - rc.initLeft
    {
      hide Fitting, Base, Leading;
      while rc.initLeft > 0
        invariant Starting() && b.Valid() && old(b.inPos) <= b.inPos
        invariant chunk == old(chunk) + b.input[old(b.inPos)..b.inPos]
        invariant b.inPos - old(b.inPos) == old(rc.initLeft) - rc.initLeft
        decreases rc.initLeft
      {
        if b.inPos == |b.input| {
          return false;
        }
        ghost var c := chunk;
        ReadByte(b);
        Grow(b.input, old(b.inPos), b.inPos - 1, b.inPos);
      }
      ok := true;
    }

    method ReadByte(b: XzBuf)
      requires Starting() && b.Valid() && b.inPos < |b.input| && rc.initLeft > 0
      modifies rc`code, rc`initLeft, b`inPos, this`chunk
      ensures Starting() && b.Valid() && b.inPos == old(b.inPos) + 1 && rc.initLeft == old(rc.initLeft) - 1
      ensures chunk == old(chunk) + b.input[old(b.inPos)..b.inPos]
    {
      hide Fitting, Dict.Valid, Leading;
      var c := b.input[b.inPos];
      LeadingMore(chunk, c, rc.code);
      rc.code := (rc.code * 0x100 + c) % WORD;
      b.inPos := b.inPos + 1;
      chunk := chunk + [c];
      rc.initLeft := rc.initLeft - 1;
    }

    /** The first decoding step of a chunk: what follows is a run from a fresh range decoder. */
    method Begin()
      requires Starting() && rc.initLeft == 0 && 5 <= compressed
      modifies this`compressed, this`sequence, this`used, this`c0, this`at, this`syms, this`lz0
      ensures Running() && sequence == RunLzma && compressed == old(compressed) - 5
      ensures syms == [] && lz0 == lzma.View() && c0 == Fresh(rc.probs, chunk) && used == 5
    {
      hide Dict.Valid, Lzma.Ready, LzValid, Leading, Base, Fitting, AllFair;
      StartingFacts();
      compressed := compressed - 5;
      sequence := RunLzma;
      used, syms, lz0 := 5, [], lzma.View();
      c0 := Regs(5);
      at := c0;
      DecodedNone(lzma.props, dict.end, chunk, c0, lz0);
    }

    lemma StartingFacts()
      requires Starting() && rc.initLeft == 0
      ensures lzma.rc == rc && lzma.dict == dict && |rc.probs| == PROBS_TOTAL && lzma.Ready() && |temp| == 63
      ensures PropsValid(lzma.props) && LzValid(lzma.View(), dict.end) && Sound(Regs(5)) && Regs(5) == Fresh(rc.probs, chunk)
      ensures Normalize(Regs(5), chunk) == Regs(5) && Base()
    {
    }

    /** How much may be decoded: no more than the output has room for or the chunk has left. */
    method SetLimit(b: XzBuf)
      requires Running() && b.Valid()
      modifies dict`limit
      ensures Running() && dict.pos <= dict.limit && dict.limit - dict.pos <= uncompressed
      ensures |b.out| + (dict.limit - dict.pos) <= b.outSize && (|b.out| < b.outSize ==> dict.pos < dict.limit)
    {
      hide Dict.Valid, Decoded, LzValid, AllFair, Leading;
      DictSpace();
      dict.Limit(if b.outSize - |b.out| < uncompressed then b.outSize - |b.out| else uncompressed);
    }

    lemma DictSpace()
      requires dict.Valid()
      ensures dict.start <= dict.pos <= dict.end
    {
    }

    /** `dict_flush`, with the history it completes. */
    method Flush(b: XzBuf) returns (size: nat)
      requires InChunk() && b.Valid() && |b.out| + (dict.pos - dict.start) <= b.outSize && dict.start <= dict.pos
      requires EndsWith(delivered, dict.sent)
      modifies this`delivered, dict`start, dict`pos, dict`sent, b`out
      ensures InChunk() && Base() && b.Valid() && size == old(dict.pos - dict.start)
      ensures Sent(old(b.out), b.out, old(delivered), delivered) && |b.out| == |old(b.out)| + size
      ensures old(dict.sent) <= dict.hist && delivered == old(delivered) + dict.hist[|old(dict.sent)|..]
    {
      hide Dict.Valid, Decoded, LzValid, Copy, Leading, Normalize;
      RangeFacts();
      dict.Lengths();
      size := dict.Flush(b);
      ghost var new' := dict.hist[|old(dict.sent)|..];
      EndsWithMore(delivered, old(dict.sent), new');
      assert dict.hist == old(dict.sent) + new';
      delivered := delivered + new';
    }

    lemma RangeFacts()
      requires Following()
      ensures AllFair(rc.probs) && lzma.MasksValid()
    {
    }

    /** `lzma2_lzma` within the limits of output and chunk. */
    method Attempt(b: XzBuf) returns (ok: bool)
      requires Running() && b.Valid()
      modifies this`temp, this`tempSize, this`compressed, this`chunk, this`used, this`syms, this`at, b`inPos
      modifies rc, dict`limit, dict`pos, dict`full, dict`hist, dict.buf, lzma`len, lzma`state, lzma`rep0, lzma`rep1, lzma`rep2, lzma`rep3
      ensures b.Valid()
      ensures ok ==> InChunk() && 5 <= |chunk| && c0 == Fresh(c0.probs, chunk) && old(dict.pos) <= dict.pos
      ensures ok ==> Advanced(old(chunk), chunk, old(syms), syms, b.input, old(b.inPos), b.inPos)
      ensures ok ==> dict.pos - old(dict.pos) <= uncompressed && |b.out| + (dict.pos - old(dict.pos)) <= b.outSize
      ensures ok && old(b.inPos) == b.inPos && dict.pos == old(dict.pos) ==>
                |b.out| == b.outSize || (b.inPos == |b.input| && tempSize < compressed)
      ensures forall full, sent, total :: old(Due(full, sent, b, total)) && old(|dict.hist|) + uncompressed <= total ==> ok && Due(full, sent, b, total)
    {
      hide Running, Base, InChunk, Dict.Valid, Decoded, LzValid, Leading, Copy, Advanced, EndsWith, Comes;
      RunningFacts();
      SetLimit(b);
      RunningFacts();
      assert forall full, sent, total :: old(Due(full, sent, b, total)) ==> Due(full, sent, b, total);
      ghost var chunk0 := chunk;
      ok := LzmaChunk(b);
      if ok {
        FreshStill(chunk0, old(syms), b.input, old(b.inPos), b.inPos);
      }
    }

    /** One piece of a chunk is decoded and delivered. */
    method DecodeStep(b: XzBuf) returns (ok: bool, size: nat)
      requires Running() && b.Valid()
      modifies this`temp, this`tempSize, this`compressed, this`chunk, this`used, this`syms, this`at, this`delivered
      modifies rc, dict, dict.buf, lzma`len, lzma`state, lzma`rep0, lzma`rep1, lzma`rep2, lzma`rep3, b`inPos, b`out
      ensures b.Valid()
      ensures ok ==> InChunk() && Base() && 5 <= |chunk| && c0 == Fresh(c0.probs, chunk) && size <= uncompressed
      ensures ok ==> Advanced(old(chunk), chunk, old(syms), syms, b.input, old(b.inPos), b.inPos)
      ensures ok ==> Sent(old(b.out), b.out, old(delivered), delivered)
      ensures ok ==> old(dict.hist) <= dict.hist && delivered == old(delivered) + dict.hist[|old(dict.hist)|..]
      ensures ok && old(b.inPos) == b.inPos && size == 0 ==> |b.out| == b.outSize || (b.inPos == |b.input| && tempSize < compressed)
      ensures ok ==> size == |dict.hist| - |old(dict.hist)|
      ensures forall full, sent, total :: old(Due(full, sent, b, total)) && old(|dict.hist|) + uncompressed <= total ==> ok && Due(full, sent, b, total)
    {
      hide Running, Base, InChunk, Dict.Valid, Decoded, LzValid, Leading, Copy, Advanced, EndsWith, Sent, Comes;
      RunningFacts();
      dict.Lengths();
      ok := Attempt(b);
      if !ok {
        return false, 0;
      }
      AdvancedForward(old(chunk), chunk, old(syms), syms, b.input, old(b.inPos), b.inPos);
      FlushFacts();
      dict.Lengths();
      size := Flush(b);
    }

    /** `SEQ_LZMA_RUN`: decode, deliver, and see whether the chunk is complete. */
    method RunStep(b: XzBuf) returns (ret: Ret)
      requires Valid() && sequence == RunLzma && b.Valid()
      modifies this, rc, dict, dict.buf, lzma, b`inPos, b`out
      ensures b.Valid() && ret != StreamEnd
      ensures ret != DataError ==> Valid() && old(b.inPos) <= b.inPos && Sent(old(b.out), b.out, old(delivered), delivered)
      ensures ret != DataError ==> sequence == RunLzma || (sequence == Control && uncompressed == 0)
      ensures ret != DataError ==> chunk + b.input[b.inPos..] == old(chunk + b.input[b.inPos..])
      ensures ret != DataError ==> old(dict.hist) <= dict.hist && delivered == old(delivered) + dict.hist[|old(dict.hist)|..]
      ensures c0 == old(c0) && lz0 == old(lz0) && lzma.props == old(lzma.props) && needDictReset == old(needDictReset) && needProps == old(needProps)
      ensures ret == Okay ==> |b.out| == b.outSize || b.inPos == |b.input|
      ensures ret == Okay ==> sequence == RunLzma
      ensures ret == More && old(b.inPos) == b.inPos ==> uncompressed < old(uncompressed)
      ensures forall full, sent, total :: old(Due(full, sent, b, total)) && total == old(|dict.hist| + uncompressed) ==>
                && ret != DataError
                && (sequence == RunLzma ==> Due(full, sent, b, total) && total == |dict.hist| + uncompressed)
                && (sequence == Control ==> chunk == full && syms == sent && Replayed(sent))
    {
      hide Base, InChunk, Dict.Valid, Decoded, LzValid, Leading, Copy, Advanced, EndsWith, Sent, Comes, AllFit, ApplyAll, Standing;
      var ok, size := DecodeStep(b);
      if !ok {
        return DataError;
      }
      AdvancedForward(old(chunk), chunk, old(syms), syms, b.input, old(b.inPos), b.inPos);
      AllDone(b);
      uncompressed := uncompressed - size;
      if uncompressed == 0 {
        if compressed > 0 || lzma.len > 0 || rc.code != 0 {
          return DataError;
        }
        Finish();
        ret := More;
      } else if |b.out| == b.outSize || (b.inPos == |b.input| && tempSize < compressed) {
        ret := Okay;
      } else {
        ret := More;
      }
    }

    lemma RunningFacts()
      requires Running()
      ensures InChunk() && Base() && dict.Valid() && dict.start == dict.pos && EndsWith(delivered, dict.sent) && dict.sent == dict.hist
      ensures 5 <= |chunk| && c0 == Fresh(c0.probs, chunk)
    {
    }

    lemma FlushFacts()
      requires InChunk()
      ensures dict.Valid() && dict.start <= dict.pos
    {
    }

    lemma FreshStill(chunk0: seq<byte>, syms0: seq<Symbol>, input: seq<byte>, i: nat, j: nat)
      requires Advanced(chunk0, chunk, syms0, syms, input, i, j) && 5 <= |chunk0| && c0 == Fresh(c0.probs, chunk0)
      ensures 5 <= |chunk| && c0 == Fresh(c0.probs, chunk) && i <= j
    {
      LeadingStable(chunk0, chunk, 5);
    }

    /** History, recent distances and probabilities are what an encoder has after `sent`. */
    ghost predicate Replayed(sent: seq<Symbol>)
      reads this`lz0, this`c0, this`needDictReset, this`needProps, rc, dict, lzma
    {
      && AllFit(lz0, sent, dict.end) && EncNow().lz == ApplyAll(lz0, sent, dict.end)
      && PropsValid(lzma.props) && AllFair(c0.probs) && |c0.probs| == PROBS_TOTAL
      && rc.probs == Standing(lzma.props, dict.end, c0.probs, lz0, sent).probs
    }

    /** An encoder's chunk that has yielded all it announced ends there, with nothing left over. */
    lemma DueIsDone(full: seq<byte>, sent: seq<Symbol>, b: XzBuf, total: int)
      requires InChunk() && b.Valid() && Due(full, sent, b, total) && total == |dict.hist|
      ensures compressed == 0 && lzma.len == 0 && rc.code == 0 && syms == sent && chunk == full && Replayed(sent)
    {
      hide Decoded, Genuine, AllFit, ApplyAll, Normalize, Dict.Valid;
      InChunkPos();
      GenuineFits(lzma.props, dict.end, c0, lz0, full, sent);
      assert chunk <= full;
      AllFound(lzma.props, dict.end, chunk, c0, lz0, full, sent, syms, at, lzma.Ahead(), dict.hist);
    }

    lemma AllDone(b: XzBuf)
      requires InChunk() && b.Valid()
      ensures forall full, sent, total :: Due(full, sent, b, total) && total == |dict.hist| ==>
                compressed == 0 && lzma.len == 0 && rc.code == 0 && syms == sent && chunk == full && Replayed(sent)
    {
      hide InChunk, Due, Replayed;
      forall full, sent, total | Due(full, sent, b, total) && total == |dict.hist|
        ensures compressed == 0 && lzma.len == 0 && rc.code == 0 && syms == sent && chunk == full && Replayed(sent)
      {
        DueIsDone(full, sent, b, total);
      }
    }

    /** The chunk is complete: everything that was announced has been taken and delivered. */
    method Finish()
      requires InChunk() && Base() && compressed == 0 && lzma.len == 0 && sequence == RunLzma
      modifies this`sequence, rc`range, rc`code, rc`initLeft
      ensures Valid() && sequence == Control && used == |chunk|
    {
      hide Dict.Valid, Decoded;
      ResetRange();
      sequence := Control;
    }

    /** `SEQ_COPY`: bytes that were not compressed. */
    method CopyStep(b: XzBuf) returns (ret: Ret)
      requires Valid() && sequence == CopyRaw && b.Valid() && b.inPos < |b.input|
      modifies this`sequence, this`compressed, this`delivered, dict, dict.buf, b`inPos, b`out
      ensures b.Valid() && Valid() && old(b.inPos) <= b.inPos && (ret == More || ret == Okay)
      ensures b.out == old(b.out) + b.input[old(b.inPos)..b.inPos] && delivered == old(delivered) + b.input[old(b.inPos)..b.inPos]
      ensures dict.hist == old(dict.hist) + b.input[old(b.inPos)..b.inPos] && compressed == old(compressed) - (b.inPos - old(b.inPos))
      ensures ret == More ==> sequence == Control && old(b.inPos) < b.inPos && compressed == 0
      ensures ret == Okay ==> sequence == CopyRaw && compressed > 0 && (|b.out| == b.outSize || b.inPos == |b.input|)
    {
      hide Idle, EndsWith, Dict.Valid, LzValid, AllFair, RingPos, Least;
      CopyFacts();
      assert needProps || LzValid(lzma.View(), dict.end);
      var rest := dict.Uncompressed(b, compressed);
      compressed := rest;
      ghost var new' := b.input[old(b.inPos)..b.inPos];
      EndsWithMore(delivered, old(dict.hist), new');
      delivered := delivered + new';
      StillFitting(old(dict.hist));
      StillIdle();
      if compressed > 0 {
        return Okay;
      }
      sequence := Control;
      ret := More;
    }

    lemma CopyFacts()
      requires Idle()
      ensures dict.Valid() && dict.start == dict.pos < dict.end && EndsWith(delivered, dict.hist) && lzma.dict == dict && IdleRest()
    {
    }

    /** What an idle decoder is apart from its dictionary. */
    ghost predicate IdleRest()
      reads this`temp, this`tempSize, rc, lzma
    {
      && lzma.rc == rc && lzma.dict == dict && |rc.probs| == PROBS_TOTAL && AllFair(rc.probs) && lzma.MasksValid()
      && |temp| == 63 && tempSize == 0 && lzma.len == 0 && rc.range == FIRST && rc.code == 0 && rc.initLeft == 5
    }

    lemma StillIdle()
      requires IdleRest() && dict.Valid() && dict.start == dict.pos < dict.end && EndsWith(delivered, dict.hist) && dict.sent == dict.hist
      ensures Idle()
    {
    }

    lemma StillFitting(hist0: seq<byte>)
      requires lzma.dict == dict && |hist0| <= |dict.hist|
      ensures LzValid(lzma.View().(hist := hist0), dict.end) ==> Fitting()
    {
    }

    // -------------------------------------------------------------------------------------------
    // Streams that an encoder wrote.  `text` is what is left of the stream, from the next input byte on.

    /** In front of the range decoder's first bytes, or between them. */
    ghost predicate Preparing(p: Part, tail: seq<Part>, target: seq<byte>, text: seq<byte>)
      requires AllSized(tail)
      reads this, rc, dict, lzma
    {
      && p.Packed? && Ahead(EncNow(), p, tail, target, delivered, dict.end) && compressed == |p.full| && uncompressed == p.size
      && chunk + text == p.full + StreamBytes(tail)
    }

    /** Inside a compressed chunk. */
    ghost predicate Unpacking(p: Part, tail: seq<Part>, target: seq<byte>, text: seq<byte>)
      requires AllSized(tail)
      reads this, dict, lzma
    {
      var e := Enc(lz0, lzma.props, c0.probs, needDictReset, needProps);
      && p.Packed? && BodyFits(e, p, dict.end) && AllFits(Closed(e, p, dict.end), tail, dict.end)
      && Comes(lzma.props, dict.end, c0, lz0, syms, p.full, p.sent, |dict.hist| + uncompressed, chunk + text)
      && |p.full| == used + compressed && chunk + text == p.full + StreamBytes(tail)
      && |dict.hist| <= |ApplyAll(lz0, p.sent, dict.end).hist|
      && target == delivered + (ApplyAll(lz0, p.sent, dict.end).hist[|dict.hist|..] + MeaningOfAll(Closed(e, p, dict.end), tail, dict.end))
    }

    /** Inside a stored chunk, of which `p` is what is left. */
    ghost predicate Copying(p: Part, tail: seq<Part>, target: seq<byte>, text: seq<byte>)
      requires AllSized(tail)
      reads this, rc, dict, lzma
    {
      && p.Stored? && Ahead(EncNow(), p, tail, target, delivered, dict.end) && compressed == |p.data|
      && text == p.data + StreamBytes(tail)
    }

    /** Inside a header. */
    ghost predicate Heads(p: Part, tail: seq<Part>, target: seq<byte>, text: seq<byte>)
      requires Sized(p) && AllSized(tail)
      reads this, rc, dict, lzma
    {
      && Ahead(Begun(EncNow(), p), p, tail, target, delivered, dict.end)
      && HeaderAt(sequence, next, uncompressed, compressed, p, StreamBytes(tail), text)
    }

    /** Where the decoder stands in a stream, the rest of which makes `target` of what has been delivered. */
    ghost predicate Awaits(parts: seq<Part>, target: seq<byte>, text: seq<byte>)
      reads this, rc, dict, lzma
    {
      if sequence == Control then AtControl(EncNow(), parts, target, delivered, text, dict.end)
      else
        && parts != [] && Sized(parts[0]) && AllSized(parts[1..])
        && if sequence == Prepare then Preparing(parts[0], parts[1..], target, text)
           else if sequence == RunLzma then Unpacking(parts[0], parts[1..], target, text)
           else if sequence == CopyRaw then Copying(parts[0], parts[1..], target, text)
           else Heads(parts[0], parts[1..], target, text)
    }

    /** `text` is the rest of a stream that an encoder wrote, and with it the output becomes `target`. */
    ghost predicate Expects(target: seq<byte>, text: seq<byte>)
      reads this, rc, dict, lzma
    {
      exists parts :: Awaits(parts, target, text)
    }

    /** The input from `i` to `j` was the next of the stream, and the rest is expected. */
    ghost predicate Fed(target: seq<byte>, text: seq<byte>, input: seq<byte>, i: nat, j: nat)
      reads this, rc, dict, lzma
    {
      Took(input, i, j, text) && Expects(target, text[j - i..])
    }

    lemma FedFacts(input: seq<byte>, i: nat, j: nat)
      ensures forall target, text :: Fed(target, text, input, i, j) ==> Took(input, i, j, text) && Expects(target, text[j - i..])
    {
    }

    lemma FedNone(input: seq<byte>, i: nat)
      requires i <= |input|
      ensures forall target, text :: Expects(target, text) ==> Fed(target, text, input, i, i)
    {
      hide Expects;
      forall target, text | Expects(target, text) ensures Fed(target, text, input, i, i) {
        TookNone(input, i, text);
      }
    }

    lemma FedOn(target: seq<byte>, text: seq<byte>, input: seq<byte>, i: nat, j: nat, k: nat)
      requires Took(input, i, j, text) && Fed(target, text[j - i..], input, j, k)
      ensures Fed(target, text, input, i, k)
    {
      hide Expects;
      TookMore(input, i, j, k, text);
    }

    /** A decoder between two chunks, in front of a stream that an encoder wrote, expects all that the stream means. */
    lemma StreamExpected(parts: seq<Part>)
      requires sequence == Control && AllFits(EncNow(), parts, dict.end)
      ensures AllSized(parts) && Expects(delivered + MeaningOfAll(EncNow(), parts, dict.end), StreamBytes(parts))
    {
      FitsAreSized(EncNow(), parts, dict.end);
      assert Awaits(parts, delivered + MeaningOfAll(EncNow(), parts, dict.end), StreamBytes(parts));
    }

    method ControlStep(b: XzBuf) returns (ret: Ret)
      requires Valid() && sequence == Control && b.Valid() && b.inPos < |b.input|
      modifies this`uncompressed, this`sequence, this`next, this`needProps, this`needDictReset, rc, dict, lzma, b`inPos
      ensures b.Valid() && b.inPos == old(b.inPos) + 1 && ret != Okay && (ret == StreamEnd ==> b.input[old(b.inPos)] == 0)
      ensures ret != DataError ==> Valid()
      ensures forall target, text :: old(Expects(target, text)) && Agreeing(old(b.input[b.inPos..]), text) ==>
                && ret != DataError && (ret == StreamEnd ==> delivered == target)
                && (ret != StreamEnd ==> Fed(target, text, b.input, old(b.inPos), b.inPos))
    {
      hide Idle, Fitting, Heading, AtControl, Ahead, HeaderAt, OpenedBy, Refused, Destination, Begun, Agreeing;
      ghost var e, rest := EncNow(), b.input[b.inPos..];
      ret := ControlByte(b);
      forall target, text | old(Expects(target, text)) && Agreeing(rest, text)
        ensures ret != DataError && (ret == StreamEnd ==> delivered == target)
        ensures ret != StreamEnd ==> Fed(target, text, b.input, old(b.inPos), b.inPos)
      {
        var parts: seq<Part> :| old(Awaits(parts, target, text));
        ControlTaken(e, parts, target, delivered, text, dict.end, uncompressed, compressed);
        TookOne(b.input, old(b.inPos), text);
        if parts != [] {
          assert Awaits(parts, target, text[1..]);
        }
      }
    }

    method SizeStep(b: XzBuf)
      requires Valid() && b.Valid() && b.inPos < |b.input| && (sequence.Uncompressed1? || sequence.Uncompressed2?)
      modifies this`sequence, this`uncompressed, b`inPos
      ensures Valid() && b.Valid() && b.inPos == old(b.inPos) + 1
      ensures forall target, text :: old(Expects(target, text)) && Agreeing(old(b.input[b.inPos..]), text) ==>
                Fed(target, text, b.input, old(b.inPos), b.inPos)
    {
      hide Idle, Fitting, Heading, Ahead, HeaderAt, Begun, StreamBytes, Agreeing;
      ghost var rest, u := b.input[b.inPos..], uncompressed;
      UncompressedByte(b);
      forall target, text | old(Expects(target, text)) && Agreeing(rest, text) ensures Fed(target, text, b.input, old(b.inPos), b.inPos) {
        var parts: seq<Part> :| old(Awaits(parts, target, text));
        if old(sequence).Uncompressed1? {
          SizeHigh(next, u, compressed, parts[0], StreamBytes(parts[1..]), text);
        } else {
          SizeLow(next, u, compressed, parts[0], StreamBytes(parts[1..]), text);
        }
        TookOne(b.input, old(b.inPos), text);
        assert Awaits(parts, target, text[1..]);
      }
    }

    method LengthStep(b: XzBuf)
      requires Valid() && b.Valid() && b.inPos < |b.input| && (sequence.Compressed0? || sequence.Compressed1?)
      modifies this`sequence, this`compressed, this`chunk, b`inPos
      ensures Valid() && b.Valid() && b.inPos == old(b.inPos) + 1
      ensures forall target, text :: old(Expects(target, text)) && Agreeing(old(b.input[b.inPos..]), text) ==>
                Fed(target, text, b.input, old(b.inPos), b.inPos)
    {
      hide Idle, Fitting, Heading, Ahead, HeaderAt, StreamBytes, Starting, Agreeing;
      ghost var rest, k := b.input[b.inPos..], compressed;
      CompressedByte(b);
      forall target, text | old(Expects(target, text)) && Agreeing(rest, text) ensures Fed(target, text, b.input, old(b.inPos), b.inPos) {
        var parts: seq<Part> :| old(Awaits(parts, target, text));
        if old(sequence).Compressed0? {
          LengthHigh(next, uncompressed, k, parts[0], StreamBytes(parts[1..]), text);
          TookOne(b.input, old(b.inPos), text);
        } else {
          LengthLow(next, uncompressed, k, parts[0], StreamBytes(parts[1..]), text);
          TookOne(b.input, old(b.inPos), text);
          HeaderOver(parts[0], parts[1..], target, text[1..]);
          assert [parts[0]] + parts[1..] == parts;
        }
        assert Awaits(parts, target, text[1..]);
      }
    }

    /** The header has been read up to the sizes. */
    lemma HeaderOver(p: Part, tail: seq<Part>, target: seq<byte>, text: seq<byte>)
      requires Sized(p) && AllSized(tail) && sequence == next == DestinationOf(p) && compressed == LengthOf(p)
      requires (p.Packed? ==> uncompressed == p.size) && (sequence == Prepare ==> chunk == [])
      requires Ahead(Begun(EncNow(), p), p, tail, target, delivered, dict.end)
      requires text == AfterLength(p) + StreamBytes(tail)
      ensures Awaits([p] + tail, target, text)
    {
      hide Ahead, StreamBytes;
      assert ([p] + tail)[1..] == tail;
      if sequence == Prepare {
        assert chunk + text == text;
      }
    }

    /** The properties byte, and the reset that comes with it. */
    method PropsStep(b: XzBuf) returns (ok: bool)
      requires Valid() && sequence == Properties && b.Valid() && b.inPos < |b.input|
      modifies this`sequence, this`chunk, rc, lzma, b`inPos
      ensures b.Valid() && b.inPos == old(b.inPos) + 1 && (ok ==> Valid() && sequence == Prepare)
      ensures forall target, text :: old(Expects(target, text)) && Agreeing(old(b.input[b.inPos..]), text) ==>
                ok && Fed(target, text, b.input, old(b.inPos), b.inPos)
    {
      hide Idle, Fitting, Starting, Ahead, StreamBytes, Agreeing, AfterLength;
      ghost var rest, e := b.input[b.inPos..], EncNow();
      var c := b.input[b.inPos];
      b.inPos := b.inPos + 1;
      ok := PropsByte(c);
      if ok {
        Proceed();
      }
      forall target, text | old(Expects(target, text)) && Agreeing(rest, text) ensures ok && Fed(target, text, b.input, old(b.inPos), b.inPos) {
        var parts: seq<Part> :| old(Awaits(parts, target, text));
        var p, tail := parts[0], parts[1..];
        CodeByte(p, StreamBytes(tail), text);
        TookOne(b.input, old(b.inPos), text);
        CodeAccepted(e, p, tail, target, delivered, dict.end);
        assert chunk + text[1..] == text[1..];
        assert EncNow() == Begun(e, p);
        assert Awaits(parts, target, text[1..]);
      }
    }

    /** Stored bytes. */
    method StoredStep(b: XzBuf) returns (ret: Ret)
      requires Valid() && sequence == CopyRaw && b.Valid() && b.inPos < |b.input|
      modifies this`sequence, this`compressed, this`delivered, dict, dict.buf, b`inPos, b`out
      ensures b.Valid() && Valid() && old(b.inPos) <= b.inPos && (ret == More || ret == Okay)
      ensures Sent(old(b.out), b.out, old(delivered), delivered)
      ensures ret == More ==> sequence == Control && old(b.inPos) < b.inPos
      ensures ret == Okay ==> |b.out| == b.outSize || b.inPos == |b.input|
      ensures ret == Okay ==> sequence == CopyRaw
      ensures forall target, text :: old(Expects(target, text)) && Agreeing(old(b.input[b.inPos..]), text) ==>
                Fed(target, text, b.input, old(b.inPos), b.inPos)
    {
      hide Valid, Ahead, StreamBytes, Agreeing, AtControl, Sent;
      ghost var rest, e, d, i := b.input[b.inPos..], EncNow(), delivered, b.inPos;
      ret := CopyStep(b);
      ghost var n := b.inPos - i;
      assert rest[..n] == b.input[i..b.inPos];
      SentSome(old(b.out), b.out, d, delivered, rest[..n]);
      forall target, text | old(Expects(target, text)) && Agreeing(rest, text) ensures Fed(target, text, b.input, old(b.inPos), b.inPos) {
        var parts: seq<Part> :| old(Awaits(parts, target, text));
        var p, tail := parts[0], parts[1..];
        assert old(Copying(p, tail, target, text));
        AgreeTaken(rest, text, n);
        StoredTaken(e, p, tail, target, text, d, n, ret == Okay);
      }
    }

    /** `n` bytes of a stored chunk have been taken. */
    lemma StoredTaken(e: Enc, p: Part, tail: seq<Part>, target: seq<byte>, text: seq<byte>, d: seq<byte>, n: nat, more: bool)
      requires AllSized(tail) && p.Stored? && Ahead(e, p, tail, target, d, dict.end) && text == p.data + StreamBytes(tail) && n <= |p.data|
      requires EncNow() == e.(lz := e.lz.(hist := e.lz.hist + text[..n])) && delivered == d + text[..n]
      requires compressed == |p.data| - n && (more ==> n < |p.data| && sequence == CopyRaw) && (!more ==> n == |p.data| && sequence == Control)
      ensures Expects(target, text[n..])
    {
      hide Ahead, StreamBytes, AtControl;
      assert text[..n] == p.data[..n] && text[n..] == p.data[n..] + StreamBytes(tail);
      if more {
        var q := Stored(p.reset, p.data[n..]);
        assert Sized(p) by { AheadSized(e, p, tail, target, d, dict.end); }
        StoredOn(e, p.reset, p.data, n, tail, target, d, dict.end);
        assert ([q] + tail)[1..] == tail;
        assert Awaits([q] + tail, target, text[n..]);
      } else {
        StoredDone(e, p, tail, target, d, dict.end);
        assert p.data[..n] == p.data && p.data[n..] + StreamBytes(tail) == StreamBytes(tail);
        assert Awaits(tail, target, text[n..]);
      }
    }

    /** What has been decoded is the beginning of what the encoder's symbols make. */
    lemma HistoryInside(full: seq<byte>, sent: seq<Symbol>, b: XzBuf, total: int)
      requires InChunk() && b.Valid() && Due(full, sent, b, total)
      ensures AllFit(lz0, sent, dict.end) && dict.hist <= ApplyAll(lz0, sent, dict.end).hist && total == |ApplyAll(lz0, sent, dict.end).hist|
      ensures chunk <= full
    {
      hide Decoded, Genuine, AllFit, ApplyAll, Normalize, Dict.Valid, Following;
      InChunkPos();
      GenuineFits(lzma.props, dict.end, c0, lz0, full, sent);
      assert AllFit(lz0, syms, dict.end) && ApplyAll(lz0, syms, dict.end) == lzma.Ahead() by {
        DecodedApplies(lzma.props, dict.end, chunk, c0, lz0, syms, at, lzma.Ahead());
      }
      assert sent[..|syms|] == syms;
      HistoryGrows(lz0, sent, |syms|, dict.end);
    }

    /** A piece of a compressed chunk. */
    method UnpackStep(b: XzBuf) returns (ret: Ret)
      requires Valid() && sequence == RunLzma && b.Valid()
      modifies this, rc, dict, dict.buf, lzma, b`inPos, b`out
      ensures b.Valid() && ret != StreamEnd
      ensures ret != DataError ==> Valid() && old(b.inPos) <= b.inPos && Sent(old(b.out), b.out, old(delivered), delivered)
      ensures ret != DataError ==> sequence == RunLzma || (sequence == Control && uncompressed == 0)
      ensures ret == More && old(b.inPos) == b.inPos ==> uncompressed < old(uncompressed)
      ensures ret == Okay ==> |b.out| == b.outSize || b.inPos == |b.input|
      ensures ret == Okay ==> sequence == RunLzma
      ensures forall target, text :: old(Expects(target, text)) && Agreeing(old(b.input[b.inPos..]), text) ==>
                ret != DataError && Fed(target, text, b.input, old(b.inPos), b.inPos)
    {
      hide Valid, Comes, AllFits, BodyFits, Closed, MeaningOfAll, StreamBytes, Agreeing, AtControl, Sent, Genuine, AllFit, ApplyAll;
      ghost var e := Enc(lz0, lzma.props, c0.probs, needDictReset, needProps);
      ghost var rest, x, d, h := b.input[b.inPos..], chunk, delivered, dict.hist;
      ret := RunStep(b);
      forall target, text | old(Expects(target, text)) && Agreeing(rest, text)
        ensures ret != DataError && Fed(target, text, b.input, old(b.inPos), b.inPos)
      {
        var parts: seq<Part> :| old(Awaits(parts, target, text));
        var p, tail := parts[0], parts[1..];
        BodyAllFit(e, p, dict.end);
        ComesElse(old(lzma.props), dict.end, old(c0), old(lz0), old(syms), p, StreamBytes(tail), old(|dict.hist| + uncompressed), x, text, rest);
        assert old(Due(p.full, p.sent, b, |dict.hist| + uncompressed));
        if sequence == RunLzma {
          Unpacked(e, p, tail, target, text, d, h, x, b, old(b.inPos));
          assert Awaits(parts, target, text[b.inPos - old(b.inPos)..]);
        } else {
          ChunkOver(e, p, tail, target, text, d, h, x, b, old(b.inPos));
          assert Awaits(tail, target, text[b.inPos - old(b.inPos)..]);
        }
      }
    }

    lemma Unpacked(e: Enc, p: Part, tail: seq<Part>, target: seq<byte>, text: seq<byte>, d: seq<byte>, h: seq<byte>, x: seq<byte>, b: XzBuf, i: nat)
      requires Valid() && sequence == RunLzma && b.Valid() && AllSized(tail) && p.Packed? && i <= b.inPos
      requires e == Enc(lz0, lzma.props, c0.probs, needDictReset, needProps)
      requires BodyFits(e, p, dict.end) && AllFits(Closed(e, p, dict.end), tail, dict.end)
      requires Due(p.full, p.sent, b, |dict.hist| + uncompressed) && x + text == p.full + StreamBytes(tail)
      requires chunk + b.input[b.inPos..] == x + b.input[i..] && Agreeing(b.input[i..], text)
      requires AllFit(lz0, p.sent, dict.end) && |h| <= |ApplyAll(lz0, p.sent, dict.end).hist|
      requires h <= dict.hist && delivered == d + dict.hist[|h|..]
      requires target == d + (ApplyAll(lz0, p.sent, dict.end).hist[|h|..] + MeaningOfAll(Closed(e, p, dict.end), tail, dict.end))
      ensures Took(b.input, i, b.inPos, text) && Unpacking(p, tail, target, text[b.inPos - i..])
    {
      hide AllFits, BodyFits, Closed, MeaningOfAll, StreamBytes, Agreeing, AllFit, ApplyAll, InChunk, Base, Promises;
      HistoryInside(p.full, p.sent, b, |dict.hist| + uncompressed);
      Grew(x, chunk, b.input, i, b.inPos, text, p.full, StreamBytes(tail));
      AgreeWith(p.full, StreamBytes(tail));
      Delivered(ApplyAll(lz0, p.sent, dict.end).hist, h, dict.hist, d, MeaningOfAll(Closed(e, p, dict.end), tail, dict.end));
    }

    lemma ChunkOver(e: Enc, p: Part, tail: seq<Part>, target: seq<byte>, text: seq<byte>, d: seq<byte>, h: seq<byte>, x: seq<byte>, b: XzBuf, i: nat)
      requires b.Valid() && AllSized(tail) && p.Packed? && chunk == p.full && Replayed(p.sent) && i <= b.inPos
      requires e == Enc(lz0, lzma.props, c0.probs, needDictReset, needProps)
      requires BodyFits(e, p, dict.end) && AllFits(Closed(e, p, dict.end), tail, dict.end) && x + text == p.full + StreamBytes(tail)
      requires chunk + b.input[b.inPos..] == x + b.input[i..] && Agreeing(b.input[i..], text)
      requires AllFit(lz0, p.sent, dict.end) && |h| <= |ApplyAll(lz0, p.sent, dict.end).hist|
      requires h <= dict.hist && delivered == d + dict.hist[|h|..]
      requires target == d + (ApplyAll(lz0, p.sent, dict.end).hist[|h|..] + MeaningOfAll(Closed(e, p, dict.end), tail, dict.end))
      ensures Took(b.input, i, b.inPos, text) && AtControl(EncNow(), tail, target, delivered, text[b.inPos - i..], dict.end)
    {
      hide AllFits, MeaningOfAll, StreamBytes, Agreeing, Genuine, AllFit, ApplyAll, Standing;
      Grew(x, chunk, b.input, i, b.inPos, text, p.full, StreamBytes(tail));
      assert text[b.inPos - i..] == StreamBytes(tail) by { SameBehind(p.full, text[b.inPos - i..], StreamBytes(tail)); }
      assert EncNow() == Closed(e, p, dict.end);
      Delivered(dict.hist, h, dict.hist, d, MeaningOfAll(EncNow(), tail, dict.end));
      assert dict.hist[|dict.hist|..] + MeaningOfAll(EncNow(), tail, dict.end) == MeaningOfAll(EncNow(), tail, dict.end);
    }

    /** `SEQ_LZMA_PREPARE`, which falls through into the run once the five bytes are there. */
    method PrepareStep(b: XzBuf) returns (ret: Ret)
      requires Valid() && sequence == Prepare && b.Valid()
      modifies this, rc, dict, dict.buf, lzma, b`inPos, b`out
      ensures b.Valid() && ret != StreamEnd
      ensures ret != DataError ==> Valid() && old(b.inPos) <= b.inPos && Sent(old(b.out), b.out, old(delivered), delivered)
      ensures ret == More ==> old(b.inPos) < b.inPos
      ensures ret == Okay ==> |b.out| == b.outSize || b.inPos == |b.input|
      ensures ret == Okay ==> b.inPos == |b.input| || sequence == RunLzma
      ensures forall target, text :: old(Expects(target, text)) && Agreeing(old(b.input[b.inPos..]), text) ==>
                ret != DataError && Fed(target, text, b.input, old(b.inPos), b.inPos)
    {
      hide Starting, Running, Sent, Expects, Agreeing, Took, Fed;
      ghost var i := b.inPos;
      if compressed < 5 {
        LongEnough();
        return DataError;
      }
      SentNone(b.out, delivered);
      var ok := FillCode(b);
      if !ok {
        return Okay;
      }
      ghost var j := b.inPos;
      FedFacts(b.input, i, j);
      label Filled:
      StartChunk();
      label Begun:
      ret := UnpackStep(b);
      forall target, text | old(Expects(target, text)) && Agreeing(old(b.input[b.inPos..]), text)
        ensures ret != DataError && Fed(target, text, b.input, old(b.inPos), b.inPos)
      {
        assert old@Filled(Fed(target, text, b.input, i, j));
        TookRest(b.input, old(b.inPos), j, text);
        var more := text[j - i..];
        assert old@Filled(Expects(target, more)) && old@Begun(Expects(target, more));
        FedOn(target, text, b.input, i, j, b.inPos);
      }
    }

    /** The range decoder's first bytes, as far as they have come. */
    method FillCode(b: XzBuf) returns (ok: bool)
      requires Starting() && sequence == Prepare && 5 <= compressed && b.Valid()
      modifies rc`code, rc`initLeft, b`inPos, this`chunk
      ensures Starting() && b.Valid() && old(b.inPos) <= b.inPos && (ok <==> rc.initLeft == 0) && (!ok ==> b.inPos == |b.input|)
      ensures b.inPos - old(b.inPos) == old(rc.initLeft) - rc.initLeft
      ensures forall target, text :: old(Expects(target, text)) && Agreeing(old(b.input[b.inPos..]), text) ==>
                Fed(target, text, b.input, old(b.inPos), b.inPos)
    {
      hide Starting, Ahead, StreamBytes, Agreeing;
      ghost var x := chunk;
      ok := ReadInit(b);
      AtMostFive();
      Rejoin(x, chunk, b.input, old(b.inPos), b.inPos);
      forall target, text | old(Expects(target, text)) && Agreeing(old(b.input[b.inPos..]), text)
        ensures Fed(target, text, b.input, old(b.inPos), b.inPos)
      {
        var parts: seq<Part> :| old(Awaits(parts, target, text));
        Grew(x, chunk, b.input, old(b.inPos), b.inPos, text, parts[0].full, StreamBytes(parts[1..]));
        assert Awaits(parts, target, text[b.inPos - old(b.inPos)..]);
      }
    }

    lemma AtMostFive()
      requires Starting()
      ensures |chunk| <= 5 && lzma.dict == dict && (rc.initLeft == 0 ==> |chunk| == 5)
    {
    }

    /** The range decoder is ready: the symbols begin. */
    method StartChunk()
      requires Starting() && sequence == Prepare && rc.initLeft == 0 && 5 <= compressed
      modifies this`compressed, this`sequence, this`used, this`c0, this`at, this`syms, this`lz0
      ensures Running() && sequence == RunLzma
      ensures forall target, text :: old(Expects(target, text)) ==> Expects(target, text)
    {
      hide Starting, Running, Ahead, StreamBytes;
      AtMostFive();
      Begin();
      forall target, text | old(Expects(target, text)) ensures Expects(target, text) {
        var parts: seq<Part> :| old(Awaits(parts, target, text));
        Started(parts[0], parts[1..], target, text);
        assert Awaits(parts, target, text);
      }
    }

    lemma Started(p: Part, tail: seq<Part>, target: seq<byte>, text: seq<byte>)
      requires AllSized(tail) && p.Packed? && Ahead(EncNow(), p, tail, target, delivered, dict.end)
      requires syms == [] && lz0 == EncNow().lz && c0 == Fresh(rc.probs, chunk) && used == 5 == |chunk|
      requires compressed == |p.full| - 5 && uncompressed == p.size && chunk + text == p.full + StreamBytes(tail)
      ensures Unpacking(p, tail, target, text)
    {
      hide AllFits, MeaningOfAll, StreamBytes, Closed, Standing, AllFit, ApplyAll;
      AgreeWith(p.full, StreamBytes(tail));
      assert chunk == (chunk + text)[..5] == p.full[..5];
      LeadingStable(chunk, p.full, 5);
      assert EncNow() == Enc(lz0, lzma.props, c0.probs, needDictReset, needProps);
    }

    lemma LongEnough()
      requires sequence == Prepare && compressed < 5
      ensures forall target, text :: !Expects(target, text)
    {
    }

    /** One turn of the control loop. */
    method Step(b: XzBuf) returns (ret: Ret)
      requires Valid() && b.Valid() && (b.inPos < |b.input| || sequence == RunLzma)
      modifies this, rc, dict, dict.buf, lzma, b`inPos, b`out
      ensures b.Valid()
      ensures ret != DataError ==> Valid() && old(b.inPos) <= b.inPos && Sent(old(b.out), b.out, old(delivered), delivered)
      ensures ret == More ==> old(b.inPos) < b.inPos || (old(sequence) == RunLzma
                                && (sequence == Control || (sequence == RunLzma && uncompressed < old(uncompressed))))
      ensures ret == StreamEnd ==> old(sequence) == Control && b.input[old(b.inPos)] == 0
      ensures ret == Okay ==> |b.out| == b.outSize || b.inPos == |b.input|
      ensures ret == Okay ==> b.inPos == |b.input| || sequence == RunLzma || sequence == CopyRaw
      ensures forall target, text :: old(Expects(target, text)) && Agreeing(old(b.input[b.inPos..]), text) ==>
                && ret != DataError && (ret == StreamEnd ==> delivered == target)
                && (ret != StreamEnd ==> Fed(target, text, b.input, old(b.inPos), b.inPos))
    {
      hide Idle, Starting, Running, Sent, Fitting, Heading, Expects, Agreeing, Took, Fed;
      SentNone(b.out, delivered);
      match sequence
      case Control =>
        ret := ControlStep(b);
      case Uncompressed1 =>
        SizeStep(b);
        ret := More;
      case Uncompressed2 =>
        SizeStep(b);
        ret := More;
      case Compressed0 =>
        LengthStep(b);
        ret := More;
      case Compressed1 =>
        LengthStep(b);
        ret := More;
      case Properties =>
        ret := PropertiesStep(b);
      case Prepare =>
        ret := PrepareStep(b);
      case RunLzma =>
        ret := UnpackStep(b);
      case CopyRaw =>
        ret := StoredStep(b);
    }

    /** `SEQ_PROPERTIES`, which falls through into the preparation. */
    method PropertiesStep(b: XzBuf) returns (ret: Ret)
      requires Valid() && sequence == Properties && b.Valid() && b.inPos < |b.input|
      modifies this, rc, dict, dict.buf, lzma, b`inPos, b`out
      ensures b.Valid() && ret != StreamEnd && (ret == Okay ==> |b.out| == b.outSize || b.inPos == |b.input|)
      ensures ret == Okay ==> b.inPos == |b.input| || sequence == RunLzma
      ensures ret != DataError ==> Valid() && old(b.inPos) < b.inPos && Sent(old(b.out), b.out, old(delivered), delivered)
      ensures forall target, text :: old(Expects(target, text)) && Agreeing(old(b.input[b.inPos..]), text) ==>
                ret != DataError && Fed(target, text, b.input, old(b.inPos), b.inPos)
    {
      hide Valid, Sent, Expects, Agreeing, Took, Fed;
      ghost var i := b.inPos;
      var ok := PropsStep(b);
      if !ok {
        return DataError;
      }
      ghost var j := b.inPos;
      FedFacts(b.input, i, j);
      label Taken:
      ret := PrepareStep(b);
      forall target, text | old(Expects(target, text)) && Agreeing(old(b.input[b.inPos..]), text)
        ensures ret != DataError && Fed(target, text, b.input, old(b.inPos), b.inPos)
      {
        assert old@Taken(Fed(target, text, b.input, i, j));
        TookRest(b.input, old(b.inPos), j, text);
        var more := text[j - i..];
        assert old@Taken(Expects(target, more));
        FedOn(target, text, b.input, i, j, b.inPos);
      }
    }

    /** From the properties byte to the range decoder's first bytes. */
    method Proceed()
      requires Idle() && Fitting() && 0 < uncompressed
      modifies this`sequence, this`chunk
      ensures Valid() && sequence == Prepare && chunk == []
    {
      sequence, chunk := Prepare, [];
    }

    /**
     * `xz_dec_lzma2_run`: decode until the stream ends, the data turns out to be bad, or no more can be done
     * without more input or more room.
     */
    method Decode(b: XzBuf) returns (ret: Ret)
      requires Valid() && b.Valid()
      modifies this, rc, dict, dict.buf, lzma, b`inPos, b`out
      ensures b.Valid() && ret != More
      ensures ret != DataError ==> Valid() && old(b.inPos) <= b.inPos && Sent(old(b.out), b.out, old(delivered), delivered)
      ensures ret == Okay ==> |b.out| == b.outSize || b.inPos == |b.input|
      ensures forall target, text :: old(Expects(target, text)) && Agreeing(old(b.input[b.inPos..]), text) ==>
                && ret != DataError && (ret == StreamEnd ==> delivered == target)
                && (ret == Okay ==> Fed(target, text, b.input, old(b.inPos), b.inPos))
                && (Given(target, text, old(b.input[b.inPos..]), old(delivered), b.outSize - old(|b.out|)) ==> ret == StreamEnd)
      ensures ret == Okay ==> b.inPos == |b.input| || sequence == RunLzma || sequence == CopyRaw
    {
      hide Valid, Sent, Expects, Agreeing, Took, Fed, Given;
      SentNone(b.out, delivered);
      ghost var i := b.inPos;
      FedNone(b.input, i);
      while b.inPos < |b.input| || sequence == RunLzma
        invariant Valid() && b.Valid() && old(b.inPos) <= b.inPos && Sent(old(b.out), b.out, old(delivered), delivered)
        invariant forall target, text :: old(Expects(target, text)) && Agreeing(old(b.input[b.inPos..]), text) ==> Fed(target, text, b.input, i, b.inPos)
        decreases |b.input| - b.inPos, if sequence == RunLzma then 1 + uncompressed else 0
      {
        ghost var o, d, j := b.out, delivered, b.inPos;
        FedFacts(b.input, i, j);
        label Before:
        ret := Step(b);
        forall target, text | old(Expects(target, text)) && Agreeing(old(b.input[b.inPos..]), text)
          ensures ret != DataError && (ret == StreamEnd ==> delivered == target) && (ret != StreamEnd ==> Fed(target, text, b.input, i, b.inPos))
        {
          assert old@Before(Fed(target, text, b.input, i, j));
          TookRest(b.input, i, j, text);
          var more := text[j - i..];
          assert old@Before(Expects(target, more));
          if ret != StreamEnd && ret != DataError {
            FedOn(target, text, b.input, i, j, b.inPos);
          }
        }
        if ret == DataError {
          return;
        }
        SentTrans(old(b.out), o, b.out, old(delivered), d, delivered);
        if ret != More {
          if ret == Okay {
            NotYetGiven(b, i, old(b.out), old(delivered));
          }
          return;
        }
      }
      NotYetGiven(b, i, old(b.out), old(delivered));
      ret := Okay;
    }

    /** A call that ends in the middle of a stream was not given all of it, or too little room. */
    lemma NotYetGiven(b: XzBuf, i: nat, out: seq<byte>, d: seq<byte>)
      requires Valid() && b.Valid() && i <= b.inPos && Sent(out, b.out, d, delivered)
      requires b.inPos == |b.input| || (|b.out| == b.outSize && (sequence == RunLzma || sequence == CopyRaw))
      ensures forall target, text :: Fed(target, text, b.input, i, b.inPos) ==> !Given(target, text, b.input[i..], d, b.outSize - |out|)
    {
      hide Valid, Expects;
      forall target, text | Fed(target, text, b.input, i, b.inPos) ensures !Given(target, text, b.input[i..], d, b.outSize - |out|) {
        MoreOfStream(target, text[b.inPos - i..]);
      }
    }

    /** There is always more of the stream to come; in the middle of a chunk, more of the output too. */
    lemma MoreOfStream(target: seq<byte>, text: seq<byte>)
      requires Valid() && Expects(target, text)
      ensures text != [] && |delivered| <= |target| && (sequence == RunLzma || sequence == CopyRaw ==> |delivered| < |target|)
    {
      hide Valid, AtControl, Heads, Preparing, Unpacking, Copying;
      var parts: seq<Part> :| Awaits(parts, target, text);
      if sequence == Control {
        AtControlSplits(EncNow(), parts, target, delivered, text, dict.end);
        assert |delivered| <= |target| by { NoneMissing(parts, target, text); }
      } else if sequence == RunLzma {
        MoreToUnpack(parts[0], parts[1..], target, text);
      } else if sequence == Prepare || sequence == CopyRaw {
        MoreToTake(parts[0], parts[1..], target, text);
      } else {
        MoreOfHeader(parts[0], parts[1..], target, text);
      }
    }

    lemma NoneMissing(parts: seq<Part>, target: seq<byte>, text: seq<byte>)
      requires AtControl(EncNow(), parts, target, delivered, text, dict.end)
      ensures |delivered| <= |target|
    {
      hide AllFits, MeaningOfAll, AllSized, StreamBytes;
    }

    lemma MoreToUnpack(p: Part, tail: seq<Part>, target: seq<byte>, text: seq<byte>)
      requires Valid() && sequence == RunLzma && AllSized(tail) && Unpacking(p, tail, target, text)
      ensures text != [] && |delivered| < |target|
    {
      hide AllFits, MeaningOfAll, Closed, BodyFits, Genuine, AllFit, ApplyAll, Base, Following, AfterControl;
      assert |chunk| <= |p.full| && StreamBytes(tail) != [];
    }

    lemma MoreToTake(p: Part, tail: seq<Part>, target: seq<byte>, text: seq<byte>)
      requires Valid() && AllSized(tail)
      requires (sequence == Prepare && Preparing(p, tail, target, text)) || (sequence == CopyRaw && Copying(p, tail, target, text))
      ensures text != [] && |delivered| <= |target| && (sequence == CopyRaw ==> |delivered| < |target|)
    {
      hide AllFits, MeaningOfAll, Closed, AllFit, ApplyAll, Base, Following, AfterControl, Standing;
      assert StreamBytes(tail) != [];
    }

    lemma MoreOfHeader(p: Part, tail: seq<Part>, target: seq<byte>, text: seq<byte>)
      requires Sized(p) && AllSized(tail) && Heads(p, tail, target, text)
      ensures text != [] && |delivered| <= |target|
    {
      hide AllFits, MeaningOfAll, Closed, BodyFits, Meaning;
    }

    // -------------------------------------------------------------------------------------------
    // What follows for a decoder in any state that calls can lead to

    /** No properties byte is due: none is missing, and no header leads to one. */
    predicate Settled()
      reads this`sequence, this`next, this`needProps
    {
      && !needProps && sequence != Properties
      && (sequence in {Uncompressed1, Uncompressed2, Compressed0, Compressed1} ==> next != Properties)
    }

    /** A symbol that is not a literal leaves a distance behind that reaches a byte of the dictionary. */
    lemma NonLiteralReaches()
      requires Valid() && (Settled() || sequence == RunLzma || sequence == Prepare)
      ensures !IsLiteralState(lzma.state) ==> lzma.rep0 < dict.full
    {
      hide Decoded, Leading;
    }

    /**
     * Between a reset of the dictionary and the next properties byte the last distance may reach back behind
     * the reset: the promise holds there exactly behind a literal, or once enough bytes have been stored.
     */
    lemma ReachesExactly()
      requires Valid() && !Settled() && sequence != RunLzma && sequence != Prepare
      ensures (!IsLiteralState(lzma.state) ==> lzma.rep0 < dict.full)
              <==> IsLiteralState(lzma.state) || (lzma.rep0 < |dict.hist| && lzma.rep0 < dict.end)
    {
    }

    /**
     * If the chunk goes on to be one that an encoder wrote, then the symbols found so far are the first
     * ones it wrote, whichever way the input was cut up, and the history is a prefix of the encoder's.
     */
    lemma ChunkIsWhatWasSent(full: seq<byte>, sent: seq<Symbol>)
      requires Valid() && sequence == RunLzma && chunk <= full && AllFit(lz0, sent, dict.end) && |syms| <= |sent|
      requires AllFair(c0.probs) && |c0.probs| == PROBS_TOTAL
      requires Contains(NarrowAll(Blank(c0.probs), AllOps(lzma.props, lz0, sent, dict.end)), full)
      ensures syms == sent[..|syms|] && dict.hist <= lzma.Ahead().hist <= ApplyAll(lz0, sent, dict.end).hist
    {
      hide Decoded, Fresh, AllFit, AllOps, ApplyAll, Contains, NarrowAll, InChunk, Base;
      InChunkPos();
      FoundWasSent(lzma.props, dict.end, chunk, full, c0, lz0, syms, at, lzma.Ahead(), sent);
    }

    lemma InChunkPos()
      requires InChunk()
      ensures lzma.Pending() && PropsValid(lzma.props)
      ensures Decoded(lzma.props, dict.end, chunk, c0, lz0, syms, at, lzma.Ahead()) && Sound(at)
      ensures Normalize(at, chunk).pos <= |chunk| && dict.hist <= lzma.Ahead().hist
    {
      hide Decoded;
    }
  }

  lemma AgreeBytes(buffer: seq<byte>, from: nat, grown: seq<byte>, used: nat, n: nat)
    requires from + n <= |buffer| && used + n <= |grown| && buffer[from..from + n] == grown[used..used + n]
    ensures Agree(buffer, grown, from, from + n, used - from)
  {
    forall i: nat | from <= i < from + n
      ensures ByteAt(buffer, i) == Shifted(grown, i, used - from)
    {
      assert buffer[from..from + n][i - from] == grown[used..used + n][i - from];
    }
  }

  lemma LaterStill(c: Coder, input: seq<byte>)
    requires Sound(c)
    ensures c.pos <= Normalize(c, input).pos
  {
  }

  lemma Slices(buffer: seq<byte>, from: nat, n: nat, avail: nat, whole: seq<byte>, used: nat)
    requires from + avail <= |buffer| && used + avail == |whole| && n <= avail && buffer[from..from + avail] == whole[used..]
    ensures forall k :: used + n <= k <= |whole| ==> buffer[from..from + n] == whole[..k][used..used + n]
  {
    assert buffer[from..from + n] == buffer[from..from + avail][..n];
  }

  lemma CutTemp(temp: seq<byte>, t: nat, k: nat, chunk0: seq<byte>, extra: seq<byte>)
    requires t <= |chunk0| && k <= t + |extra| <= |temp| && temp[..t + |extra|] == chunk0[|chunk0| - t..] + extra
    ensures k < t ==> |temp[k..t] + temp[t - k..]| == |temp| && (temp[k..t] + temp[t - k..])[..t - k] == chunk0[|chunk0| - t + k..]
    ensures k < t ==> (chunk0 + extra)[..|chunk0|] == chunk0
    ensures k >= t ==> (chunk0 + extra)[..|chunk0| - t + k] == chunk0 + extra[..k - t]
  {
    if k < t {
      assert temp[k..t] == temp[..t + |extra|][k..t];
    }
  }

  /** The input from `i` to `j` has joined the chunk, and nothing that was decoded before has changed. */
  ghost predicate Advanced(c: seq<byte>, c': seq<byte>, s: seq<Symbol>, s': seq<Symbol>, input: seq<byte>, i: nat, j: nat) {
    i <= j <= |input| && c' == c + input[i..j] && s <= s'
  }

  /** The input from `i` to `j` is the beginning of the text. */
  predicate Took(input: seq<byte>, i: nat, j: nat, text: seq<byte>) {
    i <= j <= |input| && j - i <= |text| && input[i..j] == text[..j - i]
  }

  /** All that is left of the stream is there, and room for all that is left of the output. */
  predicate Given(target: seq<byte>, text: seq<byte>, rest: seq<byte>, delivered: seq<byte>, room: int) {
    text <= rest && |target| - |delivered| <= room
  }

  lemma TookNone(input: seq<byte>, i: nat, text: seq<byte>)
    requires i <= |input|
    ensures Took(input, i, i, text) && text[i - i..] == text
  {
  }

  lemma TookOne(input: seq<byte>, i: nat, text: seq<byte>)
    requires i < |input| && text != [] && Agreeing(input[i..], text)
    ensures Took(input, i, i + 1, text) && input[i] == text[0]
  {
    AgreeFirst(input[i..], text);
  }

  lemma TookRest(input: seq<byte>, i: nat, j: nat, text: seq<byte>)
    requires Took(input, i, j, text) && Agreeing(input[i..], text)
    ensures i <= j <= |input| && j - i <= |text| && Agreeing(input[j..], text[j - i..])
  {
    if input[i..] <= text {
      assert input[j..] == input[i..][j - i..];
      assert text[j - i..][..|input| - j] == text[..|input| - i][j - i..];
    } else {
      assert text == input[i..][..|text|];
      assert input[j..][..|text| - (j - i)] == input[i..][..|text|][j - i..];
    }
  }

  lemma TookMore(input: seq<byte>, i: nat, j: nat, k: nat, text: seq<byte>)
    requires Took(input, i, j, text)
    ensures Took(input, j, k, text[j - i..]) ==> Took(input, i, k, text) && text[j - i..][k - j..] == text[k - i..]
  {
    if Took(input, j, k, text[j - i..]) {
      assert input[i..k] == input[i..j] + input[j..k];
      assert text[..k - i] == text[..j - i] + text[j - i..][..k - j];
    }
  }

  /** A chunk that grew by input bytes, and is still no longer than it should be. */
  lemma Grew(x: seq<byte>, x': seq<byte>, input: seq<byte>, i: nat, j: nat, text: seq<byte>, full: seq<byte>, follow: seq<byte>)
    requires i <= j <= |input| && x' + input[j..] == x + input[i..] && x + text == full + follow
    requires Agreeing(input[i..], text) && |x'| <= |full|
    ensures Took(input, i, j, text) && x' + text[j - i..] == full + follow
  {
    assert |x'| == |x| + (j - i);
    AgreeTaken(input[i..], text, j - i);
    assert input[i..][..j - i] == input[i..j];
    assert x' == (x' + input[j..])[..|x'|] == (x + input[i..])[..|x'|] == x + input[i..j];
    assert x + text == x + text[..j - i] + text[j - i..];
  }

  lemma AgreeWith(full: seq<byte>, follow: seq<byte>)
    ensures Agreeing(full + follow, full)
  {
    assert full == (full + follow)[..|full|];
  }

  lemma SameBehind(x: seq<byte>, a: seq<byte>, b: seq<byte>)
    requires x + a == x + b
    ensures a == b
  {
    assert a == (x + a)[|x|..] && b == (x + b)[|x|..];
  }

  /** The input that is there agrees with the chunk as the whole stream does. */
  lemma ComesElse(props: Props, window: nat, c0: Coder, lz0: Lz, syms: seq<Symbol>, p: Part, follow: seq<byte>, total: int,
                  x: seq<byte>, text: seq<byte>, rest: seq<byte>)
    requires p.Packed? && Comes(props, window, c0, lz0, syms, p.full, p.sent, total, x + text)
    requires x + text == p.full + follow && Agreeing(rest, text)
    ensures Comes(props, window, c0, lz0, syms, p.full, p.sent, total, x + rest)
  {
    hide Promises;
    AgreeInFront(x, rest, text);
    AgreeFront(x + rest, p.full, follow);
  }

  /** What a decoder delivers is the next part of the whole history. */
  lemma Delivered(f: seq<byte>, h: seq<byte>, h': seq<byte>, d: seq<byte>, more: seq<byte>)
    requires h <= h' <= f
    ensures d + (f[|h|..] + more) == d + h'[|h|..] + (f[|h'|..] + more)
  {
    assert f[|h|..] == h'[|h|..] + f[|h'|..];
  }

  lemma AdvancedForward(c: seq<byte>, c': seq<byte>, s: seq<Symbol>, s': seq<Symbol>, input: seq<byte>, i: nat, j: nat)
    requires Advanced(c, c', s, s', input, i, j)
    ensures i <= j && c' + input[j..] == c + input[i..]
  {
    Rejoin(c, c', input, i, j);
  }

  lemma AdvancedNone(c: seq<byte>, s: seq<Symbol>, input: seq<byte>, i: nat)
    requires i <= |input|
    ensures Advanced(c, c, s, s, input, i, i)
  {
  }

  lemma AdvancedTrans(c: seq<byte>, c1: seq<byte>, c2: seq<byte>, s: seq<Symbol>, s1: seq<Symbol>, s2: seq<Symbol>,
                      input: seq<byte>, i: nat, j: nat, k: nat)
    requires Advanced(c, c1, s, s1, input, i, j) && Advanced(c1, c2, s1, s2, input, j, k)
    ensures Advanced(c, c2, s, s2, input, i, k) && i <= j <= k
  {
    Grow(input, i, j, k);
  }

  lemma AdvancedMore(c: seq<byte>, c1: seq<byte>, c2: seq<byte>, s: seq<Symbol>, s1: seq<Symbol>, s2: seq<Symbol>,
                     input: seq<byte>, i: nat, j: nat, k: nat)
    requires Advanced(c, c1, s, s1, input, i, j) && j <= k <= |input| && c2 == c1 + input[j..k] && s2 == s1
    ensures Advanced(c, c2, s, s2, input, i, k) && i <= j
  {
    Grow(input, i, j, k);
  }

  ghost predicate EndsWith(s: seq<byte>, t: seq<byte>) {
    |t| <= |s| && s[|s| - |t|..] == t
  }

  lemma EndsWithMore(s: seq<byte>, t: seq<byte>, more: seq<byte>)
    requires EndsWith(s, t)
    ensures EndsWith(s + more, t + more)
  {
  }

  lemma LeadingMore(s: seq<byte>, c: byte, code: nat)
    requires code == Leading(s, |s|) % WORD
    ensures Leading(s + [c], |s| + 1) % WORD == (code * 0x100 + c) % WORD
  {
    LeadingStable(s, s + [c], |s|);
    ModTimes(Leading(s, |s|), c);
  }

  lemma ModTimes(v: nat, c: nat)
    ensures (0x100 * v + c) % WORD == (v % WORD * 0x100 + c) % WORD
  {
    var q, r := v / WORD, v % WORD;
    assert v == q * WORD + r;
    assert 0x100 * v + c == (0x100 * q) * WORD + (r * 0x100 + c);
    ModDrop(0x100 * q, r * 0x100 + c);
  }

  lemma {:induction false} ModDrop(q: nat, x: nat)
    ensures (q * WORD + x) % WORD == x % WORD
  {
    if q > 0 {
      ModDrop(q - 1, x);
      assert q * WORD + x == ((q - 1) * WORD + x) + WORD;
    }
  }

  /** What was added to the output was also added to the record of everything delivered. */
  ghost predicate Sent(out: seq<byte>, out': seq<byte>, d: seq<byte>, d': seq<byte>) {
    out <= out' && d' == d + out'[|out|..]
  }

  lemma SentTrans(o0: seq<byte>, o1: seq<byte>, o2: seq<byte>, d0: seq<byte>, d1: seq<byte>, d2: seq<byte>)
    requires Sent(o0, o1, d0, d1) && Sent(o1, o2, d1, d2)
    ensures Sent(o0, o2, d0, d2)
  {
    assert o2[|o0|..] == o1[|o0|..] + o2[|o1|..];
  }

  lemma SentNone(out: seq<byte>, d: seq<byte>)
    ensures Sent(out, out, d, d)
  {
  }

  lemma SentSome(o: seq<byte>, o': seq<byte>, d: seq<byte>, d': seq<byte>, more: seq<byte>)
    requires o' == o + more && d' == d + more
    ensures Sent(o, o', d, d')
  {
  }
}
