/** Chunks that an encoder wrote are never refused, however their bytes arrive and whatever follows them. */
module LzmaHonest {
  import opened Memory
  import opened RangeCoder
  import opened LzmaCode
  import opened LzmaSymbols
  import opened LzmaDecoder
  import opened LzmaStreams

  // ---------------------------------------------------------------------------------------------
  // The encoder's interval

  lemma {:induction false} NarrowAppend(iv: Interval, a: seq<Choice>, b: seq<Choice>)
    requires Proper(iv) && AllKnown(|iv.probs|, a) && AllKnown(|iv.probs|, b)
    ensures AllKnown(|iv.probs|, a + b) && NarrowAll(iv, a + b) == NarrowAll(NarrowAll(iv, a), b)
  {
    hide Narrow, Proper;
    if b == [] {
      assert a + b == a;
    } else {
      var n := |b| - 1;
      NarrowAppend(iv, a, b[..n]);
      assert (a + b)[..|a + b| - 1] == a + b[..n];
    }
  }

  /** Narrowing only ever adds digits, and stays inside. */
  lemma {:induction false} NarrowInside(iv: Interval, ops: seq<Choice>, input: seq<byte>)
    requires Proper(iv) && AllKnown(|iv.probs|, ops)
    ensures Widen(iv).digits <= Widen(NarrowAll(iv, ops)).digits
    ensures Contains(NarrowAll(iv, ops), input) ==> Contains(iv, input)
  {
    hide Contains, Proper, Widen;
    if ops != [] {
      var n := |ops| - 1;
      var j := NarrowAll(iv, ops[..n]);
      NarrowInside(iv, ops[..n], input);
      assert ops[n].Model? ==> ops[n].slot < |j.probs|;
      NarrowDigits(j, ops[n]);
      if Contains(NarrowAll(iv, ops), input) {
        NarrowContains(j, ops[n], input);
      }
    }
  }

  lemma NarrowDigits(iv: Interval, op: Choice)
    requires Proper(iv) && (op.Model? ==> op.slot < |iv.probs|)
    ensures Widen(iv).digits == Narrow(iv, op).digits <= Widen(Narrow(iv, op)).digits
  {
  }

  /** Where an encoder stands once it has written `sent`, ready for the next decision. */
  ghost function Standing(props: Props, window: nat, probs: seq<nat>, lz0: Lz, sent: seq<Symbol>): (iv: Interval)
    requires PropsValid(props) && AllFit(lz0, sent, window) && AllFair(probs) && |probs| == PROBS_TOTAL
    ensures Proper(iv)
  {
    NarrowAll(Blank(probs), AllOps(props, lz0, sent, window))
  }

  lemma {:induction false} PrefixStands(props: Props, window: nat, probs: seq<nat>, lz0: Lz, sent: seq<Symbol>, k: nat, input: seq<byte>)
    requires PropsValid(props) && AllFit(lz0, sent, window) && AllFair(probs) && |probs| == PROBS_TOTAL && k <= |sent|
    ensures AllFit(lz0, sent[..k], window)
    ensures Widen(Standing(props, window, probs, lz0, sent[..k])).digits <= Widen(Standing(props, window, probs, lz0, sent)).digits
    ensures Contains(Standing(props, window, probs, lz0, sent), input) ==> Contains(Standing(props, window, probs, lz0, sent[..k]), input)
    decreases |sent|
  {
    hide Contains, Widen, NarrowAll, Proper, SymbolOps, Apply, Fits, LzValid, AllFair;
    if k == |sent| {
      assert sent[..k] == sent;
    } else {
      var n := |sent| - 1;
      var front := sent[..n];
      PrefixFits(lz0, sent, n, window);
      PrefixStands(props, window, probs, lz0, front, k, input);
      assert front[..k] == sent[..k];
      LastStands(props, window, probs, lz0, sent, input);
    }
  }

  lemma LastStands(props: Props, window: nat, probs: seq<nat>, lz0: Lz, sent: seq<Symbol>, input: seq<byte>)
    requires PropsValid(props) && AllFit(lz0, sent, window) && AllFair(probs) && |probs| == PROBS_TOTAL && sent != []
    ensures AllFit(lz0, sent[..|sent| - 1], window)
    ensures var front := sent[..|sent| - 1];
            && Widen(Standing(props, window, probs, lz0, front)).digits <= Widen(Standing(props, window, probs, lz0, sent)).digits
            && (Contains(Standing(props, window, probs, lz0, sent), input) ==> Contains(Standing(props, window, probs, lz0, front), input))
  {
    hide Contains, Widen, NarrowAll, Proper, SymbolOps, Apply, AllFair;
    var n := |sent| - 1;
    var front := sent[..n];
    var lz := ApplyAll(lz0, front, window);
    SymbolPiece(props, lz, sent[n]);
    var a, b := AllOps(props, lz0, front, window), SymbolOps(props, lz, sent[n]);
    assert AllOps(props, lz0, sent, window) == a + b;
    assert AllKnown(PROBS_TOTAL, b) by { TailKnown(a, b); }
    NarrowAppend(Blank(probs), a, b);
    NarrowInside(NarrowAll(Blank(probs), a), b, input);
  }

  lemma TailKnown(a: seq<Choice>, b: seq<Choice>)
    requires AllKnown(PROBS_TOTAL, a + b)
    ensures AllKnown(PROBS_TOTAL, b)
  {
    forall i | 0 <= i < |b| && b[i].Model? ensures b[i].slot < PROBS_TOTAL {
      assert (a + b)[|a| + i] == b[i];
    }
  }

  // ---------------------------------------------------------------------------------------------
  // Chunks as an encoder writes them

  /** `full` is the chunk that an encoder writes for `sent`: the low end of its interval, in full. */
  ghost predicate Genuine(props: Props, window: nat, c0: Coder, lz0: Lz, full: seq<byte>, sent: seq<Symbol>) {
    && PropsValid(props) && AllFit(lz0, sent, window) && AllFair(c0.probs) && |c0.probs| == PROBS_TOTAL
    && 5 <= |full| && c0 == Fresh(c0.probs, full)
    && var e := Widen(Standing(props, window, c0.probs, lz0, sent));
       |full| == e.digits && Leading(full, |full|) == e.low
  }

  /** Whatever follows the chunk, it stays in the encoder's interval. */
  lemma GenuineContains(props: Props, window: nat, c0: Coder, lz0: Lz, full: seq<byte>, sent: seq<Symbol>, text: seq<byte>)
    requires Genuine(props, window, c0, lz0, full, sent) && full <= text
    ensures c0 == Fresh(c0.probs, text)
    ensures Contains(Widen(Standing(props, window, c0.probs, lz0, sent)), text)
    ensures Contains(Standing(props, window, c0.probs, lz0, sent), text)
  {
    hide AllFit, Leading, Standing, Widen, AllFair;
    var iv := Standing(props, window, c0.probs, lz0, sent);
    LeadingStable(full, text, |full|);
    LeadingStable(full, text, 5);
    assert TOP <= Widen(iv).range;
    WidenContains(iv, text);
  }

  /** A decoder that has less than the encoder's history has found fewer symbols. */
  lemma ShorterIsFewer(props: Props, window: nat, c0: Coder, lz0: Lz, found: seq<Symbol>, sent: seq<Symbol>, text: seq<byte>)
    requires PropsValid(props) && AllFit(lz0, found, window) && AllFit(lz0, sent, window)
    requires Takes(c0, AllOps(props, lz0, found, window), text) && Takes(c0, AllOps(props, lz0, sent, window), text)
    requires |ApplyAll(lz0, found, window).hist| < |ApplyAll(lz0, sent, window).hist|
    ensures |found| < |sent| && found == sent[..|found|]
  {
    hide Takes, AllOps, AllFit, ApplyAll;
    if |found| < |sent| {
      StreamUnique(c0, props, lz0, found, sent, window, text);
    } else {
      StreamUnique(c0, props, lz0, sent, found, window, text);
      HistoryGrows(lz0, found, |sent|, window);
      assert false;
    }
  }

  lemma SentTaken(props: Props, window: nat, c0: Coder, lz0: Lz, full: seq<byte>, sent: seq<Symbol>, text: seq<byte>)
    requires Genuine(props, window, c0, lz0, full, sent) && full <= text
    ensures Takes(c0, AllOps(props, lz0, sent, window), text)
    ensures Tracks(After(c0, AllOps(props, lz0, sent, window), text), Standing(props, window, c0.probs, lz0, sent), text)
  {
    hide AllOps, AllFit, Contains, Leading, Run, NarrowAll, Widen, Tracks;
    GenuineContains(props, window, c0, lz0, full, sent, text);
    FreshTracks(c0.probs, text);
    DecodesEncoded(c0, Blank(c0.probs), AllOps(props, lz0, sent, window), text);
  }

  /** No symbol of the encoder's reaches outside the window. */
  lemma NeverBlocked(props: Props, window: nat, c0: Coder, lz0: Lz, full: seq<byte>, sent: seq<Symbol>, text: seq<byte>,
                     found: seq<Symbol>, at: Coder, lz: Lz, bad: Symbol)
    requires Genuine(props, window, c0, lz0, full, sent) && full <= text
    requires Decoded(props, window, text, c0, lz0, found, at, lz) && Spells(at, props, lz, bad, text)
    requires |lz.hist| < |ApplyAll(lz0, sent, window).hist|
    ensures Fits(lz, bad, window)
  {
    hide Takes, AllOps, Fits, Genuine, SymbolOps, Apply;
    SentTaken(props, window, c0, lz0, full, sent, text);
    GenuineFits(props, window, c0, lz0, full, sent);
    ShorterIsFewer(props, window, c0, lz0, found, sent, text);
    var k := |found|;
    NextSpelled(c0, props, lz0, sent, k, window, text);
    SymbolUnique(at, props, lz, sent[k], bad, text);
  }

  lemma NextSpelled(c0: Coder, props: Props, lz0: Lz, sent: seq<Symbol>, k: nat, window: nat, text: seq<byte>)
    requires PropsValid(props) && AllFit(lz0, sent, window) && Takes(c0, AllOps(props, lz0, sent, window), text) && k < |sent|
    ensures AllFit(lz0, sent[..k], window) && Takes(c0, AllOps(props, lz0, sent[..k], window), text)
    ensures var c, lz := After(c0, AllOps(props, lz0, sent[..k], window), text), ApplyAll(lz0, sent[..k], window);
            Spells(c, props, lz, sent[k], text) && Fits(lz, sent[k], window)
  {
    hide Takes, SymbolOps, Apply;
    PrefixTakes(c0, props, lz0, sent, k + 1, window, text);
    var more, front, s := sent[..k + 1], sent[..k], sent[k];
    assert more[..k] == front && more[k] == s;
    var lz := ApplyAll(lz0, front, window);
    assert AllOps(props, lz0, more, window) == AllOps(props, lz0, front, window) + SymbolOps(props, lz, s);
    TakesSplit(c0, AllOps(props, lz0, front, window), SymbolOps(props, lz, s), text);
    SpellsIt(After(c0, AllOps(props, lz0, front, window), text), props, lz, s, window, text);
  }

  lemma GenuineFits(props: Props, window: nat, c0: Coder, lz0: Lz, full: seq<byte>, sent: seq<Symbol>)
    requires Genuine(props, window, c0, lz0, full, sent)
    ensures PropsValid(props) && AllFit(lz0, sent, window) && AllFair(c0.probs) && |c0.probs| == PROBS_TOTAL && 5 <= |full|
  {
  }

  /** The encoder's own symbols are found without a byte from behind the chunk. */
  lemma StaysInside(props: Props, window: nat, c0: Coder, lz0: Lz, full: seq<byte>, sent: seq<Symbol>, text: seq<byte>, k: nat)
    requires Genuine(props, window, c0, lz0, full, sent) && full <= text && k <= |sent|
    ensures AllFit(lz0, sent[..k], window) && Takes(c0, AllOps(props, lz0, sent[..k], window), text)
    ensures Normalize(After(c0, AllOps(props, lz0, sent[..k], window), text), text).pos <= |full|
  {
    hide AllOps, AllFit, Contains, Leading, Run, NarrowAll, Widen, Normalize;
    GenuineContains(props, window, c0, lz0, full, sent, text);
    PrefixStands(props, window, c0.probs, lz0, sent, k, text);
    FreshTracks(c0.probs, text);
    DecodesEncoded(c0, Blank(c0.probs), AllOps(props, lz0, sent[..k], window), text);
    WidenTracks(After(c0, AllOps(props, lz0, sent[..k], window), text), Standing(props, window, c0.probs, lz0, sent[..k]), text);
  }

  /** Once all symbols are found, all of the chunk has been taken and the code is zero. */
  lemma EndsExactly(props: Props, window: nat, c0: Coder, lz0: Lz, full: seq<byte>, sent: seq<Symbol>)
    requires Genuine(props, window, c0, lz0, full, sent)
    ensures Takes(c0, AllOps(props, lz0, sent, window), full)
    ensures var n := Normalize(After(c0, AllOps(props, lz0, sent, window), full), full);
            n.pos == |full| && n.code == 0 && n.probs == Standing(props, window, c0.probs, lz0, sent).probs
  {
    hide AllOps, AllFit, Leading, Run, NarrowAll, Widen, Normalize, Standing;
    SentTaken(props, window, c0, lz0, full, sent, full);
    WidenTracks(After(c0, AllOps(props, lz0, sent, window), full), Standing(props, window, c0.probs, lz0, sent), full);
  }

  // ---------------------------------------------------------------------------------------------
  // What a run over a buffer shows about the chunk

  /** The chunk as the decoder sees it through a buffer that holds its bytes up to `|whole|`, and then others. */
  function Text(full: seq<byte>, whole: seq<byte>, buffer: seq<byte>, behind: nat): seq<byte>
    requires behind <= |buffer|
  {
    if |whole| == |full| then full + buffer[behind..] else full
  }

  /** Where the chunk's bytes lie in a buffer, and how far it may be read. */
  predicate Shows(buffer: seq<byte>, from: nat, avail: nat, whole: seq<byte>, used: nat, full: seq<byte>, reach: nat) {
    && from + avail <= |buffer| && used + avail == |whole| && buffer[from..from + avail] == whole[used..]
    && whole <= full && (|whole| == |full| || reach <= from + avail)
  }

  lemma TextAgrees(buffer: seq<byte>, from: nat, avail: nat, whole: seq<byte>, used: nat, full: seq<byte>, reach: nat)
    requires Shows(buffer, from, avail, whole, used, full, reach)
    ensures Agree(buffer, Text(full, whole, buffer, from + avail), from, reach, used - from)
  {
    var text := Text(full, whole, buffer, from + avail);
    forall i: nat | from <= i < reach ensures ByteAt(buffer, i) == Shifted(text, i, used - from) {
      if i < from + avail {
        assert buffer[i] == buffer[from..from + avail][i - from] == whole[used..][i - from];
      }
    }
  }

  lemma PastNormalization(c: Coder, ops: seq<Choice>, input: seq<byte>)
    requires Takes(c, ops, input) && ops != []
    ensures Takes(Normalize(c, input), ops, input) && After(Normalize(c, input), ops, input) == After(c, ops, input)
    ensures Normalize(c, input).pos <= After(c, ops, input).pos
  {
    hide Normalize, Budget, Run;
    RunNormalized(c, ops, input);
    RunBudget(Normalize(c, input), ops, input);
  }

  lemma SymbolOpsNonEmpty(props: Props, lz: Lz, sym: Symbol)
    requires PropsValid(props) && lz.state < 12 && (!IsLiteralState(lz.state) ==> lz.rep0 < |lz.hist|) && Spellable(sym)
    ensures SymbolOps(props, lz, sym) != []
  {
    hide LiteralOps, CopyOps;
  }

  /** A symbol that a buffer spells behind decoded pieces, read off the chunk. */
  lemma SpelledThere(props: Props, lz: Lz, bad: Symbol, buffer: seq<byte>, text: seq<byte>, mid: Coder, at: Coder, delta: int, reach: nat)
    requires Sound(mid) && Spells(mid, props, lz, bad, buffer) && After(mid, SymbolOps(props, lz, bad), buffer).pos <= reach
    requires Agree(buffer, text, mid.pos, reach, delta) && Sound(at) && |at.probs| == |mid.probs|
    requires mid.pos + delta >= 0 && Normalize(at, text) == Moved(Normalize(mid, buffer), delta)
    ensures Spells(at, props, lz, bad, text)
  {
    hide Takes, SymbolOps, Normalize, Agree;
    var ops := SymbolOps(props, lz, bad);
    SymbolOpsNonEmpty(props, lz, bad);
    PastNormalization(mid, ops, buffer);
    var n := Normalize(mid, buffer);
    AgreePart(buffer, text, mid.pos, reach, delta, n.pos, After(mid, ops, buffer).pos);
    RunMoved(n, ops, buffer, text, delta);
    TakesBack(at, ops, text);
  }

  lemma TakesBack(at: Coder, ops: seq<Choice>, text: seq<byte>)
    requires Sound(at) && ops != [] && Takes(Normalize(at, text), ops, text)
    ensures Takes(at, ops, text)
  {
    hide Normalize, Run;
    RunNormalized(at, ops, text);
  }

  /** A chunk whose symbols produce at least `room` bytes of history. */
  ghost predicate Promises(props: Props, window: nat, c0: Coder, lz0: Lz, full: seq<byte>, sent: seq<Symbol>, room: int) {
    Genuine(props, window, c0, lz0, full, sent) && room <= |ApplyAll(lz0, sent, window).hist|
  }

  /** If a run over a buffer meets a copy from outside the window, no encoder wrote the chunk. */
  lemma BlockedIsNotGenuine(props: Props, window: nat, chunk: seq<byte>, c0: Coder, lz0: Lz, syms: seq<Symbol>, at: Coder, lz: Lz,
                            buffer: seq<byte>, from: nat, avail: nat, whole: seq<byte>, more: seq<Symbol>, bad: Symbol, room: int, reach: nat,
                            full: seq<byte>, sent: seq<Symbol>)
    requires Decoded(props, window, chunk, c0, lz0, syms, at, lz) && Sound(at) && Normalize(at, chunk).pos <= |chunk| && chunk <= whole
    requires Blocked(props, window, buffer, Normalize(at, chunk).(pos := from), lz, more, bad, room, reach)
    requires Shows(buffer, from, avail, whole, Normalize(at, chunk).pos, full, reach)
    ensures !Promises(props, window, c0, lz0, full, sent, room)
  {
    hide Decoded, Blocked, Normalize, Agree, Genuine, Takes, AllOps, SymbolOps, Fits, Spells, AllFit, ApplyAll;
    if Promises(props, window, c0, lz0, full, sent, room) {
      GenuineFits(props, window, c0, lz0, full, sent);
      var used := Normalize(at, chunk).pos;
      var n, delta := Normalize(at, chunk).(pos := from), used - from;
      var text := Text(full, whole, buffer, from + avail);
      var mid, lz' := BlockedParts(props, window, buffer, n, lz, more, bad, room, reach);
      TextAgrees(buffer, from, avail, whole, used, full, reach);
      LastIsLater(props, window, buffer, n, lz, more, mid, lz');
      AgreePart(buffer, text, from, reach, delta, from, Normalize(mid, buffer).pos);
      Absorb(props, window, chunk, text, c0, lz0, syms, at, lz, buffer, from, more, mid, lz');
      var at' := if more == [] then at else Moved(mid, delta);
      AgreePart(buffer, text, from, reach, delta, mid.pos, reach);
      SpelledThere(props, lz', bad, buffer, text, mid, at', delta, reach);
      NeverBlocked(props, window, c0, lz0, full, sent, text, syms + more, at', lz', bad);
    }
  }

  lemma BlockedParts(props: Props, window: nat, buffer: seq<byte>, n: Coder, lz: Lz, more: seq<Symbol>, bad: Symbol, room: int, reach: nat)
    returns (mid: Coder, lz': Lz)
    requires Blocked(props, window, buffer, n, lz, more, bad, room, reach)
    ensures Decoded(props, window, buffer, n, lz, more, mid, lz') && Spells(mid, props, lz', bad, buffer) && !Fits(lz', bad, window)
    ensures |lz'.hist| < room && After(mid, SymbolOps(props, lz', bad), buffer).pos <= reach
    ensures Sound(mid) && mid.pos <= Normalize(mid, buffer).pos <= reach && |mid.probs| == |n.probs|
  {
    hide SymbolOps, Fits, AllOps, Run;
    mid, lz' := After(n, AllOps(props, lz, more, window), buffer), ApplyAll(lz, more, window);
    SymbolOpsNonEmpty(props, lz', bad);
    PastNormalization(mid, SymbolOps(props, lz', bad), buffer);
  }

  lemma {:induction false} ApplyConcat(lz0: Lz, a: seq<Symbol>, b: seq<Symbol>, window: nat)
    requires AllFit(lz0, a, window) && AllFit(ApplyAll(lz0, a, window), b, window)
    ensures AllFit(lz0, a + b, window) && ApplyAll(lz0, a + b, window) == ApplyAll(ApplyAll(lz0, a, window), b, window)
    decreases |b|
  {
    hide Apply, Fits, LzValid;
    if b == [] {
      assert a + b == a;
    } else {
      var n := |b| - 1;
      ApplyConcat(lz0, a, b[..n], window);
      assert (a + b)[..|a + b| - 1] == a + b[..n];
    }
  }

  /** What a run over a buffer finds in an encoder's chunk is what was sent, and it stays in the chunk. */
  lemma RunFindsSent(props: Props, window: nat, chunk: seq<byte>, c0: Coder, lz0: Lz, syms: seq<Symbol>, at: Coder, lz: Lz,
                     buffer: seq<byte>, from: nat, avail: nat, whole: seq<byte>, more: seq<Symbol>, last: Coder, lz': Lz, room: int,
                     full: seq<byte>, sent: seq<Symbol>)
    requires Decoded(props, window, chunk, c0, lz0, syms, at, lz) && Sound(at) && Normalize(at, chunk).pos <= |chunk| && chunk <= whole
    requires Decoded(props, window, buffer, Normalize(at, chunk).(pos := from), lz, more, last, lz') && Sound(last) && from <= last.pos
    requires Wanted(lz, more, window, room)
    requires Shows(buffer, from, avail, whole, Normalize(at, chunk).pos, full, Normalize(last, buffer).pos)
    requires Promises(props, window, c0, lz0, full, sent, room) && syms <= sent
    ensures syms + more <= sent && Normalize(at, chunk).pos + (Normalize(last, buffer).pos - from) <= |full|
  {
    hide Decoded, Wanted, Normalize, Agree, Genuine, Takes, AllOps, SymbolOps, Fits, AllFit, ApplyAll;
    GenuineFits(props, window, c0, lz0, full, sent);
    var used, reach := Normalize(at, chunk).pos, Normalize(last, buffer).pos;
    var delta := used - from;
    var text := Text(full, whole, buffer, from + avail);
    TextAgrees(buffer, from, avail, whole, used, full, reach);
    Absorb(props, window, chunk, text, c0, lz0, syms, at, lz, buffer, from, more, last, lz');
    var at' := if more == [] then at else Moved(last, delta);
    FoundInside(props, window, chunk, c0, lz0, full, sent, text, syms, at, lz, more, at', lz', room);
  }

  lemma FoundInside(props: Props, window: nat, chunk: seq<byte>, c0: Coder, lz0: Lz, full: seq<byte>, sent: seq<Symbol>, text: seq<byte>,
                    syms: seq<Symbol>, at: Coder, lz: Lz, more: seq<Symbol>, at': Coder, lz': Lz, room: int)
    requires Promises(props, window, c0, lz0, full, sent, room) && full <= text && chunk <= full && Sound(at)
    requires Decoded(props, window, chunk, c0, lz0, syms, at, lz) && Normalize(at, chunk).pos <= |chunk|
    requires Decoded(props, window, text, c0, lz0, syms + more, at', lz') && Wanted(lz, more, window, room)
    requires Sound(at') && (more == [] ==> at' == at) && syms <= sent
    ensures syms + more <= sent && Normalize(at', text).pos <= |full|
  {
    hide Normalize, Genuine, Takes, AllOps, SymbolOps, Fits, AllFit, ApplyAll;
    GenuineFits(props, window, c0, lz0, full, sent);
    if more == [] {
      assert syms + more == syms;
      ExtendChunk(props, window, chunk, text, c0, lz0, syms, at, lz);
    } else {
      var found := syms + more;
      var front := more[..|more| - 1];
      assert found[..|found| - 1] == syms + front;
      PrefixFits(lz, more, |more| - 1, window);
      ApplyConcat(lz0, syms, front, window);
      PrefixTakes(c0, props, lz0, found, |found| - 1, window, text);
      SentTaken(props, window, c0, lz0, full, sent, text);
      ShorterIsFewer(props, window, c0, lz0, syms + front, sent, text);
      StreamUnique(c0, props, lz0, found, sent, window, text);
      StaysInside(props, window, c0, lz0, full, sent, text, |found|);
    }
  }

  /** When all of the announced history is there, all symbols have been found, and the chunk ends. */
  lemma AllFound(props: Props, window: nat, chunk: seq<byte>, c0: Coder, lz0: Lz, full: seq<byte>, sent: seq<Symbol>,
                 syms: seq<Symbol>, at: Coder, lz: Lz, hist: seq<byte>)
    requires Genuine(props, window, c0, lz0, full, sent) && chunk <= full && Sound(at) && Normalize(at, chunk).pos <= |chunk|
    requires Decoded(props, window, chunk, c0, lz0, syms, at, lz) && hist <= lz.hist && |syms| <= |sent|
    requires AllFit(lz0, sent, window) && |hist| == |ApplyAll(lz0, sent, window).hist|
    ensures syms == sent && lz == ApplyAll(lz0, sent, window) && lz.hist == hist && PropsValid(props) && AllFair(c0.probs) && |c0.probs| == PROBS_TOTAL
    ensures Normalize(at, chunk).pos == |full| && Normalize(at, chunk).code == 0 && chunk == full
    ensures Normalize(at, chunk).probs == Standing(props, window, c0.probs, lz0, sent).probs
  {
    hide Normalize, Takes, AllOps, SymbolOps, Fits, AllFit, ApplyAll, Genuine;
    GenuineFits(props, window, c0, lz0, full, sent);
    ExtendChunk(props, window, chunk, full, c0, lz0, syms, at, lz);
    SentTaken(props, window, c0, lz0, full, sent, full);
    StreamUnique(c0, props, lz0, syms, sent, window, full);
    HistoryGrows(lz0, sent, |syms|, window);
    if |syms| < |sent| {
      StrictlyGrows(lz0, sent, |syms|, window);
    }
    assert sent[..|sent|] == sent;
    EndsExactly(props, window, c0, lz0, full, sent);
  }

  lemma StrictlyGrows(lz0: Lz, sent: seq<Symbol>, k: nat, window: nat)
    requires k < |sent| && AllFit(lz0, sent, window) && AllFit(lz0, sent[..k], window)
    ensures |ApplyAll(lz0, sent[..k], window).hist| < |ApplyAll(lz0, sent, window).hist|
  {
    hide Apply, Fits;
    var n := |sent| - 1;
    PrefixFits(lz0, sent, n, window);
    assert sent[..n][..k] == sent[..k];
    HistoryGrows(lz0, sent[..n], k, window);
  }
}
