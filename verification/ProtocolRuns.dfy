/** What can still happen: where a verdict comes from, what timers repeat, and when an upload can still succeed. */
module ProtocolRuns {
  import opened Memory
  import opened Protocol

  // ---------------------------------------------------------------------------------------------
  // More of what every run keeps

  /** The offer stands; whoever waits has its timers running and its request on the line. */
  predicate HostWaits(h: Host, file: seq<byte>, toDevice: set<Msg>) {
    && Poll(|file|) in toDevice
    && (h.phase == Polling ==> h.resetActive && h.resendActive)
    && (h.phase == Serving || h.phase == Beating ==> h.resetActive && !h.resendActive)
  }

  predicate DeviceWaits(d: Device, toHost: set<Msg>) {
    && (d.phase == Fetching ==> d.resetActive && d.resendActive && Rqch(d.iden, d.num) in toHost)
    && (d.phase.Booting? ==> d.resetActive && d.resendActive && Boot(d.iden, d.phase.ok) in toHost)
  }

  /** A verdict is one that the device gave, and only behind it anything was acknowledged to the device. */
  ghost predicate Judged(s: State) {
    && (s.host.phase.Done? ==> exists iden :: Boot(iden, s.host.phase.ok) in s.toHost)
    && (forall a: nat :: Ack(a) in s.toDevice ==> s.host.phase.Done?)
  }

  ghost predicate Attentive(s: State, file: seq<byte>) {
    HostWaits(s.host, file, s.toDevice) && DeviceWaits(s.device, s.toHost) && Judged(s)
  }

  lemma InitWaits(retries: nat, file: seq<byte>)
    ensures Attentive(Init(retries, file), file)
  {
  }

  lemma NextWaits(s: State, file: seq<byte>, e: Event)
    requires Attentive(s, file)
    ensures Attentive(Next(s, file, e), file)
  {
    hide ChunkCount, Chunk;
    HostWaitsOn(s, file, e);
    DeviceWaitsOn(s, file, e);
    JudgedOn(s, file, e);
  }

  lemma HostWaitsOn(s: State, file: seq<byte>, e: Event)
    requires HostWaits(s.host, file, s.toDevice)
    ensures HostWaits(Next(s, file, e).host, file, Next(s, file, e).toDevice)
  {
    hide DeviceStep, Chunk;
  }

  lemma DeviceWaitsOn(s: State, file: seq<byte>, e: Event)
    requires DeviceWaits(s.device, s.toHost)
    ensures DeviceWaits(Next(s, file, e).device, Next(s, file, e).toHost)
  {
    hide HostStep, ChunkCount;
  }

  lemma JudgedOn(s: State, file: seq<byte>, e: Event)
    requires Judged(s) && HostWaits(s.host, file, s.toDevice)
    ensures Judged(Next(s, file, e))
  {
    hide DeviceStep, Chunk;
    var s' := Next(s, file, e);
    if s.host.phase.Done? {
      var iden :| Boot(iden, s.host.phase.ok) in s.toHost;
      assert s'.host.phase == s.host.phase && Boot(iden, s.host.phase.ok) in s'.toHost;
    } else if s'.host.phase.Done? {
      assert e.HostGets? && e.m.Boot? && e.m in s.toHost;
      assert Boot(e.m.iden, s'.host.phase.ok) in s'.toHost;
    }
  }

  lemma {:induction false} RunWaits(retries: nat, file: seq<byte>, es: seq<Event>)
    ensures Attentive(Run(Init(retries, file), file, es), file)
  {
    hide Attentive, Next, Init;
    InitWaits(retries, file);
    if es != [] {
      RunWaits(retries, file, es[..|es| - 1]);
      NextWaits(Run(Init(retries, file), file, es[..|es| - 1]), file, es[|es| - 1]);
    }
  }

  /** What the host reports is what some BOOT frame of the device said, whatever the size of the file. */
  lemma VerdictIsDevices(retries: nat, file: seq<byte>, es: seq<Event>)
    requires Run(Init(retries, file), file, es).host.phase.Done?
    ensures var s := Run(Init(retries, file), file, es); exists iden :: Boot(iden, s.host.phase.ok) in s.toHost
  {
    hide Run, Init;
    RunWaits(retries, file, es);
  }

  /** Whoever waits for an answer repeats its request and nothing else when its timer says so, and goes on waiting. */
  lemma ResendRepeats(retries: nat, file: seq<byte>, es: seq<Event>)
    ensures var s := Run(Init(retries, file), file, es);
            && (s.host.phase == Polling ==>
                  HostStep(s.host, file, HostResendTimer, s.toHost) == (s.host, {Poll(|file|)}) && Poll(|file|) in s.toDevice)
            && (s.device.phase == Fetching ==>
                  var m := Rqch(s.device.iden, s.device.num);
                  DeviceStep(s.device, DeviceResendTimer, s.toDevice) == (s.device, {m}) && m in s.toHost)
            && (s.device.phase.Booting? ==>
                  var m := Boot(s.device.iden, s.device.phase.ok);
                  DeviceStep(s.device, DeviceResendTimer, s.toDevice) == (s.device, {m}) && m in s.toHost)
  {
    hide Run, Init;
    RunWaits(retries, file, es);
  }

  /** A frame that is not the chunk awaited makes the device ask again, and changes nothing else. */
  lemma WrongFrameAsksAgain(retries: nat, file: seq<byte>, es: seq<Event>, m: Msg, fine: bool)
    requires var s := Run(Init(retries, file), file, es);
             s.device.phase == Fetching && m in s.toDevice && !m.Ack? && !(m.Chnk? && m.iden == s.device.iden)
    ensures var s := Run(Init(retries, file), file, es);
            var r := Rqch(s.device.iden, s.device.num);
            DeviceStep(s.device, DeviceGets(m, fine), s.toDevice) == (s.device, {r}) && r in s.toHost
  {
    hide Run, Init;
    RunWaits(retries, file, es);
  }

  // ---------------------------------------------------------------------------------------------
  // Giving up

  function Resets(es: seq<Event>): nat {
    if es == [] then 0 else Resets(es[..|es| - 1]) + if es[|es| - 1] == HostResetTimer then 1 else 0
  }

  lemma {:induction false} RetriesLeft(retries: nat, file: seq<byte>, es: seq<Event>)
    ensures var h := Run(Init(retries, file), file, es).host;
            h.retries + Resets(es) >= retries && (h.phase == TimedOut ==> Resets(es) > retries)
  {
    hide Next, Init;
    if es == [] {
      FirstTry(retries, file);
    } else {
      RetriesLeft(retries, file, es[..|es| - 1]);
      OneReset(Run(Init(retries, file), file, es[..|es| - 1]), file, es[|es| - 1]);
    }
  }

  lemma FirstTry(retries: nat, file: seq<byte>)
    ensures Init(retries, file).host.retries == retries && Init(retries, file).host.phase == Polling
  {
  }

  lemma OneReset(s: State, file: seq<byte>, e: Event)
    ensures var h, h' := s.host, Next(s, file, e).host;
            && h'.retries + (if e == HostResetTimer then 1 else 0) >= h.retries
            && (h'.phase == TimedOut && h.phase != TimedOut ==> e == HostResetTimer && h.retries == 0)
  {
    hide DeviceStep, Chunk;
  }

  /** The host gives up only when its reset timer has fired more often than it had retries. */
  lemma GivesUpLate(retries: nat, file: seq<byte>, es: seq<Event>)
    requires Run(Init(retries, file), file, es).host.phase == TimedOut
    ensures Resets(es) > retries
  {
    hide Run, Init;
    RetriesLeft(retries, file, es);
  }

  predicate AllResets(es: seq<Event>) {
    forall i :: 0 <= i < |es| ==> es[i] == HostResetTimer
  }

  /** And left alone it gives up at exactly that reset. */
  lemma {:induction false} GivesUpExactly(retries: nat, file: seq<byte>, es: seq<Event>)
    requires AllResets(es)
    ensures var h := Run(Init(retries, file), file, es).host;
            && (h.phase == TimedOut <==> |es| > retries)
            && (|es| <= retries ==> h.phase == Polling && h.resetActive && h.retries == retries - |es|)
  {
    hide DeviceStep;
    if es != [] {
      GivesUpExactly(retries, file, es[..|es| - 1]);
    }
  }

  /** As long as the host has not ended, its reset timer makes it begin again, or give up when no retry is left. */
  lemma ResetBeginsAgain(retries: nat, file: seq<byte>, es: seq<Event>)
    ensures var s := Run(Init(retries, file), file, es);
            var (h, sent) := HostStep(s.host, file, HostResetTimer, s.toHost);
            (s.host.phase == Polling || s.host.phase == Serving || s.host.phase == Beating) ==>
              if s.host.retries == 0 then h.phase == TimedOut
              else h.phase == Polling && h.retries == s.host.retries - 1 && sent == {Poll(|file|)}
  {
    hide Run, Init;
    RunWaits(retries, file, es);
  }

  // ---------------------------------------------------------------------------------------------
  // Chunks that were asked for, and chunks that were sent

  ghost predicate AllSent(toDevice: set<Msg>, file: seq<byte>, k: nat) {
    forall j :: 0 <= j < k ==> Chnk(j, Chunk(file, j)) in toDevice
  }

  ghost predicate Supplied(s: State, file: seq<byte>) {
    var n := ChunkCount(|file|);
    && (forall i: nat, k: nat :: Rqch(i, k) in s.toHost ==> k < n)
    && (s.device.phase == Fetching ==> AllSent(s.toDevice, file, s.device.num))
    && (PastChunks(s.device) ==> AllSent(s.toDevice, file, n))
    && (forall i: nat :: Beat(i) in s.toHost ==> AllSent(s.toDevice, file, n))
    && (s.host.phase == Beating ==> AllSent(s.toDevice, file, n))
    && s.host.phase != Gone
  }

  lemma InitSupplied(retries: nat, file: seq<byte>)
    ensures Supplied(Init(retries, file), file)
  {
    hide ChunkCount;
  }

  lemma SentMore(toDevice: set<Msg>, toDevice': set<Msg>, file: seq<byte>, k: nat)
    requires AllSent(toDevice, file, k) && toDevice <= toDevice'
    ensures AllSent(toDevice', file, k)
  {
    hide Chunk;
  }

  /** A chunk that was asked for is not empty. */
  lemma NotBeyond(file: seq<byte>, k: nat)
    requires |file| <= LIMIT && k < ChunkCount(|file|)
    ensures Chunk(file, k) != []
  {
    CountCovers(|file|);
    hide ChunkCount;
    assert k * CHUNK <= (ChunkCount(|file|) - 1) * CHUNK;
  }

  lemma HostSupplies(s: State, file: seq<byte>, e: Event)
    requires |file| <= LIMIT && Inv(s, file) && Attentive(s, file) && Supplied(s, file)
    ensures var s' := Next(s, file, e);
            s'.host.phase != Gone && (s'.host.phase == Beating ==> AllSent(s.toDevice, file, ChunkCount(|file|)))
  {
    hide DeviceStep, ChunkCount, Chunk, AllSent, DeviceGood, DeviceWaits, Judged;
    if e.HostGets? && e.m in s.toHost && e.m.Rqch? {
      NotBeyond(file, e.m.num);
    }
  }

  /** The device asks for chunks below the count, and goes on only with a chunk that was sent. */
  lemma DeviceAsks(s: State, file: seq<byte>, e: Event)
    requires |file| <= LIMIT && Inv(s, file) && Supplied(s, file)
    ensures var (d, sent) := DeviceStep(s.device, e, s.toDevice);
            && (forall i: nat, k: nat :: Rqch(i, k) in sent ==> k < ChunkCount(|file|))
            && (d.phase == Fetching ==> AllSent(s.toDevice, file, d.num))
            && (PastChunks(d) ==> AllSent(s.toDevice, file, ChunkCount(|file|)))
            && (forall i: nat :: Beat(i) in sent ==> AllSent(s.toDevice, file, ChunkCount(|file|)))
  {
    hide ChunkCount, Chunk, HostGood, Upto;
    CountCovers(|file|);
    if e.DeviceGets? && e.msg in s.toDevice {
      assert HostMsgGood(file, e.msg, s.toHost);
    }
  }

  lemma NextSupplied(s: State, file: seq<byte>, e: Event)
    requires |file| <= LIMIT && Inv(s, file) && Attentive(s, file) && Supplied(s, file)
    ensures Supplied(Next(s, file, e), file)
  {
    hide HostStep, DeviceStep, ChunkCount, Chunk, AllSent, Inv, Attentive;
    HostSupplies(s, file, e);
    DeviceAsks(s, file, e);
    var s' := Next(s, file, e);
    forall k: nat | AllSent(s.toDevice, file, k) ensures AllSent(s'.toDevice, file, k) {
      SentMore(s.toDevice, s'.toDevice, file, k);
    }
  }

  /** Everything that is known of the states that a run below the limit leads to. */
  ghost predicate Sane(s: State, file: seq<byte>) {
    Inv(s, file) && Attentive(s, file) && Supplied(s, file)
  }

  lemma NextSane(s: State, file: seq<byte>, e: Event)
    requires |file| <= LIMIT && Sane(s, file)
    ensures Sane(Next(s, file, e), file)
  {
    hide Inv, Attentive, Supplied, Next;
    NextInv(s, file, e);
    NextWaits(s, file, e);
    NextSupplied(s, file, e);
  }

  lemma {:induction false} RunSane(s: State, file: seq<byte>, es: seq<Event>)
    requires |file| <= LIMIT && Sane(s, file)
    ensures Sane(Run(s, file, es), file)
  {
    hide Sane, Next;
    if es != [] {
      RunSane(s, file, es[..|es| - 1]);
      NextSane(Run(s, file, es[..|es| - 1]), file, es[|es| - 1]);
    }
  }

  lemma InitSane(retries: nat, file: seq<byte>)
    ensures Sane(Init(retries, file), file)
  {
    hide Inv, Attentive, Supplied, Init;
    InitInv(retries, file);
    InitWaits(retries, file);
    InitSupplied(retries, file);
  }

  /** Below the limit the host is never asked for a chunk that it does not have. */
  lemma NeverGone(retries: nat, file: seq<byte>, es: seq<Event>)
    requires |file| <= LIMIT
    ensures Run(Init(retries, file), file, es).host.phase != Gone
  {
    hide Run, Init, Inv, Attentive;
    InitSane(retries, file);
    RunSane(Init(retries, file), file, es);
  }

  // ---------------------------------------------------------------------------------------------
  // An upload can still succeed as long as the host has not given up

  /** A state in which both parties have finished. */
  ghost predicate Succeeded(s: State, file: seq<byte>) {
    s.host.phase == Done(true) && s.device.phase == Left && s.loaded && s.device.fed == file
  }

  predicate Alive(h: Host) {
    h.phase == Polling || h.phase == Serving || h.phase == Beating
  }

  /** What happens to the device does not change the host. */
  lemma HostRests(s: State, file: seq<byte>, e: Event)
    requires !e.HostGets? && !e.HostResetTimer? && !e.HostResendTimer?
    ensures var s' := Next(s, file, e); s'.host == s.host && s'.toDevice == s.toDevice && s.toHost <= s'.toHost
  {
    hide DeviceStep;
  }

  lemma DeviceRests(s: State, file: seq<byte>, e: Event)
    requires e.HostGets? || e.HostResetTimer? || e.HostResendTimer?
    ensures var s' := Next(s, file, e); s'.device == s.device && s'.toHost == s.toHost && s.toDevice <= s'.toDevice
  {
    hide HostStep;
  }

  /** A device that has not left can come to wait for an offer. */
  lemma ToWaiting(s: State, file: seq<byte>) returns (es: seq<Event>)
    requires Sane(s, file) && s.device.phase != Left
    ensures var s' := Run(s, file, es);
            s'.device.phase == Waiting && s'.host == s.host && s'.toDevice == s.toDevice
  {
    hide Next, Inv, Judged, Supplied;
    RunNone(s, file);
    if s.device.phase == Waiting {
      es := [];
    } else if s.device.phase == Loading {
      var e0, e1 := DeviceLoads(false), DeviceResetTimer;
      RunOne(s, file, [], e0);
      RunOne(s, file, [] + [e0], e1);
      BadImage(s, file);
      es := [] + [e0] + [e1];
    } else {
      RunOne(s, file, [], DeviceResetTimer);
      HostRests(s, file, DeviceResetTimer);
      StartsOver(s, file);
      es := [] + [DeviceResetTimer];
    }
  }

  lemma StartsOver(s: State, file: seq<byte>)
    requires (s.device.phase == Fetching || s.device.phase.Booting?) && s.device.resetActive
    ensures Next(s, file, DeviceResetTimer).device.phase == Waiting
  {
  }

  lemma BadImage(s: State, file: seq<byte>)
    requires s.device.phase == Loading
    ensures var s1 := Next(s, file, DeviceLoads(false));
            var s2 := Next(s1, file, DeviceResetTimer);
            s2.device.phase == Waiting && s2.host == s.host && s2.toDevice == s.toDevice
  {
    hide Fetch, Chunk;
  }

  /** The offer is repeated: the device begins again. */
  lemma Offered(s: State, file: seq<byte>)
    requires s.device.phase == Waiting && Poll(|file|) in s.toDevice
    ensures var s' := Next(s, file, DeviceGets(Poll(|file|), true));
            && s'.host == s.host && s'.toDevice == s.toDevice && Ack(0) in s'.toHost
            && (if ChunkCount(|file|) > 0 then s'.device.phase == Fetching && s'.device.num == 0 else s'.device.phase == Loading)
  {
    hide ChunkCount;
  }

  /** The device fetches, and its requests can be answered. */
  ghost predicate Fed(s: State, file: seq<byte>) {
    && Sane(s, file) && (s.device.phase == Fetching || s.device.phase == Loading)
    && (s.host.phase == Serving || (s.host.phase == Beating && AllSent(s.toDevice, file, ChunkCount(|file|))))
  }

  /** One chunk: the host answers unless the line still has the answer of an earlier request. */
  lemma OneChunk(s: State, file: seq<byte>) returns (es: seq<Event>)
    requires |file| <= LIMIT && Fed(s, file) && s.device.phase == Fetching
    ensures var s' := Run(s, file, es);
            Fed(s', file) && (s'.device.phase == Fetching ==> s'.device.num == s.device.num + 1 <= ChunkCount(|file|))
  {
    hide Next, Inv, Attentive, Supplied, Chunk, AllSent, ChunkCount;
    var k := s.device.num;
    var get := DeviceGets(Chnk(k, Chunk(file, k)), true);
    RunNone(s, file);
    NumbersAgree(s, file);
    if s.host.phase == Serving {
      var ask := HostGets(Rqch(k, k));
      var s1 := Next(s, file, ask);
      Answered(s, file, k);
      NextSane(s, file, ask);
      DeviceRests(s, file, ask);
      Taken(s1, file, k);
      NextSane(s1, file, get);
      HostRests(s1, file, get);
      RunOne(s, file, [], ask);
      RunOne(s, file, [] + [ask], get);
      es := [] + [ask] + [get];
    } else {
      assert Chnk(k, Chunk(file, k)) in s.toDevice by { IsSent(s.toDevice, file, ChunkCount(|file|), k); }
      Taken(s, file, k);
      NextSane(s, file, get);
      HostRests(s, file, get);
      RunOne(s, file, [], get);
      es := [] + [get];
    }
  }

  lemma IsSent(toDevice: set<Msg>, file: seq<byte>, n: nat, k: nat)
    requires AllSent(toDevice, file, n) && k < n
    ensures Chnk(k, Chunk(file, k)) in toDevice
  {
    hide Chunk;
  }

  lemma NumbersAgree(s: State, file: seq<byte>)
    requires Sane(s, file) && s.device.phase == Fetching
    ensures s.device.iden == s.device.num < s.device.count == ChunkCount(|file|) && Rqch(s.device.num, s.device.num) in s.toHost
  {
    hide ChunkCount, Chunk, Upto;
  }

  lemma Answered(s: State, file: seq<byte>, k: nat)
    requires |file| <= LIMIT && s.host.phase == Serving && Rqch(k, k) in s.toHost && k < ChunkCount(|file|)
    ensures var s' := Next(s, file, HostGets(Rqch(k, k)));
            s'.host.phase == Serving && Chnk(k, Chunk(file, k)) in s'.toDevice
  {
    hide DeviceStep, Chunk, ChunkCount;
    NotBeyond(file, k);
  }

  lemma Taken(s: State, file: seq<byte>, k: nat)
    requires |file| <= LIMIT && Sane(s, file) && s.device.phase == Fetching && s.device.num == s.device.iden == k < s.device.count == ChunkCount(|file|)
    requires Chnk(k, Chunk(file, k)) in s.toDevice
    ensures var s' := Next(s, file, DeviceGets(Chnk(k, Chunk(file, k)), true));
            if k + 1 < ChunkCount(|file|) then s'.device.phase == Fetching && s'.device.num == k + 1 else s'.device.phase == Loading
  {
    hide HostStep, Chunk, ChunkCount, Sane;
  }

  lemma {:induction false} AllChunks(s: State, file: seq<byte>) returns (es: seq<Event>)
    requires |file| <= LIMIT && Fed(s, file)
    ensures var s' := Run(s, file, es); Fed(s', file) && s'.device.phase == Loading
    decreases if s.device.phase == Fetching then ChunkCount(|file|) + 1 - s.device.num else 0
  {
    hide Run, Next, Sane, AllSent, ChunkCount;
    if s.device.phase == Loading {
      RunNone(s, file);
      es := [];
    } else {
      NumbersAgree(s, file);
      var one := OneChunk(s, file);
      var more := AllChunks(Run(s, file, one), file);
      RunConcat(s, file, one, more);
      es := one + more;
    }
  }

  /** The last steps: a heartbeat, the verdict, and its acknowledgement. */
  lemma Verdict(s: State, file: seq<byte>) returns (es: seq<Event>)
    requires |file| <= LIMIT && Fed(s, file) && s.device.phase == Loading
    ensures Succeeded(Run(s, file, es), file)
  {
    hide Next, Chunk, ChunkCount, AllSent, Attentive, Supplied;
    var i := s.device.iden;
    es := [];
    var e1, e2, e3, e4, e5 := DeviceBeats, HostGets(Beat(i)), DeviceLoads(true), HostGets(Boot(i, true)), DeviceGets(Ack(i), true);
    RunNone(s, file);
    RunOne(s, file, [], e1);
    RunOne(s, file, [] + [e1], e2);
    RunOne(s, file, [] + [e1] + [e2], e3);
    RunOne(s, file, [] + [e1] + [e2] + [e3], e4);
    RunOne(s, file, [] + [e1] + [e2] + [e3] + [e4], e5);
    es := [] + [e1] + [e2] + [e3] + [e4] + [e5];
    assert s.device.fed == file;
    Beats(s, file);
    Loads(Next(Next(s, file, e1), file, e2), file);
  }

  lemma Beats(s: State, file: seq<byte>)
    requires s.device.phase == Loading && (s.host.phase == Serving || s.host.phase == Beating)
    ensures var s' := Next(Next(s, file, DeviceBeats), file, HostGets(Beat(s.device.iden)));
            s'.device == s.device && s'.host.phase == Beating
  {
    hide Chunk, Fetch;
  }

  lemma Loads(s: State, file: seq<byte>)
    requires s.device.phase == Loading && s.device.fed == file && s.host.phase == Beating
    ensures var i := s.device.iden;
            Succeeded(Next(Next(Next(s, file, DeviceLoads(true)), file, HostGets(Boot(i, true))), file, DeviceGets(Ack(i), true)), file)
  {
    hide Chunk, Fetch;
  }

  lemma Accepted(s: State, file: seq<byte>)
    requires s.host.phase == Polling && Ack(0) in s.toHost
    ensures var s' := Next(s, file, HostGets(Ack(0)));
            s'.host.phase == Serving && s'.device == s.device && s'.toHost == s.toHost
  {
    hide Chunk, Fetch;
  }

  /** Host and device come together again. */
  lemma Rejoined(s: State, file: seq<byte>) returns (es: seq<Event>)
    requires |file| <= LIMIT && Sane(s, file) && Alive(s.host) && s.device.phase == Waiting
    ensures Fed(Run(s, file, es), file)
  {
    hide Run, Next, Inv, Supplied, AllSent, ChunkCount;
    var e0, e1 := DeviceGets(Poll(|file|), true), HostGets(Ack(0));
    RunNone(s, file);
    RunOne(s, file, [], e0);
    Offered(s, file);
    var s1 := Next(s, file, e0);
    NextSane(s, file, e0);
    if s.host.phase == Polling {
      Accepted(s1, file);
      NextSane(s1, file, e1);
      RunOne(s, file, [] + [e0], e1);
      es := [] + [e0] + [e1];
    } else {
      es := [] + [e0];
      BeatingMeansSent(s1, file);
    }
  }

  lemma BeatingMeansSent(s: State, file: seq<byte>)
    requires Supplied(s, file)
    ensures s.host.phase == Beating ==> AllSent(s.toDevice, file, ChunkCount(|file|))
  {
    hide ChunkCount;
  }

  lemma NotLeft(s: State, file: seq<byte>)
    requires Sane(s, file) && Alive(s.host)
    ensures s.device.phase != Left
  {
    hide Supplied, ChunkCount;
  }

  /** From wherever a run has led, host and device can still finish as long as the host has not ended. */
  lemma CanFinish(retries: nat, file: seq<byte>, es: seq<Event>) returns (more: seq<Event>)
    requires |file| <= LIMIT && Alive(Run(Init(retries, file), file, es).host)
    ensures Succeeded(Run(Init(retries, file), file, es + more), file)
  {
    hide Run, Init, Sane, Next, Alive, Succeeded;
    var s0 := Init(retries, file);
    var s := Run(s0, file, es);
    InitSane(retries, file);
    RunSane(s0, file, es);
    NotLeft(s, file);
    var a := ToWaiting(s, file);
    RunSane(s, file, a);
    var b := Rejoined(Run(s, file, a), file);
    var c := AllChunks(Run(Run(s, file, a), file, b), file);
    var d := Verdict(Run(Run(Run(s, file, a), file, b), file, c), file);
    RunConcat(s, file, a, b);
    RunConcat(s, file, a + b, c);
    RunConcat(s, file, a + b + c, d);
    more := a + b + c + d;
    RunConcat(s0, file, es, more);
  }

  /** Every file up to the limit can be uploaded. */
  lemma UploadSucceeds(retries: nat, file: seq<byte>) returns (es: seq<Event>)
    requires |file| <= LIMIT
    ensures Succeeded(Run(Init(retries, file), file, es), file)
  {
    hide Next;
    RunNone(Init(retries, file), file);
    es := CanFinish(retries, file, []);
    assert [] + es == es;
  }

  lemma {:induction false} EndedStays(s: State, file: seq<byte>, es: seq<Event>)
    requires !Alive(s.host)
    ensures Run(s, file, es).host == s.host
  {
    if es != [] {
      EndedStays(s, file, es[..|es| - 1]);
      hide DeviceStep;
    }
  }

  /** The host can still come to report success if and only if it has not ended otherwise. */
  lemma SuccessStillPossible(retries: nat, file: seq<byte>, es: seq<Event>)
    requires |file| <= LIMIT
    ensures var h := Run(Init(retries, file), file, es).host;
            (exists more :: Run(Init(retries, file), file, es + more).host.phase == Done(true)) <==> Alive(h) || h.phase == Done(true)
  {
    hide Run, Init;
    var s0 := Init(retries, file);
    var s := Run(s0, file, es);
    if Alive(s.host) {
      var more := CanFinish(retries, file, es);
    } else {
      forall more ensures Run(s0, file, es + more).host == s.host {
        RunConcat(s0, file, es, more);
        EndedStays(s, file, more);
      }
      assert es + [] == es;
    }
  }
}
