/**
 * The boot protocol: an uploading host, a downloading device, and a line between them that may lose,
 * repeat and reorder whatever was sent.
 */
module Protocol {
  import opened Memory

  const CHUNK := 0xFFFF
  const WORD := 0x1_0000_0000
  const IDENS := 0x1_0000

  /** The largest file whose chunks all have different numbers on the wire. */
  const LIMIT := CHUNK * IDENS

  // ---------------------------------------------------------------------------------------------
  // Messages and states

  /** Frames and acknowledgements; a POLL carries the size of the file that is offered. */
  datatype Msg =
    | Poll(wireSize: nat)
    | Chnk(iden: nat, data: seq<byte>)
    | Rqch(iden: nat, num: nat)
    | Beat(iden: nat)
    | Boot(iden: nat, ok: bool)
    | Ack(iden: nat)

  datatype HostPhase = Polling | Serving | Beating | Done(ok: bool) | TimedOut | Gone

  datatype Host = Host(phase: HostPhase, retries: nat, lastChunk: nat, resetActive: bool, resendActive: bool, framebuf: Msg)

  datatype DevicePhase = Waiting | Fetching | Loading | Booting(ok: bool) | Left

  datatype Device = Device(phase: DevicePhase, iden: nat, num: nat, count: nat, fed: seq<byte>, resetActive: bool, resendActive: bool)

  /**
   * Both parties and everything that was ever sent.  `loaded` records whether some device session had
   * been fed the whole file when its image was found good.
   */
  datatype State = State(host: Host, device: Device, toDevice: set<Msg>, toHost: set<Msg>, loaded: bool)

  /** What may happen next; the flags are answers of code outside the protocol. */
  datatype Event =
    | HostGets(m: Msg)
    | HostResetTimer
    | HostResendTimer
    | DeviceGets(msg: Msg, fine: bool)
    | DeviceResetTimer
    | DeviceResendTimer
    | DeviceBeats
    | DeviceLoads(good: bool)

  // ---------------------------------------------------------------------------------------------
  // The file in chunks

  function Min(a: nat, b: nat): nat {
    if a < b then a else b
  }

  /** `platform_marshal`: chunk `k`, which is shorter at the end of the file and empty beyond it. */
  function Chunk(file: seq<byte>, k: nat): seq<byte> {
    file[Min(k * CHUNK, |file|)..Min((k + 1) * CHUNK, |file|)]
  }

  /** The first `k` chunks. */
  function Upto(file: seq<byte>, k: nat): seq<byte> {
    file[..Min(k * CHUNK, |file|)]
  }

  lemma UptoNext(file: seq<byte>, k: nat)
    ensures Upto(file, k) + Chunk(file, k) == Upto(file, k + 1)
  {
  }

  /** The number of chunks, as 32-bit arithmetic has it. */
  function ChunkCount(wireSize: nat): (n: nat)
    ensures n <= 0x1_0001
  {
    (wireSize + 0xFFFE) % WORD / CHUNK
  }

  // ---------------------------------------------------------------------------------------------
  // The host

  /** `reset:` one more attempt, or none. */
  function HostReset(h: Host, file: seq<byte>): (Host, set<Msg>) {
    if h.retries == 0 then (h.(phase := TimedOut), {})
    else (h.(phase := Polling, retries := h.retries - 1, resetActive := true, resendActive := true), {Poll(|file|)})
  }

  function HostStart(retries: nat, file: seq<byte>): (Host, set<Msg>) {
    HostReset(Host(Polling, retries + 1, 0, false, false, Poll(0)), file)
  }

  /** What the main loop does with the frame in its buffer. */
  function Serve(h: Host, file: seq<byte>, m: Msg): (Host, set<Msg>) {
    match m
    case Beat(_) => (h.(phase := Beating), {})
    case Boot(iden, ok) => (h.(phase := Done(ok)), {Ack(iden)})
    case Rqch(iden, num) =>
      if Chunk(file, num) == [] then (h.(phase := Gone), {}) else (h.(lastChunk := num), {Chnk(iden, Chunk(file, num))})
    case _ => (h, {})
  }

  function HostStep(h: Host, file: seq<byte>, e: Event, toHost: set<Msg>): (Host, set<Msg>) {
    match e
    case HostResetTimer =>
      if h.resetActive && (h.phase == Polling || h.phase == Serving || h.phase == Beating) then HostReset(h, file) else (h, {})
    case HostResendTimer =>
      if !h.resendActive then (h, {})
      else if h.phase == Polling then (h, {Poll(|file|)})
      else if h.phase == Serving then Serve(h, file, h.framebuf)
      else (h, {})
    case HostGets(m) =>
      if m !in toHost then (h, {})
      else if h.phase == Polling then
        if m == Ack(0) then (h.(phase := Serving, lastChunk := 0, resetActive := true, resendActive := false), {}) else (h, {})
      else if m.Ack? then (h, {})
      else if h.phase == Serving then Serve(h.(framebuf := m), file, m)
      else if h.phase == Beating then
        if m.Boot? then (h.(framebuf := m, phase := Done(m.ok)), {Ack(m.iden)}) else (h.(framebuf := m), {})
      else (h, {})
    case _ => (h, {})
  }

  // ---------------------------------------------------------------------------------------------
  // The device

  function DeviceReset(d: Device): Device {
    d.(phase := Waiting, iden := 0, resetActive := false, resendActive := false)
  }

  function DeviceStart(): Device {
    Device(Waiting, 0, 0, 0, [], false, false)
  }

  /** The top of the chunk loop: ask for the next chunk, or go on to the image. */
  function Fetch(d: Device): (Device, set<Msg>) {
    if d.num < d.count then (d.(phase := Fetching, resendActive := true), {Rqch(d.iden, d.num)})
    else (d.(phase := Loading), {})
  }

  function DeviceStep(d: Device, e: Event, toDevice: set<Msg>): (Device, set<Msg>) {
    match e
    case DeviceResetTimer =>
      if d.resetActive && (d.phase == Fetching || d.phase.Booting?) then (DeviceReset(d), {}) else (d, {})
    case DeviceResendTimer =>
      if !d.resendActive then (d, {})
      else if d.phase == Fetching then (d, {Rqch(d.iden, d.num)})
      else if d.phase.Booting? then (d, {Boot(d.iden, d.phase.ok)})
      else (d, {})
    case DeviceBeats => if d.phase == Loading then (d, {Beat(d.iden)}) else (d, {})
    case DeviceLoads(good) =>
      if d.phase == Loading then (d.(phase := Booting(good), resetActive := true, resendActive := true), {Boot(d.iden, good)})
      else (d, {})
    case DeviceGets(m, fine) =>
      if m !in toDevice then (d, {})
      else if d.phase == Waiting then
        if !m.Poll? then (d, {})
        else if !fine then (DeviceReset(d), {})
        else
          var (next, sent) := Fetch(d.(resetActive := true, num := 0, count := ChunkCount(m.wireSize), fed := []));
          (next, sent + {Ack(0)})
      else if d.phase == Fetching then
        if m.Ack? then (d, {})
        else if !(m.Chnk? && m.iden == d.iden) then (d, {Rqch(d.iden, d.num)})
        else if !fine then (DeviceReset(d), {})
        else Fetch(d.(resetActive := true, fed := d.fed + m.data, iden := (d.iden + 1) % IDENS, num := d.num + 1))
      else if d.phase.Booting? && m == Ack(d.iden) then (d.(phase := Left), {})
      else (d, {})
    case _ => (d, {})
  }

  // ---------------------------------------------------------------------------------------------
  // Runs

  function Init(retries: nat, file: seq<byte>): State {
    var (h, sent) := HostStart(retries, file);
    State(h, DeviceStart(), sent, {}, false)
  }

  /** An event that cannot happen changes nothing. */
  function Next(s: State, file: seq<byte>, e: Event): State {
    var (h, toD) := HostStep(s.host, file, e, s.toHost);
    var (d, toH) := DeviceStep(s.device, e, s.toDevice);
    State(h, d, s.toDevice + toD, s.toHost + toH,
          s.loaded || (e == DeviceLoads(true) && s.device.phase == Loading && s.device.fed == file))
  }

  function Run(s: State, file: seq<byte>, es: seq<Event>): State {
    if es == [] then s else Next(Run(s, file, es[..|es| - 1]), file, es[|es| - 1])
  }

  lemma {:induction false} RunConcat(s: State, file: seq<byte>, a: seq<Event>, b: seq<Event>)
    ensures Run(s, file, a + b) == Run(Run(s, file, a), file, b)
  {
    hide Next;
    if b == [] {
      assert a + b == a;
    } else {
      RunConcat(s, file, a, b[..|b| - 1]);
      assert (a + b)[..|a + b| - 1] == a + b[..|b| - 1];
    }
  }

  // ---------------------------------------------------------------------------------------------
  // What every run keeps

  /** The downloader is behind its chunk loop. */
  predicate PastChunks(d: Device) {
    d.phase == Loading || d.phase.Booting? || d.phase == Left
  }

  predicate HostMsgGood(file: seq<byte>, m: Msg, toHost: set<Msg>) {
    match m
    case Poll(n) => n == |file|
    case Chnk(iden, data) => iden < IDENS && data == Chunk(file, iden)
    case Ack(iden) => Boot(iden, true) in toHost || Boot(iden, false) in toHost
    case _ => false
  }

  predicate DeviceMsgGood(m: Msg, loaded: bool) {
    match m
    case Rqch(iden, num) => iden == num < IDENS
    case Boot(_, ok) => ok ==> loaded
    case Poll(_) => false
    case Chnk(_, _) => false
    case _ => true
  }

  predicate DeviceGood(d: Device, file: seq<byte>, toHost: set<Msg>, loaded: bool) {
    && (d.phase == Fetching ==> d.iden == d.num < d.count == ChunkCount(|file|) && d.fed == Upto(file, d.num))
    && (PastChunks(d) ==> d.fed == file)
    && (d.phase == Waiting ==> d.iden == 0 && !d.resetActive && !d.resendActive)
    && (d.phase.Booting? ==> Boot(d.iden, d.phase.ok) in toHost && (d.phase.ok ==> loaded))
  }

  predicate HostGood(h: Host, toHost: set<Msg>, loaded: bool) {
    && (h.phase == Serving || h.phase == Beating ==> !h.resendActive)
    && (h.phase == Done(true) ==> loaded)
  }

  ghost predicate Inv(s: State, file: seq<byte>) {
    && (forall m :: m in s.toDevice ==> HostMsgGood(file, m, s.toHost))
    && (forall m :: m in s.toHost ==> DeviceMsgGood(m, s.loaded))
    && DeviceGood(s.device, file, s.toHost, s.loaded)
    && HostGood(s.host, s.toHost, s.loaded)
    && (s.device.phase == Left ==> Ack(s.device.iden) in s.toDevice)
  }

  /** Below the limit the chunks cover the file, and their numbers fit the wire. */
  lemma CountCovers(n: nat)
    requires n <= LIMIT
    ensures ChunkCount(n) <= IDENS && n <= ChunkCount(n) * CHUNK && (ChunkCount(n) > 0 ==> (ChunkCount(n) - 1) * CHUNK < n)
  {
    var c := ChunkCount(n);
    assert c * CHUNK <= n + 0xFFFE < (c + 1) * CHUNK;
  }

  lemma AllFed(file: seq<byte>, k: nat)
    requires |file| <= k * CHUNK
    ensures Upto(file, k) == file
  {
  }

  lemma InitInv(retries: nat, file: seq<byte>)
    ensures Inv(Init(retries, file), file)
  {
  }

  lemma FetchGood(d: Device, file: seq<byte>, toHost: set<Msg>, loaded: bool)
    requires |file| <= LIMIT && d.num <= d.count == ChunkCount(|file|) && d.fed == Upto(file, d.num) && d.iden == d.num % IDENS
    ensures var (d', sent) := Fetch(d);
            DeviceGood(d', file, toHost, loaded) && forall m :: m in sent ==> DeviceMsgGood(m, loaded)
  {
    hide ChunkCount, Upto;
    CountCovers(|file|);
    if d.num == d.count {
      AllFed(file, d.num);
    }
  }

  /** A chunk that carries the number asked for is the chunk asked for. */
  lemma TakeGood(d: Device, file: seq<byte>, toHost: set<Msg>, loaded: bool, m: Msg)
    requires |file| <= LIMIT && d.phase == Fetching && DeviceGood(d, file, toHost, loaded)
    requires HostMsgGood(file, m, toHost) && m.Chnk? && m.iden == d.iden
    ensures var (d', sent) := Fetch(d.(resetActive := true, fed := d.fed + m.data, iden := (d.iden + 1) % IDENS, num := d.num + 1));
            DeviceGood(d', file, toHost, loaded) && forall m :: m in sent ==> DeviceMsgGood(m, loaded)
  {
    hide ChunkCount, Upto, Fetch, Chunk;
    CountCovers(|file|);
    UptoNext(file, d.num);
    FetchGood(d.(resetActive := true, fed := d.fed + m.data, iden := (d.iden + 1) % IDENS, num := d.num + 1), file, toHost, loaded);
  }

  /** What the device knows stays true while messages are added. */
  lemma DeviceKeeps(d: Device, file: seq<byte>, toHost: set<Msg>, toHost': set<Msg>, loaded: bool, loaded': bool)
    requires DeviceGood(d, file, toHost, loaded) && toHost <= toHost' && (loaded ==> loaded')
    ensures DeviceGood(d, file, toHost', loaded')
  {
    hide ChunkCount, Upto;
  }

  lemma GetsGood(d: Device, file: seq<byte>, toDevice: set<Msg>, toHost: set<Msg>, loaded: bool, m: Msg, fine: bool)
    requires |file| <= LIMIT && DeviceGood(d, file, toHost, loaded) && (m in toDevice ==> HostMsgGood(file, m, toHost))
    ensures var (d', sent) := DeviceStep(d, DeviceGets(m, fine), toDevice);
            DeviceGood(d', file, toHost, loaded) && forall m :: m in sent ==> DeviceMsgGood(m, loaded)
  {
    hide ChunkCount, Upto, Fetch, Chunk;
    CountCovers(|file|);
    if m in toDevice {
      if d.phase == Waiting && m.Poll? {
        assert Upto(file, 0) == [] by { NothingFed(file); }
        FetchGood(d.(resetActive := true, num := 0, count := ChunkCount(m.wireSize), fed := []), file, toHost, loaded);
      } else if d.phase == Fetching && m.Chnk? && m.iden == d.iden {
        TakeGood(d, file, toHost, loaded, m);
      }
    }
  }

  lemma NothingFed(file: seq<byte>)
    ensures Upto(file, 0) == []
  {
  }

  lemma DeviceStepGood(s: State, file: seq<byte>, e: Event)
    requires |file| <= LIMIT && Inv(s, file)
    ensures var (d, sent) := DeviceStep(s.device, e, s.toDevice);
            var s' := Next(s, file, e);
            DeviceGood(d, file, s'.toHost, s'.loaded) && forall m :: m in sent ==> DeviceMsgGood(m, s'.loaded)
  {
    hide ChunkCount, Upto, Fetch, Chunk, HostStep;
    var (d, sent) := DeviceStep(s.device, e, s.toDevice);
    var s' := Next(s, file, e);
    CountCovers(|file|);
    if e.DeviceGets? {
      GetsGood(s.device, file, s.toDevice, s.toHost, s.loaded, e.msg, e.fine);
      DeviceKeeps(d, file, s.toHost, s'.toHost, s.loaded, s'.loaded);
    } else if !e.DeviceLoads? {
      DeviceKeeps(s.device, file, s.toHost, s'.toHost, s.loaded, s'.loaded);
    }
  }

  lemma HostStepGood(s: State, file: seq<byte>, e: Event)
    requires Inv(s, file)
    ensures var (h, sent) := HostStep(s.host, file, e, s.toHost);
            HostGood(h, s.toHost, s.loaded) && forall m :: m in sent ==> HostMsgGood(file, m, s.toHost)
  {
    if e.HostGets? && e.m in s.toHost {
      assert DeviceMsgGood(e.m, s.loaded);
    }
  }

  lemma NextInv(s: State, file: seq<byte>, e: Event)
    requires |file| <= LIMIT && Inv(s, file)
    ensures Inv(Next(s, file, e), file)
  {
    hide HostStep, DeviceStep;
    DeviceStepGood(s, file, e);
    HostStepGood(s, file, e);
    LeftAcked(s.device, e, s.toDevice);
  }

  lemma LeftAcked(d: Device, e: Event, toDevice: set<Msg>)
    requires d.phase == Left ==> Ack(d.iden) in toDevice
    ensures DeviceStep(d, e, toDevice).0.phase == Left ==> Ack(DeviceStep(d, e, toDevice).0.iden) in toDevice
  {
    hide ChunkCount;
  }

  lemma {:induction false} RunInv(retries: nat, file: seq<byte>, es: seq<Event>)
    requires |file| <= LIMIT
    ensures Inv(Run(Init(retries, file), file, es), file)
  {
    hide Inv, Next, Init;
    InitInv(retries, file);
    if es != [] {
      RunInv(retries, file, es[..|es| - 1]);
      NextInv(Run(Init(retries, file), file, es[..|es| - 1]), file, es[|es| - 1]);
    }
  }

  // ---------------------------------------------------------------------------------------------
  // The theorems

  /** Whenever the downloader has left its chunk loop, what it was fed is the host's file, in order. */
  lemma FedIsFile(retries: nat, file: seq<byte>, es: seq<Event>)
    requires |file| <= LIMIT && PastChunks(Run(Init(retries, file), file, es).device)
    ensures Run(Init(retries, file), file, es).device.fed == file
  {
    hide Run, Init;
    RunInv(retries, file, es);
  }

  /** Every chunk frame on the wire carries the chunk of its number. */
  lemma ChunksKeepTheirNumbers(retries: nat, file: seq<byte>, es: seq<Event>, iden: nat, data: seq<byte>)
    requires |file| <= LIMIT && Chnk(iden, data) in Run(Init(retries, file), file, es).toDevice
    ensures iden < IDENS && data == Chunk(file, iden)
  {
    hide Run, Init;
    RunInv(retries, file, es);
    assert HostMsgGood(file, Chnk(iden, data), Run(Init(retries, file), file, es).toHost);
  }

  /** The host reports success only if some device session was fed the whole file and found its image good. */
  lemma SuccessMeansLoaded(retries: nat, file: seq<byte>, es: seq<Event>)
    requires |file| <= LIMIT && Run(Init(retries, file), file, es).host.phase == Done(true)
    ensures Run(Init(retries, file), file, es).loaded
  {
    hide Run, Init;
    RunInv(retries, file, es);
  }

  /** The device leaves only on an acknowledgement of a BOOT frame that it sent itself. */
  lemma LeavesAcknowledged(retries: nat, file: seq<byte>, es: seq<Event>)
    requires |file| <= LIMIT && Run(Init(retries, file), file, es).device.phase == Left
    ensures var s := Run(Init(retries, file), file, es);
            var iden := s.device.iden;
            Ack(iden) in s.toDevice && (Boot(iden, true) in s.toHost || Boot(iden, false) in s.toHost)
  {
    hide Run, Init;
    RunInv(retries, file, es);
    var s := Run(Init(retries, file), file, es);
    assert HostMsgGood(file, Ack(s.device.iden), s.toHost);
  }

  /** A timer never makes the host's main loop look at the frame of an earlier turn. */
  lemma NoStaleFrame(retries: nat, file: seq<byte>, es: seq<Event>)
    requires |file| <= LIMIT
    ensures var s := Run(Init(retries, file), file, es);
            s.host.phase == Serving ==> HostStep(s.host, file, HostResendTimer, s.toHost) == (s.host, {})
  {
    hide Run, Init;
    RunInv(retries, file, es);
  }

  // ---------------------------------------------------------------------------------------------
  // Where the limit lies

  /** In every run, a downloader behind its chunk loop was fed the file. */
  ghost predicate AlwaysWhole(retries: nat, file: seq<byte>) {
    forall es :: PastChunks(Run(Init(retries, file), file, es).device) ==> Run(Init(retries, file), file, es).device.fed == file
  }

  lemma RunOne(s: State, file: seq<byte>, es: seq<Event>, e: Event)
    ensures Run(s, file, es + [e]) == Next(Run(s, file, es), file, e)
  {
    assert (es + [e])[..|es|] == es;
  }

  lemma RunNone(s: State, file: seq<byte>)
    ensures Run(s, file, []) == s
  {
  }

  /** The sum wraps: the device asks for nothing at all. */
  lemma NothingAsked(retries: nat, file: seq<byte>)
    requires LIMIT + 2 <= |file| < WORD
    ensures !AlwaysWhole(retries, file)
  {
    hide Next;
    assert ChunkCount(|file|) == 0;
    var s, e := Init(retries, file), DeviceGets(Poll(|file|), true);
    RunNone(s, file);
    RunOne(s, file, [], e);
    var es := [] + [e];
    assert Next(s, file, e).device.phase == Loading && Next(s, file, e).device.fed == [] by { FirstPoll(retries, file); }
    assert PastChunks(Run(s, file, es).device) && Run(s, file, es).device.fed != file;
  }

  lemma FirstPoll(retries: nat, file: seq<byte>)
    ensures var s := Next(Init(retries, file), file, DeviceGets(Poll(|file|), true));
            && s.device == Fetch(DeviceStart().(resetActive := true, num := 0, count := ChunkCount(|file|), fed := [])).0
            && Ack(0) in s.toHost && s.host == Init(retries, file).host
            && (ChunkCount(|file|) > 0 ==> Rqch(0, 0) in s.toHost)
  {
    hide ChunkCount;
  }

  /** Nothing has gone wrong so far, and the device waits for chunk `k`. */
  ghost predicate Honest(s: State, file: seq<byte>, k: nat) {
    && s.host.phase == Serving && s.device.phase == Fetching
    && s.device.iden == k % IDENS && s.device.num == k && s.device.count == IDENS + 1 && s.device.fed == Upto(file, k)
    && Rqch(k % IDENS, k) in s.toHost
    && (k > 0 ==> Chnk(0, Chunk(file, 0)) in s.toDevice)
  }

  lemma HonestStart(retries: nat, file: seq<byte>) returns (es: seq<Event>)
    requires |file| == LIMIT + 1
    ensures Honest(Run(Init(retries, file), file, es), file, 0)
  {
    hide Next, Init, Run, Chunk;
    assert ChunkCount(|file|) == IDENS + 1;
    var s, e0, e1 := Init(retries, file), DeviceGets(Poll(|file|), true), HostGets(Ack(0));
    var s1 := Next(s, file, e0);
    es := [e0] + [e1];
    RunNone(s, file);
    RunOne(s, file, [], e0);
    assert [] + [e0] == [e0];
    RunOne(s, file, [e0], e1);
    FirstPoll(retries, file);
    AckPoll(retries, file, s1);
    NothingFed(file);
  }

  lemma AckPoll(retries: nat, file: seq<byte>, s: State)
    requires s.host == Init(retries, file).host && Ack(0) in s.toHost
    ensures var s' := Next(s, file, HostGets(Ack(0)));
            s'.host.phase == Serving && s'.device == s.device && s.toHost <= s'.toHost
  {
  }

  lemma HonestTurn(s: State, file: seq<byte>, k: nat)
    requires |file| == LIMIT + 1 && k < IDENS && Honest(s, file, k)
    ensures var s1 := Next(s, file, HostGets(Rqch(k % IDENS, k)));
            Honest(Next(s1, file, DeviceGets(Chnk(k % IDENS, Chunk(file, k)), true)), file, k + 1)
  {
    hide Upto, Chunk;
    FullChunk(file, k);
    UptoNext(file, k);
    var s1 := Next(s, file, HostGets(Rqch(k % IDENS, k)));
    assert s1.device == s.device && Chnk(k % IDENS, Chunk(file, k)) in s1.toDevice && s1.host.phase == Serving;
  }

  lemma FullChunk(file: seq<byte>, k: nat)
    requires |file| == LIMIT + 1 && k < IDENS
    ensures |Chunk(file, k)| == CHUNK
  {
  }

  lemma HonestRun(retries: nat, file: seq<byte>, k: nat) returns (es: seq<Event>)
    requires |file| == LIMIT + 1 && k <= IDENS
    ensures Honest(Run(Init(retries, file), file, es), file, k)
    decreases k
  {
    hide Next, Init, Run, Honest, Chunk;
    if k == 0 {
      es := HonestStart(retries, file);
    } else {
      var before := HonestRun(retries, file, k - 1);
      var s, i := Init(retries, file), (k - 1) % IDENS;
      var e0, e1 := HostGets(Rqch(i, k - 1)), DeviceGets(Chnk(i, Chunk(file, k - 1)), true);
      HonestTurn(Run(s, file, before), file, k - 1);
      RunOne(s, file, before, e0);
      RunOne(s, file, before + [e0], e1);
      es := before + [e0] + [e1];
    }
  }

  /** One chunk too many: its number is that of the first chunk, which the line may repeat in its place. */
  lemma FirstChunkAgain(retries: nat, file: seq<byte>)
    requires |file| == LIMIT + 1
    ensures !AlwaysWhole(retries, file)
  {
    hide Next, Init, Run, Chunk, Upto;
    var before := HonestRun(retries, file, IDENS);
    var s, e := Run(Init(retries, file), file, before), DeviceGets(Chnk(0, Chunk(file, 0)), true);
    RunOne(Init(retries, file), file, before, e);
    var s' := Next(s, file, e);
    WrongChunk(s, file);
    var es := before + [e];
    assert Run(Init(retries, file), file, es) == s';
  }

  lemma WrongChunk(s: State, file: seq<byte>)
    requires |file| == LIMIT + 1 && Honest(s, file, IDENS)
    ensures var d := Next(s, file, DeviceGets(Chnk(0, Chunk(file, 0)), true)).device;
            PastChunks(d) && d.fed != file
  {
    hide Chunk, Upto;
    FullChunk(file, 0);
    assert |Upto(file, IDENS)| == LIMIT by { LongUpto(file); }
  }

  lemma LongUpto(file: seq<byte>)
    requires |file| == LIMIT + 1
    ensures |Upto(file, IDENS)| == LIMIT
  {
  }

  /** The protocol delivers every file whole exactly up to the limit. */
  lemma WholeExactlyBelowLimit(retries: nat, file: seq<byte>)
    requires |file| < WORD
    ensures AlwaysWhole(retries, file) <==> |file| <= LIMIT
  {
    hide Run, Init;
    if |file| <= LIMIT {
      forall es | PastChunks(Run(Init(retries, file), file, es).device)
        ensures Run(Init(retries, file), file, es).device.fed == file
      {
        FedIsFile(retries, file, es);
      }
    } else if |file| == LIMIT + 1 {
      FirstChunkAgain(retries, file);
    } else {
      NothingAsked(retries, file);
    }
  }
}
