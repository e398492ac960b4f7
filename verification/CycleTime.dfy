/** The time of a DMA run: a long cycle count put together from a short counter and a coarse clock. */
module CycleTime {

  const W31 := 0x8000_0000
  const W32 := 0x1_0000_0000
  const W64 := 0x1_0000_0000_0000_0000
  const MHZ := 1000000
  const GHZ := 1000000000

  /** The estimate of the clock is close enough to tell which count was meant. */
  predicate Near(est: nat, c: nat) {
    -W31 <= est - c < W31
  }

  /** How often the short counter went round, in 64-bit arithmetic. */
  function Rounds(est: nat, short: nat): nat {
    var k := (est - short) % W64 / W31;
    k / 2 + k % 2
  }

  /** The long count that the program settles on. */
  function Recovered(est: nat, short: nat): nat {
    (short + Rounds(est, short) * W32) % W64
  }

  /** Without a wrap, the rounding finds the multiple of 2^32 that is nearest. */
  lemma RoundsAre(q: nat, d: int)
    requires -W31 <= d < W31 && (q == 0 ==> 0 <= d) && q * W32 + d < W64
    ensures var k := (q * W32 + d) / W31;
            k / 2 + k % 2 == q
  {
    var x := q * W32 + d;
    if d >= 0 {
      assert x / W31 == 2 * q;
    } else {
      assert x / W31 == 2 * q - 1;
    }
  }

  lemma Wrapped(z: int)
    ensures 0 <= z < W64 ==> z % W64 == z
    ensures -W64 <= z < 0 ==> z % W64 == z + W64
  {
  }

  /** A near estimate below the short count goes round once: the rounding carries it back to zero. */
  lemma JustBelow(d: int)
    requires -W31 <= d < 0
    ensures var k := (W64 + d) / W31;
            k / 2 + k % 2 == W32
  {
    assert (W64 + d) / W31 == 2 * W32 - 1;
  }

  lemma AllRounds(short: nat, c: nat)
    requires short < W32 && c < W64
    ensures (short + W32 * W32) % W64 == short && c % W64 == c
  {
    Wrapped(short);
    assert short + W32 * W32 == short + W64;
    assert (short + W64) % W64 == short % W64;
  }

  /** The count is recovered whenever the estimate is near, even if the difference wraps below zero. */
  lemma NearIsRecovered(est: nat, c: nat)
    requires Near(est, c) && est < W64 && c < W64
    ensures Recovered(est, c % W32) == c
  {
    var q, short := c / W32, c % W32;
    var d := est - c;
    assert c == q * W32 + short && est - short == q * W32 + d;
    Wrapped(est - short);
    AllRounds(short, c);
    if q == 0 && d < 0 {
      JustBelow(d);
    } else {
      RoundsAre(q, d);
    }
  }

  /** It is recovered only then. */
  lemma RecoveredIsNear(est: nat, c: nat)
    requires est < W64 / 2 && c < W64 / 2 && Recovered(est, c % W32) == c
    ensures Near(est, c)
  {
    var short := c % W32;
    var z := est - short;
    var q, d := Split(z);
    Wrapped(z);
    if z >= 0 {
      RoundsAre(q, d);
      Wrapped(short + q * W32);
    } else {
      RoundsAre(q + W32, d);
      assert short + (q + W32) * W32 == short + q * W32 + W64;
      Wrapped(short + q * W32);
      OneLap(short + q * W32);
    }
  }

  lemma OneLap(z: int)
    ensures (z + W64) % W64 == z % W64
  {
  }

  /** A difference as a multiple of 2^32 and what is left over, the least in size. */
  lemma Split(z: int) returns (q: int, d: int)
    requires -W32 < z < W64 / 2
    ensures z == q * W32 + d && -W31 <= d < W31 && -1 <= q <= W31
    ensures z >= 0 ==> 0 <= q && (q == 0 ==> 0 <= d)
  {
    q := (z + W31) / W32;
    d := z - q * W32;
  }

  /** Which counts the program gets right. */
  lemma RecoveredExactly(est: nat, c: nat)
    requires est < W64 / 2 && c < W64 / 2
    ensures Recovered(est, c % W32) == c <==> Near(est, c)
  {
    if Near(est, c) {
      NearIsRecovered(est, c);
    } else if Recovered(est, c % W32) == c {
      RecoveredIsNear(est, c);
    }
  }

  lemma WrapTwice(dc: nat, k: nat)
    ensures (dc + k * W32 % W64) % W64 == (dc + k * W32) % W64
  {
  }

  /** The rounding step, for a clock that has moved. */
  method Recover(est: nat, dc: nat) returns (t: nat)
    requires dc < W32
    ensures t == Recovered(est, dc)
  {
    var k := (est - dc) % W64;
    k := k / W31;
    k := k / 2 + k % 2;
    WrapTwice(dc, k);
    t := (dc + k * W32 % W64) % W64;
  }

  /** The product of clock ticks and frequency does not wrap. */
  predicate ClockFits(dm: nat, freq: nat) {
    dm * freq < W64
  }

  function Estimate(dm: nat, freq: nat): nat {
    dm * freq % W64 / MHZ
  }

  /** The program's count is `c`: it agrees with the short counter, and the clock's estimate is near. */
  predicate Meant(c: nat, dc: nat, dm: nat, freq: nat) {
    c % W32 == dc && ClockFits(dm, freq) && Near(Estimate(dm, freq), c) && Counts(c)
  }

  lemma EstimateZero(freq: nat)
    ensures Estimate(0, freq) == 0
  {
  }

  lemma EstimateFits(dm: nat, freq: nat)
    ensures Estimate(dm, freq) < W64
  {
  }

  /**
   * Readings of true clocks are of this kind: of `c` cycles at `freq` a second, a clock of microseconds that
   * is read before and behind them shows them up to one of its ticks.
   */
  lemma TrueReadings(c: nat, dm: nat, freq: nat)
    requires 0 < freq < W32 && freq % MHZ == 0 && ClockFits(dm, freq) && Counts(c)
    requires (dm - 1) * freq < c * MHZ < (dm + 1) * freq
    ensures Meant(c, c % W32, dm, freq)
  {
    var x := dm * freq;
    assert (dm - 1) * freq == x - freq && (dm + 1) * freq == x + freq by { OneTick(dm, freq); }
    assert x % W64 == x;
    var est := x / MHZ;
    assert est * MHZ <= x < est * MHZ + MHZ;
  }

  lemma OneTick(dm: nat, freq: nat)
    ensures (dm - 1) * freq == dm * freq - freq && (dm + 1) * freq == dm * freq + freq
  {
  }

  /** `dma_run_info_get_time_ns`, with `freq` cycles a second, a multiple of a million. */
  method GetTimeNs(cycleStart: nat, cycleEnd: nat, usStart: nat, usEnd: nat, freq: nat) returns (ns: nat)
    requires 0 < freq < W32 && freq % MHZ == 0
    ensures forall c: nat :: Meant(c, (cycleEnd - cycleStart) % W32, (usEnd - usStart) % W64, freq) ==> ns == InNs(c, freq)
  {
    hide Recovered, Estimate, Meant, InNs, Counts;
    var dc := (cycleEnd - cycleStart) % W32;
    var dm := (usEnd - usStart) % W64;
    var t := dc;
    EstimateZero(freq);
    EstimateFits(dm, freq);
    if dm != 0 {
      t := Recover(Estimate(dm, freq), dc);
    }
    forall c: nat | Meant(c, dc, dm, freq)
      ensures t == c && Counts(c)
    {
      MeantIsRecovered(c, dc, dm, freq);
    }
    ns := Scale(t, freq);
  }

  /** A count whose nanoseconds times the frequency fit 64 bits. */
  predicate Counts(c: nat) {
    c * GHZ < W64
  }

  function InNs(c: nat, freq: nat): nat
    requires 0 < freq
  {
    c * GHZ / freq
  }

  method Scale(t: nat, freq: nat) returns (ns: nat)
    requires 0 < freq
    ensures Counts(t) ==> ns == InNs(t, freq)
  {
    var p := t * GHZ % W64;
    ns := p / freq;
  }

  lemma MeantIsRecovered(c: nat, dc: nat, dm: nat, freq: nat)
    requires Meant(c, dc, dm, freq)
    ensures (if dm == 0 then c == dc else Recovered(Estimate(dm, freq), dc) == c) && Counts(c)
  {
    hide Recovered, Estimate, ClockFits;
    EstimateFits(dm, freq);
    if dm == 0 {
      EstimateZero(freq);
    } else {
      NearIsRecovered(Estimate(dm, freq), c);
    }
  }
}
