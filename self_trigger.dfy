/** The self-trigger logic of one pixel's front end, as a state machine.
    One step handles one time tick:
    - integrate the tick's current into the running charge and into the
      per-track fractions of the pending sample;
    - draw the noise samples;
    - count down the busy time;
    - if the noisy charge passes the noisy threshold, hold, integrate
      through the hold window, and either drop a false trigger or store a
      sample and reset. */
module SelfTrigger {
  import opened Numerics
  import opened Fee

  /** The inputs of one pixel. */
  datatype Pixel = Pixel(
    /** The induced current, one value per tick. */
    current: seq<real>,
    /** The same current broken down by track slot: trackCurrents[tick][slot]. */
    trackCurrents: seq<seq<real>>,
    /** The global time of each tick. */
    timeTicks: seq<real>,
    /** The discriminator threshold of the pixel. */
    threshold: real)

  /** Detector constants the logic depends on. */
  datatype Config = Config(timeSampling: real, timePadding: real, eCharge: real)

  predicate ValidConfig(cfg: Config) { cfg.timeSampling > 0.0 }

  /** Why the loop over ticks ended. Running: it has not ended yet. Drained:
      no ticks left and the ADC is not busy. Capped: all sample slots are
      used. TickOutOfRange: a sample was triggered at a tick past the end of
      the time-tick table, whose entry the kernel cannot read. */
  datatype Stop = Running | Drained | Capped | TickOutOfRange

  /** The state of the kernel thread of one pixel. The sample rows (adcs,
      ticks, fractions) are the pixel's rows of the output arrays. crossings
      records the threshold-crossing tick of every stored sample. draws
      counts the normal draws taken from the pixel's random stream. */
  datatype Front = Front(ic: nat, iadc: nat, busy: nat, lastReset: nat, qSum: real, draws: nat,
                         adcs: seq<real>, ticks: seq<real>, fractions: seq<seq<real>>,
                         crossings: seq<nat>, stop: Stop)

  /** A noise charge: the k-th draw of the pixel's standard-normal stream,
      scaled by a width in electrons and by the electron charge. */
  function Noise(draw: nat -> real, k: nat, sigma: real, eCharge: real): real
  {
    draw(k) * sigma * eCharge
  }

  /** Ticks of the hold window after a threshold crossing: three clock
      cycles plus the ADC hold delay, in sampling periods. */
  function HoldTicks(cfg: Config): nat
    requires ValidConfig(cfg)
  {
    PositiveQuotient(3.0 * ClockCycle + AdcHoldDelay as real * ClockCycle, cfg.timeSampling);
    RoundHalfEven((3.0 * ClockCycle + AdcHoldDelay as real * ClockCycle) / cfg.timeSampling)
  }

  /** Ticks skipped after a false trigger: one clock cycle. */
  function FalseTriggerSkip(cfg: Config): nat
    requires ValidConfig(cfg)
  {
    PositiveQuotient(ClockCycle, cfg.timeSampling);
    RoundHalfEven(ClockCycle / cfg.timeSampling)
  }

  /** Ticks skipped for the reset after a stored sample. */
  function ResetSkip(cfg: Config): nat
    requires ValidConfig(cfg)
  {
    PositiveQuotient(ResetCycles as real * ClockCycle, cfg.timeSampling);
    RoundHalfEven(ResetCycles as real * ClockCycle / cfg.timeSampling)
  }

  /** Ticks the ADC stays busy after a stored sample. */
  function BusyTicks(cfg: Config): nat
    requires ValidConfig(cfg)
  {
    PositiveQuotient(AdcBusyDelay as real * ClockCycle, cfg.timeSampling);
    RoundHalfEven(AdcBusyDelay as real * ClockCycle / cfg.timeSampling)
  }

  lemma PositiveQuotient(a: real, b: real)
    requires a >= 0.0 && b > 0.0
    ensures a / b >= 0.0
  {
  }

  /** At the detector's sampling period of 0.1 us the hold window is 18
      ticks, each skip is 1 tick and the busy time is 8 ticks. */
  lemma DerivedTicksAtNominalSampling(cfg: Config)
    requires cfg.timeSampling == 0.1
    ensures HoldTicks(cfg) == 18 && FalseTriggerSkip(cfg) == 1
    ensures ResetSkip(cfg) == 1 && BusyTicks(cfg) == 8
  {
    assert (3.0 * ClockCycle + AdcHoldDelay as real * ClockCycle) / cfg.timeSampling == 18 as real;
    RoundHalfEvenOfInt(18);
    assert ClockCycle / cfg.timeSampling == 1 as real;
    RoundHalfEvenOfInt(1);
    assert AdcBusyDelay as real * ClockCycle / cfg.timeSampling == 8 as real;
    RoundHalfEvenOfInt(8);
  }

  /** The invariant of the kernel's state: MaxAdcValues sample slots, at
      most that many used, per-track currents at least as wide as the
      fraction rows at every tick, and a stop reason that matches the state
      (a drained loop has no tick left and an idle ADC; a capped loop has
      used every slot). */
  predicate Valid(s: Front, px: Pixel)
  {
    && s.iadc <= MaxAdcValues
    && |s.adcs| >= MaxAdcValues && |s.ticks| >= MaxAdcValues && |s.fractions| >= MaxAdcValues
    && |px.trackCurrents| >= |px.current|
    && (forall r, t :: 0 <= r < |s.fractions| && 0 <= t < |px.current| ==>
          |s.fractions[r]| <= |px.trackCurrents[t]|)
    && (s.stop == Drained ==> s.ic >= |px.current| && s.busy == 0)
    && (s.stop == Capped ==> s.iadc == MaxAdcValues)
  }

  /** Sample rows of the same shape. */
  predicate SameShape(s: Front, r: Front)
  {
    && |r.adcs| == |s.adcs| && |r.ticks| == |s.ticks| && |r.fractions| == |s.fractions|
    && forall i :: 0 <= i < |s.fractions| ==> |r.fractions[i]| == |s.fractions[i]|
  }

  /** row + ts * tr, entry by entry. */
  function AddScaled(row: seq<real>, tr: seq<real>, ts: real): (r: seq<real>)
    requires |row| <= |tr|
    ensures |r| == |row|
    ensures forall j :: 0 <= j < |row| ==> r[j] == row[j] + tr[j] * ts
  {
    seq(|row|, j requires 0 <= j < |row| => row[j] + tr[j] * ts)
  }

  /** A row of n zeros. */
  function Zeros(n: nat): (r: seq<real>)
    ensures |r| == n && forall j :: 0 <= j < n ==> r[j] == 0.0
  {
    seq(n, _ => 0.0)
  }

  /** The sum of a row, taken from the front as the kernel's loop does. */
  function Sum(row: seq<real>): real
  {
    if row == [] then 0.0 else Sum(row[..|row| - 1]) + row[|row| - 1]
  }

  /** A row divided by its sum. A row whose sum is zero is left as it is. */
  function Normalize(row: seq<real>): (r: seq<real>)
    ensures |r| == |row|
  {
    var total := Sum(row);
    if total == 0.0 then row else seq(|row|, j requires 0 <= j < |row| => row[j] / total)
  }

  lemma {:induction false} SumDivided(row: seq<real>, c: real)
    requires c != 0.0
    ensures Sum(seq(|row|, j requires 0 <= j < |row| => row[j] / c)) == Sum(row) / c
  {
    var d := seq(|row|, j requires 0 <= j < |row| => row[j] / c);
    if row != [] {
      var n := |row| - 1;
      SumDivided(row[..n], c);
      assert d[..n] == seq(n, j requires 0 <= j < n => row[..n][j] / c);
      assert Sum(row) / c == Sum(row[..n]) / c + row[n] / c;
    }
  }

  /** After normalisation the fractions of a sample add up to one. */
  lemma NormalizeSumsToOne(row: seq<real>)
    requires Sum(row) != 0.0
    ensures Sum(Normalize(row)) == 1.0
  {
    var total := Sum(row);
    SumDivided(row, total);
    DivideBySelf(total);
  }

  /** One tick's integration adds to the total of the pending fractions the
      sampling period times the summed per-track current, so the fractions
      keep track of the charge the tracks deliver. */
  lemma {:induction false} SumAddScaled(row: seq<real>, tr: seq<real>, ts: real)
    requires |row| <= |tr|
    ensures Sum(AddScaled(row, tr, ts)) == Sum(row) + Sum(tr[..|row|]) * ts
  {
    if row != [] {
      var n := |row| - 1;
      var a := AddScaled(row, tr, ts);
      SumAddScaled(row[..n], tr, ts);
      assert a[..n] == AddScaled(row[..n], tr, ts);
      assert Sum(a) == Sum(a[..n]) + (row[n] + tr[n] * ts);
      assert tr[..|row|][..n] == tr[..n];
      assert Sum(tr[..|row|]) == Sum(tr[..n]) + tr[n];
      assert (Sum(tr[..n]) + tr[n]) * ts == Sum(tr[..n]) * ts + tr[n] * ts;
    }
  }

  /** A cleared fraction row carries no charge. */
  lemma {:induction false} SumZeros(n: nat)
    ensures Sum(Zeros(n)) == 0.0
  {
    if n > 0 {
      SumZeros(n - 1);
      assert Zeros(n)[..n - 1] == Zeros(n - 1);
    }
  }

  lemma DivideBySelf(x: real)
    requires x != 0.0
    ensures x / x == 1.0
  {
  }

  /** The charge the current of ticks lo..hi-1 delivers. */
  function HeldCharge(current: seq<real>, lo: nat, hi: nat, ts: real): real
    requires hi <= |current|
    decreases hi - lo
  {
    if lo >= hi then 0.0 else current[lo] * ts + HeldCharge(current, lo + 1, hi, ts)
  }

  /** The charge the track in slot k delivers in ticks lo..hi-1. A tick
      whose per-track row has no slot k contributes nothing (under Valid
      every row is wide enough). */
  function TrackCharge(trackCurrents: seq<seq<real>>, k: nat, lo: nat, hi: nat, ts: real): real
    requires hi <= |trackCurrents|
    decreases hi - lo
  {
    if lo >= hi then 0.0
    else (if k < |trackCurrents[lo]| then trackCurrents[lo][k] else 0.0) * ts
         + TrackCharge(trackCurrents, k, lo + 1, hi, ts)
  }

  /** A fraction row base to which every track's charge of ticks lo..hi-1
      has been added. */
  function Accumulated(base: seq<real>, trackCurrents: seq<seq<real>>, lo: nat, hi: nat, ts: real): (r: seq<real>)
    requires hi <= |trackCurrents|
    ensures |r| == |base|
  {
    seq(|base|, k requires 0 <= k < |base| => base[k] + TrackCharge(trackCurrents, k, lo, hi, ts))
  }

  /** Extending the range of ticks by one at its end adds that tick's charge. */
  lemma {:induction false} HeldChargeSnoc(current: seq<real>, lo: nat, hi: nat, ts: real)
    requires lo <= hi < |current|
    ensures HeldCharge(current, lo, hi + 1, ts) == HeldCharge(current, lo, hi, ts) + current[hi] * ts
    decreases hi - lo
  {
    if lo < hi {
      HeldChargeSnoc(current, lo + 1, hi, ts);
    }
  }

  lemma {:induction false} TrackChargeSnoc(trackCurrents: seq<seq<real>>, k: nat, lo: nat, hi: nat, ts: real)
    requires lo <= hi < |trackCurrents| && k < |trackCurrents[hi]|
    ensures TrackCharge(trackCurrents, k, lo, hi + 1, ts)
            == TrackCharge(trackCurrents, k, lo, hi, ts) + trackCurrents[hi][k] * ts
    decreases hi - lo
  {
    if lo < hi {
      TrackChargeSnoc(trackCurrents, k, lo + 1, hi, ts);
    }
  }

  /** Over an empty range of ticks nothing is added. */
  lemma AccumulatedEmpty(base: seq<real>, trackCurrents: seq<seq<real>>, lo: nat, ts: real)
    requires lo <= |trackCurrents|
    ensures Accumulated(base, trackCurrents, lo, lo, ts) == base
  {
  }

  /** Integrating the per-track currents of tick hi into a row accumulated
      over lo..hi-1 gives the row accumulated over lo..hi. */
  lemma AccumulatedSnoc(base: seq<real>, trackCurrents: seq<seq<real>>, lo: nat, hi: nat, ts: real)
    requires lo <= hi < |trackCurrents| && |base| <= |trackCurrents[hi]|
    ensures AddScaled(Accumulated(base, trackCurrents, lo, hi, ts), trackCurrents[hi], ts)
            == Accumulated(base, trackCurrents, lo, hi + 1, ts)
  {
    forall k | 0 <= k < |base| {
      TrackChargeSnoc(trackCurrents, k, lo, hi, ts);
    }
  }

  /** The charge ledger of the pending sample, counted since the last reset
      (ticks past the waveform carry no current): the running charge is the
      seed it was reset to plus the charge of the ticks lastReset..ic-1, and
      the pending fraction row is the row base it started from plus each
      track's charge of those ticks. */
  predicate Ledger(s: Front, px: Pixel, cfg: Config, seed: real, base: seq<real>)
  {
    && |px.trackCurrents| >= |px.current|
    && s.lastReset <= s.ic && s.iadc < |s.fractions|
    && s.qSum == seed + HeldCharge(px.current, Min(s.lastReset, |px.current|), Min(s.ic, |px.current|),
                                   cfg.timeSampling)
    && s.fractions[s.iadc] == Accumulated(base, px.trackCurrents, Min(s.lastReset, |px.current|),
                                          Min(s.ic, |px.current|), cfg.timeSampling)
  }

  /** The integration of the tick ic, if it is inside the waveform: its
      charge is added to the running sum, and its per-track charges to the
      fractions of the pending sample iadc. */
  function Integrate(s: Front, px: Pixel, cfg: Config): (r: Front)
    requires Valid(s, px) && s.iadc < |s.fractions|
    ensures Valid(r, px) && SameShape(s, r)
    ensures r == s.(qSum := r.qSum, fractions := r.fractions)
    ensures r.fractions == s.fractions[s.iadc := r.fractions[s.iadc]]
  {
    if s.ic < |px.current| then
      s.(qSum := s.qSum + px.current[s.ic] * cfg.timeSampling,
         fractions := s.fractions[s.iadc := AddScaled(s.fractions[s.iadc], px.trackCurrents[s.ic], cfg.timeSampling)])
    else s
  }

  /** Integrating the tick and moving past it keeps the ledger. */
  lemma IntegrateKeepsLedger(s: Front, px: Pixel, cfg: Config, seed: real, base: seq<real>)
    requires Valid(s, px) && Ledger(s, px, cfg, seed, base)
    ensures Ledger(Integrate(s, px, cfg).(ic := s.ic + 1), px, cfg, seed, base)
  {
    if s.ic < |px.current| {
      HeldChargeSnoc(px.current, s.lastReset, s.ic, cfg.timeSampling);
      AccumulatedSnoc(base, px.trackCurrents, s.lastReset, s.ic, cfg.timeSampling);
    }
  }

  /** The hold loop: integrate and advance while the tick is at most end
      and inside the waveform. It stops at end + 1, or at the end of the
      waveform, or at once if the start is past either. */
  function Hold(s: Front, px: Pixel, cfg: Config, end: int): (r: Front)
    requires Valid(s, px) && s.iadc < |s.fractions|
    ensures Valid(r, px) && SameShape(s, r)
    ensures r == s.(ic := r.ic, qSum := r.qSum, fractions := r.fractions)
    ensures r.fractions == s.fractions[s.iadc := r.fractions[s.iadc]]
    ensures r.ic == if s.ic <= end && s.ic < |px.current| then Min(end + 1, |px.current|) else s.ic
    decreases |px.current| - s.ic
  {
    if s.ic <= end && s.ic < |px.current| then Hold(Integrate(s, px, cfg).(ic := s.ic + 1), px, cfg, end)
    else s
  }

  /** The hold loop adds to the running sum the charge of exactly the
      ticks it passes over. */
  lemma {:induction false} HoldCollectsCharge(s: Front, px: Pixel, cfg: Config, end: int)
    requires Valid(s, px) && s.iadc < |s.fractions|
    ensures s.ic <= Hold(s, px, cfg, end).ic
    ensures Hold(s, px, cfg, end).ic <= |px.current| ==>
              Hold(s, px, cfg, end).qSum
              == s.qSum + HeldCharge(px.current, s.ic, Hold(s, px, cfg, end).ic, cfg.timeSampling)
    decreases |px.current| - s.ic
  {
    if s.ic <= end && s.ic < |px.current| {
      var next := Integrate(s, px, cfg).(ic := s.ic + 1);
      assert next.qSum == s.qSum + px.current[s.ic] * cfg.timeSampling;
      assert Hold(s, px, cfg, end) == Hold(next, px, cfg, end);
      HoldCollectsCharge(next, px, cfg, end);
      var hi := Hold(next, px, cfg, end).ic;
      if hi <= |px.current| {
        assert HeldCharge(px.current, s.ic, hi, cfg.timeSampling)
               == px.current[s.ic] * cfg.timeSampling + HeldCharge(px.current, s.ic + 1, hi, cfg.timeSampling);
      }
    }
  }

  /** The hold loop keeps the ledger: it integrates the ticks it passes
      over into the same seed and base row. */
  lemma {:induction false} HoldKeepsLedger(s: Front, px: Pixel, cfg: Config, end: int, seed: real, base: seq<real>)
    requires Valid(s, px) && Ledger(s, px, cfg, seed, base)
    ensures Ledger(Hold(s, px, cfg, end), px, cfg, seed, base)
    decreases |px.current| - s.ic
  {
    if s.ic <= end && s.ic < |px.current| {
      IntegrateKeepsLedger(s, px, cfg, seed, base);
      HoldKeepsLedger(Integrate(s, px, cfg).(ic := s.ic + 1), px, cfg, end, seed, base);
    }
  }

  /** The tick the hold loop started at crossing c stops at. */
  function HoldEnd(c: nat, px: Pixel, cfg: Config): nat
    requires ValidConfig(cfg)
  {
    Max(c + 1, Min(c + HoldTicks(cfg) + 1, |px.current|))
  }

  /** The first tick at which a trigger can follow one stored at crossing
      c: after the hold window, the reset and the busy time. (The busy
      count is already decremented once in the tick of the next trigger.) */
  function ReadyAt(c: nat, px: Pixel, cfg: Config): nat
    requires ValidConfig(cfg)
  {
    HoldEnd(c, px, cfg) + ResetSkip(cfg) + (if BusyTicks(cfg) > 0 then BusyTicks(cfg) - 1 else 0)
  }

  /** The charge a trigger would store and the discriminator noise it is
      compared against, as Resolve draws them. */
  function StoredCharge(h: Front, cfg: Config, draw: nat -> real): real
  {
    h.qSum + Noise(draw, h.draws, UncorrelatedNoiseCharge, cfg.eCharge)
  }

  function DiscNoise(h: Front, cfg: Config, draw: nat -> real): real
  {
    Noise(draw, h.draws + 1, DiscriminatorNoise, cfg.eCharge)
  }

  /** After the hold window: either a false trigger, dropped, or a sample
      stored in slot iadc. crossing is the tick of the threshold crossing. */
  function Resolve(h: Front, px: Pixel, cfg: Config, draw: nat -> real, crossing: nat): (r: Front)
    requires ValidConfig(cfg) && Valid(h, px) && h.iadc < MaxAdcValues && h.stop == Running
    ensures Valid(r, px) && SameShape(h, r)
    ensures r.adcs == h.adcs[h.iadc := r.adcs[h.iadc]]
    ensures r.fractions == h.fractions[h.iadc := r.fractions[h.iadc]]
    ensures r.iadc == h.iadc + 1 ==>
              && r.stop == Running && crossing < |px.timeTicks|
              && r.ticks == h.ticks[h.iadc := px.timeTicks[crossing] + cfg.timePadding + 2.0]
              && r.crossings == h.crossings + [crossing]
              && r.ic == h.ic + ResetSkip(cfg) && r.busy == BusyTicks(cfg)
              && r.adcs[h.iadc] == h.qSum + Noise(draw, h.draws, UncorrelatedNoiseCharge, cfg.eCharge)
              && r.adcs[h.iadc] >= px.threshold + Noise(draw, h.draws + 1, DiscriminatorNoise, cfg.eCharge)
              && r.fractions[h.iadc] == Normalize(h.fractions[h.iadc])
    ensures r.iadc != h.iadc + 1 ==>
              && r.iadc == h.iadc && r.ticks == h.ticks && r.crossings == h.crossings
              && r.ic >= h.ic && r.busy == h.busy
              && (r.stop == Running ==> r.adcs == h.adcs)
  {
    var adc := StoredCharge(h, cfg, draw);
    var disc := DiscNoise(h, cfg, draw);
    if adc < px.threshold + disc then
      var ic := h.ic + FalseTriggerSkip(cfg);
      h.(ic := ic, lastReset := ic,
         qSum := Noise(draw, h.draws + 2, UncorrelatedNoiseCharge, cfg.eCharge), draws := h.draws + 3,
         fractions := h.fractions[h.iadc := Zeros(|h.fractions[h.iadc]|)])
    else
      var g := h.(fractions := h.fractions[h.iadc := Normalize(h.fractions[h.iadc])],
                  adcs := h.adcs[h.iadc := adc], draws := h.draws + 2);
      if crossing >= |px.timeTicks| then g.(stop := TickOutOfRange)
      else
        var ic := h.ic + ResetSkip(cfg);
        g.(ticks := h.ticks[h.iadc := px.timeTicks[crossing] + cfg.timePadding + 2.0],
           ic := ic, lastReset := ic, busy := BusyTicks(cfg),
           qSum := Noise(draw, h.draws + 2, ResetNoiseCharge, cfg.eCharge), draws := h.draws + 3,
           iadc := h.iadc + 1, crossings := h.crossings + [crossing])
  }

  /** Resolve on a false trigger, record by record. */
  lemma ResolveDrop(h: Front, px: Pixel, cfg: Config, draw: nat -> real, crossing: nat)
    requires ValidConfig(cfg) && Valid(h, px) && h.iadc < MaxAdcValues && h.stop == Running
    requires StoredCharge(h, cfg, draw) < px.threshold + DiscNoise(h, cfg, draw)
    ensures Resolve(h, px, cfg, draw, crossing)
            == h.(ic := h.ic + FalseTriggerSkip(cfg), lastReset := h.ic + FalseTriggerSkip(cfg),
                  qSum := Noise(draw, h.draws + 2, UncorrelatedNoiseCharge, cfg.eCharge), draws := h.draws + 3,
                  fractions := h.fractions[h.iadc := Zeros(|h.fractions[h.iadc]|)])
  {
  }

  /** The ticks still to be integrated. */
  function Pending(ic: nat, px: Pixel): nat
  {
    if ic < |px.current| then |px.current| - ic else 0
  }

  /** The pass up to the threshold test: the tick is integrated, the charge
      and discriminator noise are drawn, and the busy count goes down. */
  function Tick(s: Front, px: Pixel, cfg: Config): (r: Front)
    requires Valid(s, px) && s.iadc < MaxAdcValues
    ensures Valid(r, px) && SameShape(s, r)
    ensures r == s.(qSum := r.qSum, fractions := r.fractions, draws := s.draws + 2,
                    busy := if s.busy > 0 then s.busy - 1 else 0)
    ensures r.qSum == s.qSum + HeldCharge(px.current, Min(s.ic, |px.current|), Min(s.ic + 1, |px.current|),
                                          cfg.timeSampling)
    ensures r.fractions[s.iadc] == Accumulated(s.fractions[s.iadc], px.trackCurrents, Min(s.ic, |px.current|),
                                               Min(s.ic + 1, |px.current|), cfg.timeSampling)
  {
    if s.ic < |px.current| then
      AccumulatedSnoc(s.fractions[s.iadc], px.trackCurrents, s.ic, s.ic, cfg.timeSampling);
      AccumulatedEmpty(s.fractions[s.iadc], px.trackCurrents, s.ic, cfg.timeSampling);
      Integrate(s, px, cfg).(draws := s.draws + 2, busy := if s.busy > 0 then s.busy - 1 else 0)
    else
      AccumulatedEmpty(s.fractions[s.iadc], px.trackCurrents, |px.current|, cfg.timeSampling);
      Integrate(s, px, cfg).(draws := s.draws + 2, busy := if s.busy > 0 then s.busy - 1 else 0)
  }

  /** The threshold test: the running charge plus charge noise reaches the
      threshold plus discriminator noise, and the ADC is no longer busy. */
  predicate Fires(s: Front, px: Pixel, cfg: Config, draw: nat -> real)
    requires Valid(s, px) && s.iadc < MaxAdcValues
  {
    var b := Tick(s, px, cfg);
    && b.qSum + Noise(draw, s.draws, UncorrelatedNoiseCharge, cfg.eCharge)
         >= px.threshold + Noise(draw, s.draws + 1, DiscriminatorNoise, cfg.eCharge)
    && b.busy == 0
  }

  /** The state after the hold window that follows a crossing at tick s.ic. */
  function Held(s: Front, px: Pixel, cfg: Config): (r: Front)
    requires ValidConfig(cfg) && Valid(s, px) && s.iadc < MaxAdcValues && s.stop == Running
    ensures Valid(r, px) && SameShape(s, r) && r.iadc == s.iadc && r.stop == Running
    ensures r.ic == HoldEnd(s.ic, px, cfg)
    ensures r.adcs == s.adcs && r.ticks == s.ticks && r.crossings == s.crossings
    ensures r.busy == (if s.busy > 0 then s.busy - 1 else 0) && r.draws == s.draws + 2
    ensures r.fractions == s.fractions[s.iadc := r.fractions[s.iadc]]
  {
    Hold(Tick(s, px, cfg).(ic := s.ic + 1), px, cfg, s.ic + HoldTicks(cfg))
  }

  /** A pass without a crossing, and the hold window after a crossing, keep
      the ledger: the charge of every tick they pass over goes into the
      running charge and into the pending fraction row. */
  lemma TickKeepsLedger(s: Front, px: Pixel, cfg: Config, seed: real, base: seq<real>)
    requires Valid(s, px) && s.iadc < MaxAdcValues && Ledger(s, px, cfg, seed, base)
    ensures Ledger(Tick(s, px, cfg).(ic := s.ic + 1), px, cfg, seed, base)
  {
    IntegrateKeepsLedger(s, px, cfg, seed, base);
  }

  lemma HeldKeepsLedger(s: Front, px: Pixel, cfg: Config, seed: real, base: seq<real>)
    requires ValidConfig(cfg) && Valid(s, px) && s.iadc < MaxAdcValues && s.stop == Running
    requires Ledger(s, px, cfg, seed, base)
    ensures Ledger(Held(s, px, cfg), px, cfg, seed, base) && Held(s, px, cfg).lastReset == s.lastReset
  {
    TickKeepsLedger(s, px, cfg, seed, base);
    HoldKeepsLedger(Tick(s, px, cfg).(ic := s.ic + 1), px, cfg, s.ic + HoldTicks(cfg), seed, base);
  }

  /** Held is the hold loop from the tick after the crossing. */
  lemma HeldIsHold(s: Front, px: Pixel, cfg: Config)
    requires ValidConfig(cfg) && Valid(s, px) && s.iadc < MaxAdcValues && s.stop == Running
    ensures Held(s, px, cfg) == Hold(Tick(s, px, cfg).(ic := s.ic + 1), px, cfg, s.ic + HoldTicks(cfg))
  {
  }

  /** One pass of the kernel's loop, taken while ticks remain or the ADC is
      busy. It stops on a full sample list; otherwise it runs the tick and
      the threshold test, and on a crossing the hold window and its
      resolution. Every pass that does not stop makes progress: it stores a
      sample, or moves to a later tick, or counts the busy time down. */
  function Step(s: Front, px: Pixel, cfg: Config, draw: nat -> real): (r: Front)
    requires ValidConfig(cfg) && Valid(s, px)
    requires s.stop == Running && (s.ic < |px.current| || s.busy > 0)
    ensures Valid(r, px) && SameShape(s, r)
    ensures r.stop == Running ==> r.ic > s.ic
    ensures r.stop == Running ==>
              || r.iadc == s.iadc + 1
              || (r.iadc == s.iadc && Pending(r.ic, px) < Pending(s.ic, px))
              || (r.iadc == s.iadc && Pending(r.ic, px) == Pending(s.ic, px) && r.busy < s.busy)
  {
    if s.iadc >= MaxAdcValues then s.(stop := Capped)
    else if Fires(s, px, cfg, draw) then Resolve(Held(s, px, cfg), px, cfg, draw, s.ic)
    else Tick(s, px, cfg).(ic := s.ic + 1)
  }

  /** The whole loop: steps until it stops. The result has stopped; if it
      drained, no tick is left and the ADC is idle; if it was capped, every
      sample slot is used. */
  function Run(s: Front, px: Pixel, cfg: Config, draw: nat -> real): (r: Front)
    requires ValidConfig(cfg) && Valid(s, px)
    ensures Valid(r, px) && SameShape(s, r)
    ensures r.stop != Running
    ensures r.stop == Drained ==> r.ic >= |px.current| && r.busy == 0
    ensures r.stop == Capped ==> r.iadc == MaxAdcValues
    decreases (if s.stop == Running then 1 else 0), MaxAdcValues - s.iadc, Pending(s.ic, px), s.busy
  {
    if s.stop != Running then s
    else if !(s.ic < |px.current| || s.busy > 0) then s.(stop := Drained)
    else Run(Step(s, px, cfg, draw), px, cfg, draw)
  }

  /** The state the kernel starts in: tick 0, no sample, and a running
      charge made of reset noise (the first draw). */
  function Init(adcs: seq<real>, ticks: seq<real>, fractions: seq<seq<real>>,
                draw: nat -> real, eCharge: real): (s: Front)
    ensures s.ic == 0 && s.iadc == 0 && s.busy == 0 && s.crossings == [] && s.stop == Running
  {
    Front(0, 0, 0, 0, Noise(draw, 0, ResetNoiseCharge, eCharge), 1, adcs, ticks, fractions, [], Running)
  }

  /** While the ADC is busy for at least two more ticks no trigger can
      happen: the pass only integrates, counts down and moves on. */
  lemma BusyBlocksTrigger(s: Front, px: Pixel, cfg: Config, draw: nat -> real)
    requires ValidConfig(cfg) && Valid(s, px) && s.stop == Running && s.iadc < MaxAdcValues
    requires s.busy >= 2
    ensures var r := Step(s, px, cfg, draw);
            && r.iadc == s.iadc && r.ic == s.ic + 1 && r.busy == s.busy - 1 && r.stop == Running
            && r.adcs == s.adcs && r.ticks == s.ticks && r.crossings == s.crossings
            && r.draws == s.draws + 2
  {
  }

  /** A pass that stores a sample is a crossing resolved after its hold
      window. */
  lemma StepThatStores(s: Front, px: Pixel, cfg: Config, draw: nat -> real)
    requires ValidConfig(cfg) && Valid(s, px) && s.stop == Running && (s.ic < |px.current| || s.busy > 0)
    requires Step(s, px, cfg, draw).iadc == s.iadc + 1
    ensures s.iadc < MaxAdcValues && Fires(s, px, cfg, draw)
    ensures Step(s, px, cfg, draw) == Resolve(Held(s, px, cfg), px, cfg, draw, s.ic)
  {
  }

  /** The running charge after the hold window: the charge at the start of
      the pass plus that of every tick from the crossing to the end of the
      window. */
  lemma HeldChargeFromCrossing(s: Front, px: Pixel, cfg: Config)
    requires ValidConfig(cfg) && Valid(s, px) && s.iadc < MaxAdcValues && s.stop == Running
    requires HoldEnd(s.ic, px, cfg) <= |px.current|
    ensures Held(s, px, cfg).qSum
            == s.qSum + HeldCharge(px.current, s.ic, HoldEnd(s.ic, px, cfg), cfg.timeSampling)
  {
    var h0 := Tick(s, px, cfg).(ic := s.ic + 1);
    var end := HoldEnd(s.ic, px, cfg);
    assert s.ic < |px.current|;
    assert h0.qSum == s.qSum + px.current[s.ic] * cfg.timeSampling;
    HoldCollectsCharge(h0, px, cfg, s.ic + HoldTicks(cfg));
    assert HeldCharge(px.current, s.ic, end, cfg.timeSampling)
           == px.current[s.ic] * cfg.timeSampling + HeldCharge(px.current, s.ic + 1, end, cfg.timeSampling);
  }

  /** A stored sample holds the running charge at the start of the pass,
      plus the charge of the ticks from the crossing through the hold window,
      plus uncorrelated noise, and that value passed the noisy threshold; its
      time is the crossing tick's time plus the padding and the two-tick
      trigger delay; its fractions are the pending row after the hold
      window, normalised; then the reset is skipped and the ADC is busy.
      StoredSampleCharges states charge and fractions through the ledger. */
  lemma EmitStoresSample(s: Front, px: Pixel, cfg: Config, draw: nat -> real)
    requires ValidConfig(cfg) && Valid(s, px) && s.stop == Running && (s.ic < |px.current| || s.busy > 0)
    requires Step(s, px, cfg, draw).iadc == s.iadc + 1
    ensures var r := Step(s, px, cfg, draw);
            && s.ic < |px.timeTicks|
            && r.ticks[s.iadc] == px.timeTicks[s.ic] + cfg.timePadding + 2.0
            && (HoldEnd(s.ic, px, cfg) <= |px.current| ==>
                  r.adcs[s.iadc]
                  == s.qSum + HeldCharge(px.current, s.ic, HoldEnd(s.ic, px, cfg), cfg.timeSampling)
                     + Noise(draw, s.draws + 2, UncorrelatedNoiseCharge, cfg.eCharge))
            && r.adcs[s.iadc] >= px.threshold + Noise(draw, s.draws + 3, DiscriminatorNoise, cfg.eCharge)
            && r.ic == HoldEnd(s.ic, px, cfg) + ResetSkip(cfg) && r.lastReset == r.ic
            && r.busy == BusyTicks(cfg)
            && r.fractions[s.iadc] == Normalize(Held(s, px, cfg).fractions[s.iadc])
  {
    StepThatStores(s, px, cfg, draw);
    if HoldEnd(s.ic, px, cfg) <= |px.current| {
      HeldChargeFromCrossing(s, px, cfg);
    }
  }

  /** The same sample through the ledger of the pass that stores it: its
      charge is the seed of the last reset plus the charge of every tick from
      that reset to the end of the hold window, plus uncorrelated noise; its
      fractions are the normalised row of the pending base plus each track's
      charge over the same ticks. */
  lemma StoredSampleCharges(s: Front, px: Pixel, cfg: Config, draw: nat -> real, seed: real, base: seq<real>)
    requires ValidConfig(cfg) && Valid(s, px) && s.stop == Running && (s.ic < |px.current| || s.busy > 0)
    requires Step(s, px, cfg, draw).iadc == s.iadc + 1
    requires Ledger(s, px, cfg, seed, base)
    ensures var r := Step(s, px, cfg, draw);
            var lo := Min(s.lastReset, |px.current|);
            var hi := Min(HoldEnd(s.ic, px, cfg), |px.current|);
            && r.adcs[s.iadc]
               == seed + HeldCharge(px.current, lo, hi, cfg.timeSampling)
                  + Noise(draw, s.draws + 2, UncorrelatedNoiseCharge, cfg.eCharge)
            && r.fractions[s.iadc] == Normalize(Accumulated(base, px.trackCurrents, lo, hi, cfg.timeSampling))
  {
    StepThatStores(s, px, cfg, draw);
    HeldKeepsLedger(s, px, cfg, seed, base);
  }

  /** A crossing whose charge after the hold window falls below the noisy
      threshold is a false trigger: no sample is stored, the pending
      fractions are cleared (they sum to zero), the integration restarts one clock cycle after
      the window from fresh uncorrelated noise, and that tick is the new
      reset tick. */
  lemma FalseTriggerResets(s: Front, px: Pixel, cfg: Config, draw: nat -> real)
    requires ValidConfig(cfg) && Valid(s, px) && s.stop == Running && (s.ic < |px.current| || s.busy > 0)
    requires s.iadc < MaxAdcValues && Fires(s, px, cfg, draw)
    requires Held(s, px, cfg).qSum + Noise(draw, s.draws + 2, UncorrelatedNoiseCharge, cfg.eCharge)
             < px.threshold + Noise(draw, s.draws + 3, DiscriminatorNoise, cfg.eCharge)
    ensures var r := Step(s, px, cfg, draw);
            && r.stop == Running && r.iadc == s.iadc && r.busy == 0
            && r.adcs == s.adcs && r.ticks == s.ticks && r.crossings == s.crossings
            && r.fractions == s.fractions[s.iadc := Zeros(|s.fractions[s.iadc]|)]
            && Sum(r.fractions[s.iadc]) == 0.0
            && r.ic == HoldEnd(s.ic, px, cfg) + FalseTriggerSkip(cfg) && r.lastReset == r.ic
            && r.qSum == Noise(draw, s.draws + 4, UncorrelatedNoiseCharge, cfg.eCharge)
  {
    var h := Held(s, px, cfg);
    assert Step(s, px, cfg, draw) == Resolve(h, px, cfg, draw, s.ic);
    ResolveDrop(h, px, cfg, draw, s.ic);
    assert |h.fractions[s.iadc]| == |s.fractions[s.iadc]|;
    SumZeros(|s.fractions[s.iadc]|);
  }

  /** A pass writes the sample rows only in the pending slot iadc, moves
      to the next slot at most, and writes the time of the pending slot
      only when it moves on. */
  lemma StepFrame(s: Front, px: Pixel, cfg: Config, draw: nat -> real)
    requires ValidConfig(cfg) && Valid(s, px) && s.stop == Running && (s.ic < |px.current| || s.busy > 0)
    ensures var r := Step(s, px, cfg, draw);
            && (r.iadc == s.iadc || r.iadc == s.iadc + 1)
            && (forall j :: 0 <= j < |s.adcs| && j != s.iadc ==> r.adcs[j] == s.adcs[j])
            && (forall j :: 0 <= j < |s.fractions| && j != s.iadc ==> r.fractions[j] == s.fractions[j])
            && (forall j :: 0 <= j < |s.ticks| && j != s.iadc ==> r.ticks[j] == s.ticks[j])
            && (r.iadc == s.iadc ==> r.ticks == s.ticks)
            && (r.iadc == s.iadc && r.stop != TickOutOfRange ==> r.adcs == s.adcs)
  {
  }

  /** A pass keeps the ledger of the pending sample until the next reset.
      A reset starts a new ledger at the reset tick: after a false trigger,
      from fresh uncorrelated noise and a cleared row; after a stored sample,
      from fresh reset noise and the next slot's row as it was. */
  lemma StepKeepsLedger(s: Front, px: Pixel, cfg: Config, draw: nat -> real, seed: real, base: seq<real>)
    requires ValidConfig(cfg) && Valid(s, px) && s.stop == Running && (s.ic < |px.current| || s.busy > 0)
    requires Ledger(s, px, cfg, seed, base)
    ensures var r := Step(s, px, cfg, draw);
            && r.draws >= s.draws
            && (r.stop != TickOutOfRange && r.lastReset == s.lastReset ==>
                  r.iadc == s.iadc && Ledger(r, px, cfg, seed, base))
            && (r.stop != TickOutOfRange && r.lastReset != s.lastReset ==>
                  && r.lastReset == r.ic && r.draws == s.draws + 5
                  && (r.iadc == s.iadc ==>
                        Ledger(r, px, cfg, Noise(draw, s.draws + 4, UncorrelatedNoiseCharge, cfg.eCharge),
                               Zeros(|s.fractions[s.iadc]|)))
                  && (r.iadc == s.iadc + 1 && r.iadc < |r.fractions| ==>
                        Ledger(r, px, cfg, Noise(draw, s.draws + 4, ResetNoiseCharge, cfg.eCharge),
                               s.fractions[r.iadc])))
  {
    if s.iadc < MaxAdcValues {
      if Fires(s, px, cfg, draw) {
        FireKeepsLedger(s, px, cfg, draw, seed, base);
      } else {
        TickKeepsLedger(s, px, cfg, seed, base);
      }
    }
  }

  /** A crossing keeps the ledger through the hold window, and its
      resolution starts a new one. */
  lemma FireKeepsLedger(s: Front, px: Pixel, cfg: Config, draw: nat -> real, seed: real, base: seq<real>)
    requires ValidConfig(cfg) && Valid(s, px) && s.stop == Running && s.iadc < MaxAdcValues
    requires Ledger(s, px, cfg, seed, base)
    ensures var r := Resolve(Held(s, px, cfg), px, cfg, draw, s.ic);
            r.stop != TickOutOfRange ==>
              && r.lastReset == r.ic && r.ic > s.lastReset && r.draws == s.draws + 5
              && (r.iadc == s.iadc ==>
                    Ledger(r, px, cfg, Noise(draw, s.draws + 4, UncorrelatedNoiseCharge, cfg.eCharge),
                           Zeros(|s.fractions[s.iadc]|)))
              && (r.iadc == s.iadc + 1 && r.iadc < |r.fractions| ==>
                    Ledger(r, px, cfg, Noise(draw, s.draws + 4, ResetNoiseCharge, cfg.eCharge),
                           s.fractions[r.iadc]))
  {
    var h := Held(s, px, cfg);
    HeldKeepsLedger(s, px, cfg, seed, base);
    ResolveKeepsLedger(h, px, cfg, draw, s.ic, seed, base);
  }

  /** The resolution after the hold window resets the ledger unless it
      stops at an unreadable tick. */
  lemma ResolveKeepsLedger(h: Front, px: Pixel, cfg: Config, draw: nat -> real, crossing: nat,
                           seed: real, base: seq<real>)
    requires ValidConfig(cfg) && Valid(h, px) && h.iadc < MaxAdcValues && h.stop == Running
    requires Ledger(h, px, cfg, seed, base)
    ensures var r := Resolve(h, px, cfg, draw, crossing);
            r.stop != TickOutOfRange ==>
              && r.lastReset == r.ic && r.ic >= h.ic && r.draws == h.draws + 3
              && (r.iadc == h.iadc ==>
                    Ledger(r, px, cfg, Noise(draw, h.draws + 2, UncorrelatedNoiseCharge, cfg.eCharge),
                           Zeros(|h.fractions[h.iadc]|)))
              && (r.iadc == h.iadc + 1 && r.iadc < |r.fractions| ==>
                    Ledger(r, px, cfg, Noise(draw, h.draws + 2, ResetNoiseCharge, cfg.eCharge),
                           h.fractions[r.iadc]))
  {
    var r := Resolve(h, px, cfg, draw, crossing);
    var n := |px.current|;
    if StoredCharge(h, cfg, draw) < px.threshold + DiscNoise(h, cfg, draw) {
      ResolveDrop(h, px, cfg, draw, crossing);
      AccumulatedEmpty(Zeros(|h.fractions[h.iadc]|), px.trackCurrents, Min(r.ic, n), cfg.timeSampling);
    } else if r.stop != TickOutOfRange && r.iadc < |r.fractions| {
      AccumulatedEmpty(h.fractions[r.iadc], px.trackCurrents, Min(r.ic, n), cfg.timeSampling);
    }
  }

  /** The ledger invariant of a pixel's loop, for the rows it started
      from: the slots after the pending one still hold their initial rows,
      and, unless the loop stopped at an unreadable tick, the pending sample
      has a ledger whose seed is an earlier draw of the stream. Its seed and
      base are reset noise and the pending slot's initial row (no false
      trigger since the last stored sample), or uncorrelated noise and a
      cleared row (after a false trigger). */
  ghost predicate Accounted(s: Front, px: Pixel, cfg: Config, draw: nat -> real, rows: seq<seq<real>>)
  {
    && |rows| == |s.fractions|
    && (forall j :: s.iadc < j < |s.fractions| ==> s.fractions[j] == rows[j])
    && (s.stop != TickOutOfRange && s.iadc < |s.fractions| ==>
          exists k: nat :: k < s.draws &&
            (|| Ledger(s, px, cfg, Noise(draw, k, ResetNoiseCharge, cfg.eCharge), rows[s.iadc])
             || Ledger(s, px, cfg, Noise(draw, k, UncorrelatedNoiseCharge, cfg.eCharge), Zeros(|rows[s.iadc]|))))
  }

  /** The kernel's initial state is accounted for: its charge is the first
      draw, of reset noise, and no tick is integrated yet. */
  lemma InitAccounted(px: Pixel, cfg: Config, draw: nat -> real,
                      adcs: seq<real>, ticks: seq<real>, fractions: seq<seq<real>>)
    requires Valid(Init(adcs, ticks, fractions, draw, cfg.eCharge), px)
    ensures Accounted(Init(adcs, ticks, fractions, draw, cfg.eCharge), px, cfg, draw, fractions)
  {
    var s := Init(adcs, ticks, fractions, draw, cfg.eCharge);
    AccumulatedEmpty(fractions[0], px.trackCurrents, 0, cfg.timeSampling);
    assert Ledger(s, px, cfg, Noise(draw, 0, ResetNoiseCharge, cfg.eCharge), fractions[0]);
  }

  /** Every pass keeps the ledger invariant. */
  lemma StepKeepsAccounted(s: Front, px: Pixel, cfg: Config, draw: nat -> real, rows: seq<seq<real>>)
    requires ValidConfig(cfg) && Valid(s, px) && s.stop == Running && (s.ic < |px.current| || s.busy > 0)
    requires Accounted(s, px, cfg, draw, rows)
    ensures Accounted(Step(s, px, cfg, draw), px, cfg, draw, rows)
  {
    var r := Step(s, px, cfg, draw);
    StepFrame(s, px, cfg, draw);
    if r.stop != TickOutOfRange && r.iadc < |r.fractions| {
      var k: nat :| k < s.draws &&
        (|| Ledger(s, px, cfg, Noise(draw, k, ResetNoiseCharge, cfg.eCharge), rows[s.iadc])
         || Ledger(s, px, cfg, Noise(draw, k, UncorrelatedNoiseCharge, cfg.eCharge), Zeros(|rows[s.iadc]|)));
      var e := cfg.eCharge;
      var base := if Ledger(s, px, cfg, Noise(draw, k, ResetNoiseCharge, e), rows[s.iadc])
                  then rows[s.iadc] else Zeros(|rows[s.iadc]|);
      var seed := if Ledger(s, px, cfg, Noise(draw, k, ResetNoiseCharge, e), rows[s.iadc])
                  then Noise(draw, k, ResetNoiseCharge, e) else Noise(draw, k, UncorrelatedNoiseCharge, e);
      StepKeepsLedger(s, px, cfg, draw, seed, base);
      assert |s.fractions[s.iadc]| == |rows[s.iadc]|;
      if r.lastReset == s.lastReset {
        assert k < r.draws && Ledger(r, px, cfg, seed, base);
      } else if r.iadc == s.iadc {
        assert s.draws + 4 < r.draws
               && Ledger(r, px, cfg, Noise(draw, s.draws + 4, UncorrelatedNoiseCharge, e), Zeros(|rows[r.iadc]|));
      } else {
        assert s.draws + 4 < r.draws
               && Ledger(r, px, cfg, Noise(draw, s.draws + 4, ResetNoiseCharge, e), rows[r.iadc]);
      }
    }
  }

  /** The loop keeps the ledger invariant, so from the initial state the
      final pending slot (the kernel leaves it in the fraction output) holds
      its base row plus the per-track charges since the last reset. */
  lemma {:induction false} RunKeepsAccounted(s: Front, px: Pixel, cfg: Config, draw: nat -> real, rows: seq<seq<real>>)
    requires ValidConfig(cfg) && Valid(s, px) && Accounted(s, px, cfg, draw, rows)
    ensures Accounted(Run(s, px, cfg, draw), px, cfg, draw, rows)
    decreases (if s.stop == Running then 1 else 0), MaxAdcValues - s.iadc, Pending(s.ic, px), s.busy
  {
    if s.stop == Running && (s.ic < |px.current| || s.busy > 0) {
      StepKeepsAccounted(s, px, cfg, draw, rows);
      RunKeepsAccounted(Step(s, px, cfg, draw), px, cfg, draw, rows);
    } else if s.stop == Running {
      var r := Run(s, px, cfg, draw);
      assert r == s.(stop := Drained);
      if s.iadc < |s.fractions| {
        var k: nat :| k < s.draws &&
          (|| Ledger(s, px, cfg, Noise(draw, k, ResetNoiseCharge, cfg.eCharge), rows[s.iadc])
           || Ledger(s, px, cfg, Noise(draw, k, UncorrelatedNoiseCharge, cfg.eCharge), Zeros(|rows[s.iadc]|)));
        assert Ledger(r, px, cfg, Noise(draw, k, ResetNoiseCharge, cfg.eCharge), rows[s.iadc])
               == Ledger(s, px, cfg, Noise(draw, k, ResetNoiseCharge, cfg.eCharge), rows[s.iadc]);
        assert Ledger(r, px, cfg, Noise(draw, k, UncorrelatedNoiseCharge, cfg.eCharge), Zeros(|rows[s.iadc]|))
               == Ledger(s, px, cfg, Noise(draw, k, UncorrelatedNoiseCharge, cfg.eCharge), Zeros(|rows[s.iadc]|));
      }
    }
  }

  /** Once stored, a sample is never overwritten. */
  lemma {:induction false} RunKeepsStoredSamples(s: Front, px: Pixel, cfg: Config, draw: nat -> real)
    requires ValidConfig(cfg) && Valid(s, px)
    ensures var r := Run(s, px, cfg, draw);
            && r.iadc >= s.iadc
            && (forall j :: 0 <= j < s.iadc ==>
                  r.adcs[j] == s.adcs[j] && r.ticks[j] == s.ticks[j] && r.fractions[j] == s.fractions[j])
    decreases (if s.stop == Running then 1 else 0), MaxAdcValues - s.iadc, Pending(s.ic, px), s.busy
  {
    if s.stop == Running && (s.ic < |px.current| || s.busy > 0) {
      var t := Step(s, px, cfg, draw);
      StepFrame(s, px, cfg, draw);
      RunKeepsStoredSamples(t, px, cfg, draw);
    }
  }

  /** Slots past the last one the loop reached are never touched; nor is
      that last slot's sample charge or time, unless the loop stopped at an
      unreadable tick right after writing the charge. So at most
      MaxAdcValues samples are written. */
  lemma {:induction false} RunLeavesLaterSlots(s: Front, px: Pixel, cfg: Config, draw: nat -> real)
    requires ValidConfig(cfg) && Valid(s, px)
    ensures var r := Run(s, px, cfg, draw);
            && (forall j :: r.iadc < j < |s.adcs| ==> r.adcs[j] == s.adcs[j])
            && (forall j :: r.iadc < j < |s.fractions| ==> r.fractions[j] == s.fractions[j])
            && (forall j :: r.iadc <= j < |s.ticks| ==> r.ticks[j] == s.ticks[j])
            && (r.stop != TickOutOfRange ==> forall j :: r.iadc <= j < |s.adcs| ==> r.adcs[j] == s.adcs[j])
    decreases (if s.stop == Running then 1 else 0), MaxAdcValues - s.iadc, Pending(s.ic, px), s.busy
  {
    if s.stop == Running && (s.ic < |px.current| || s.busy > 0) {
      var t := Step(s, px, cfg, draw);
      StepFrame(s, px, cfg, draw);
      RunKeepsStoredSamples(t, px, cfg, draw);
      RunLeavesLaterSlots(t, px, cfg, draw);
    }
  }

  /** What the stored samples record: one crossing tick per stored sample;
      each sample's time is its crossing tick's time plus the padding and
      the trigger delay; any two crossings are at least the dead time
      (hold window, reset and busy time) apart; and the current tick, with
      the busy time still to go, is past the dead time of the last one. */
  predicate Consistent(s: Front, px: Pixel, cfg: Config)
    requires ValidConfig(cfg)
  {
    && |s.crossings| == s.iadc && s.iadc <= |s.ticks|
    && (forall j :: 0 <= j < s.iadc ==>
          s.crossings[j] < |px.timeTicks|
          && s.ticks[j] == px.timeTicks[s.crossings[j]] + cfg.timePadding + 2.0)
    && (forall i, j :: 0 <= i < j < s.iadc ==> ReadyAt(s.crossings[i], px, cfg) <= s.crossings[j])
    && (s.iadc > 0 ==>
          && s.crossings[s.iadc - 1] < s.ic
          && ReadyAt(s.crossings[s.iadc - 1], px, cfg) <= Slack(s))
  }

  /** The earliest tick at which the state can trigger: the current tick
      plus the busy time still to go. */
  function Slack(s: Front): nat
  {
    s.ic + (if s.busy > 0 then s.busy - 1 else 0)
  }

  /** A move that stores nothing and does not go back in time keeps the
      samples consistent. */
  lemma KeepConsistent(s: Front, r: Front, px: Pixel, cfg: Config)
    requires ValidConfig(cfg) && Consistent(s, px, cfg)
    requires r.iadc == s.iadc && r.crossings == s.crossings && r.ticks == s.ticks
    requires r.ic >= s.ic && Slack(r) >= Slack(s)
    ensures Consistent(r, px, cfg)
  {
  }

  /** Storing a sample for crossing c, at or after the dead time of the
      previous one, with the time of tick c, and then moving to the end of
      the dead time of c, keeps the samples consistent. */
  lemma StoreConsistent(s: Front, r: Front, c: nat, px: Pixel, cfg: Config)
    requires ValidConfig(cfg) && Consistent(s, px, cfg) && s.iadc < |s.ticks|
    requires c < |px.timeTicks| && (s.iadc > 0 ==> ReadyAt(s.crossings[s.iadc - 1], px, cfg) <= c)
    requires r.iadc == s.iadc + 1 && r.crossings == s.crossings + [c]
    requires r.ticks == s.ticks[s.iadc := px.timeTicks[c] + cfg.timePadding + 2.0]
    requires c < r.ic && ReadyAt(c, px, cfg) <= Slack(r)
    ensures Consistent(r, px, cfg)
  {
    forall i, j | 0 <= i < j < r.iadc
      ensures ReadyAt(r.crossings[i], px, cfg) <= r.crossings[j]
    {
      if j == s.iadc && i < s.iadc - 1 {
        assert ReadyAt(s.crossings[i], px, cfg) <= s.crossings[s.iadc - 1];
      }
    }
  }

  /** A crossing at tick s.ic, resolved after its hold window, keeps the
      samples consistent: a stored sample's crossing is s.ic, past the dead
      time of the previous one, and the front end then waits out its own
      dead time. */
  lemma FireKeepsConsistent(s: Front, px: Pixel, cfg: Config, draw: nat -> real)
    requires ValidConfig(cfg) && Valid(s, px) && s.stop == Running && s.iadc < MaxAdcValues
    requires Fires(s, px, cfg, draw) && Consistent(s, px, cfg)
    ensures Consistent(Resolve(Held(s, px, cfg), px, cfg, draw, s.ic), px, cfg)
  {
    var h := Held(s, px, cfg);
    var r := Resolve(h, px, cfg, draw, s.ic);
    assert s.busy <= 1;
    if r.iadc == s.iadc + 1 {
      StoreConsistent(s, r, s.ic, px, cfg);
    } else {
      KeepConsistent(s, r, px, cfg);
    }
  }

  /** One pass keeps the samples consistent with their crossings. */
  lemma StepKeepsConsistent(s: Front, px: Pixel, cfg: Config, draw: nat -> real)
    requires ValidConfig(cfg) && Valid(s, px) && s.stop == Running && (s.ic < |px.current| || s.busy > 0)
    requires Consistent(s, px, cfg)
    ensures Consistent(Step(s, px, cfg, draw), px, cfg)
  {
    var r := Step(s, px, cfg, draw);
    if s.iadc >= MaxAdcValues {
      KeepConsistent(s, r, px, cfg);
    } else if Fires(s, px, cfg, draw) {
      FireKeepsConsistent(s, px, cfg, draw);
    } else {
      KeepConsistent(s, r, px, cfg);
    }
  }

  /** The loop keeps the samples consistent with their crossings. */
  lemma {:induction false} RunKeepsConsistent(s: Front, px: Pixel, cfg: Config, draw: nat -> real)
    requires ValidConfig(cfg) && Valid(s, px) && Consistent(s, px, cfg)
    ensures Consistent(Run(s, px, cfg, draw), px, cfg)
    decreases (if s.stop == Running then 1 else 0), MaxAdcValues - s.iadc, Pending(s.ic, px), s.busy
  {
    if s.stop == Running && (s.ic < |px.current| || s.busy > 0) {
      StepKeepsConsistent(s, px, cfg, draw);
      RunKeepsConsistent(Step(s, px, cfg, draw), px, cfg, draw);
    }
  }

  /** For a whole pixel, from the initial state: every stored sample's time
      comes from a tick of the time table, its crossing tick; the crossings
      are separated by the dead time; and with an increasing time table the
      stored times increase strictly. */
  lemma StoredSampleTimes(px: Pixel, cfg: Config, draw: nat -> real,
                          adcs: seq<real>, ticks: seq<real>, fractions: seq<seq<real>>)
    requires ValidConfig(cfg) && Valid(Init(adcs, ticks, fractions, draw, cfg.eCharge), px)
    ensures var r := Run(Init(adcs, ticks, fractions, draw, cfg.eCharge), px, cfg, draw);
            && |r.crossings| == r.iadc
            && (forall j :: 0 <= j < r.iadc ==>
                  r.crossings[j] < |px.timeTicks|
                  && r.ticks[j] == px.timeTicks[r.crossings[j]] + cfg.timePadding + 2.0)
            && (forall i, j :: 0 <= i < j < r.iadc ==>
                  r.crossings[i] < r.crossings[j] && ReadyAt(r.crossings[i], px, cfg) <= r.crossings[j])
            && ((forall a, b :: 0 <= a < b < |px.timeTicks| ==> px.timeTicks[a] < px.timeTicks[b]) ==>
                  forall i, j :: 0 <= i < j < r.iadc ==> r.ticks[i] < r.ticks[j])
  {
    var s := Init(adcs, ticks, fractions, draw, cfg.eCharge);
    RunKeepsConsistent(s, px, cfg, draw);
    ConsistentOrdered(Run(s, px, cfg, draw), px, cfg);
  }

  /** In a consistent state the crossings increase strictly, and so do the
      stored times when the time table increases. */
  lemma ConsistentOrdered(r: Front, px: Pixel, cfg: Config)
    requires ValidConfig(cfg) && Consistent(r, px, cfg)
    ensures forall i, j :: 0 <= i < j < r.iadc ==> r.crossings[i] < r.crossings[j]
    ensures (forall a, b :: 0 <= a < b < |px.timeTicks| ==> px.timeTicks[a] < px.timeTicks[b]) ==>
              forall i, j :: 0 <= i < j < r.iadc ==> r.ticks[i] < r.ticks[j]
  {
    forall i, j | 0 <= i < j < r.iadc
      ensures r.crossings[i] < r.crossings[j]
    {
      assert ReadyAt(r.crossings[i], px, cfg) <= r.crossings[j];
    }
  }
}
