/** The self-trigger kernel on the output arrays: one thread per pixel runs
    the loop over ticks, writing the pixel's rows of the sample charges,
    the sample times and the per-track fractions. Each thread is proved to
    leave exactly what the state machine Run of the self-trigger model
    computes from the pixel's initial rows. */
module AdcKernel {
  import opened Numerics
  import opened Fee
  import opened SelfTrigger

  /** Slab i of a three-dimensional array, as rows. */
  function Slab(f: array3<real>, i: nat): (r: seq<seq<real>>)
    requires i < f.Length0
    reads f
    ensures |r| == f.Length1
    ensures forall a :: 0 <= a < f.Length1 ==>
              |r[a]| == f.Length2 && forall j :: 0 <= j < f.Length2 ==> r[a][j] == f[i, a, j]
  {
    seq(f.Length1, a requires 0 <= a < f.Length1 reads f =>
      seq(f.Length2, j requires 0 <= j < f.Length2 reads f => f[i, a, j]))
  }

  /** The model state that the thread's variables and its rows of the
      output arrays represent. */
  function View(ic: nat, iadc: nat, busy: nat, lastReset: nat, qSum: real, draws: nat,
                crossings: seq<nat>, stop: Stop, ip: nat,
                adcList: array2<real>, adcTicks: array2<real>, fractions: array3<real>): Front
    requires ip < adcList.Length0 && ip < adcTicks.Length0 && ip < fractions.Length0
    reads adcList, adcTicks, fractions
  {
    Front(ic, iadc, busy, lastReset, qSum, draws, Row(adcList, ip), Row(adcTicks, ip),
          Slab(fractions, ip), crossings, stop)
  }

  /** A slab equals rows of the right shape that agree with it entry by
      entry. */
  lemma SlabEqual(f: array3<real>, ip: nat, rows: seq<seq<real>>)
    requires ip < f.Length0 && |rows| == f.Length1
    requires forall b :: 0 <= b < f.Length1 ==> |rows[b]| == f.Length2
    requires forall b, j :: 0 <= b < f.Length1 && 0 <= j < f.Length2 ==> f[ip, b, j] == rows[b][j]
    ensures Slab(f, ip) == rows
  {
    var s := Slab(f, ip);
    forall b | 0 <= b < f.Length1
      ensures s[b] == rows[b]
    {
    }
  }

  /** Two slabs agree except in row a, whose new value is given. */
  lemma SlabUpdate(f: array3<real>, ip: nat, a: nat, before: seq<seq<real>>, row: seq<real>)
    requires ip < f.Length0 && a < f.Length1 && |before| == f.Length1 && |row| == f.Length2
    requires forall b :: 0 <= b < f.Length1 ==> |before[b]| == f.Length2
    requires forall b, j :: 0 <= b < f.Length1 && 0 <= j < f.Length2 ==>
               f[ip, b, j] == if b == a then row[j] else before[b][j]
    ensures Slab(f, ip) == before[a := row]
  {
    var s := Slab(f, ip);
    forall b | 0 <= b < f.Length1
      ensures s[b] == before[a := row][b]
    {
    }
  }

  /** A store into cell (i, j): row i gets v at j, other rows keep their
      contents. */
  method WriteCell(a: array2<real>, i: nat, j: nat, v: real)
    requires i < a.Length0 && j < a.Length1
    modifies a
    ensures Row(a, i) == old(Row(a, i))[j := v]
    ensures forall r, c :: 0 <= r < a.Length0 && r != i && 0 <= c < a.Length1 ==> a[r, c] == old(a[r, c])
  {
    a[i, j] := v;
  }

  /** The per-track integration of one tick into the pending sample's row:
      row iadc of the pixel's slab gains ts times the tick's per-track
      currents. */
  method Accumulate(f: array3<real>, ip: nat, iadc: nat, tr: seq<real>, ts: real)
    requires ip < f.Length0 && iadc < f.Length1 && |tr| >= f.Length2
    modifies f
    ensures Slab(f, ip) == old(Slab(f, ip))[iadc := AddScaled(old(Slab(f, ip))[iadc], tr, ts)]
    ensures forall i, a, j :: 0 <= i < f.Length0 && i != ip && 0 <= a < f.Length1 && 0 <= j < f.Length2
              ==> f[i, a, j] == old(f[i, a, j])
  {
    ghost var before := Slab(f, ip);
    for itrk := 0 to f.Length2
      invariant forall a, j :: 0 <= a < f.Length1 && 0 <= j < f.Length2 ==>
                  f[ip, a, j] == if a == iadc && j < itrk then before[a][j] + tr[j] * ts else before[a][j]
      invariant forall i, a, j :: 0 <= i < f.Length0 && i != ip && 0 <= a < f.Length1 && 0 <= j < f.Length2 ==>
                  f[i, a, j] == old(f[i, a, j])
    {
      f[ip, iadc, itrk] := f[ip, iadc, itrk] + tr[itrk] * ts;
    }
    SlabUpdate(f, ip, iadc, before, AddScaled(before[iadc], tr, ts));
  }

  /** The reset of a false trigger: the pending sample's fractions go back
      to zero. */
  method Clear(f: array3<real>, ip: nat, iadc: nat)
    requires ip < f.Length0 && iadc < f.Length1
    modifies f
    ensures Slab(f, ip) == old(Slab(f, ip))[iadc := Zeros(f.Length2)]
    ensures forall i, a, j :: 0 <= i < f.Length0 && i != ip && 0 <= a < f.Length1 && 0 <= j < f.Length2
              ==> f[i, a, j] == old(f[i, a, j])
  {
    ghost var before := Slab(f, ip);
    for itrk := 0 to f.Length2
      invariant forall a, j :: 0 <= a < f.Length1 && 0 <= j < f.Length2 ==>
                  f[ip, a, j] == if a == iadc && j < itrk then 0.0 else before[a][j]
      invariant forall i, a, j :: 0 <= i < f.Length0 && i != ip && 0 <= a < f.Length1 && 0 <= j < f.Length2 ==>
                  f[i, a, j] == old(f[i, a, j])
    {
      f[ip, iadc, itrk] := 0.0;
    }
    SlabUpdate(f, ip, iadc, before, Zeros(f.Length2));
  }

  /** The fractions of a stored sample: the row is summed, then divided by
      its sum (a row summing to zero is left alone). */
  method NormalizeRow(f: array3<real>, ip: nat, iadc: nat)
    requires ip < f.Length0 && iadc < f.Length1
    modifies f
    ensures Slab(f, ip) == old(Slab(f, ip))[iadc := Normalize(old(Slab(f, ip))[iadc])]
    ensures forall i, a, j :: 0 <= i < f.Length0 && i != ip && 0 <= a < f.Length1 && 0 <= j < f.Length2
              ==> f[i, a, j] == old(f[i, a, j])
  {
    ghost var before := Slab(f, ip);
    ghost var row := before[iadc];
    var total := 0.0;
    for itrk := 0 to f.Length2
      invariant total == Sum(row[..itrk])
    {
      assert row[..itrk + 1][..itrk] == row[..itrk];
      total := total + f[ip, iadc, itrk];
    }
    assert row[..f.Length2] == row;
    if total != 0.0 {
      for itrk := 0 to f.Length2
        invariant forall a, j :: 0 <= a < f.Length1 && 0 <= j < f.Length2 ==>
                    f[ip, a, j] == if a == iadc && j < itrk then before[a][j] / total else before[a][j]
        invariant forall i, a, j :: 0 <= i < f.Length0 && i != ip && 0 <= a < f.Length1 && 0 <= j < f.Length2 ==>
                    f[i, a, j] == old(f[i, a, j])
      {
        f[ip, iadc, itrk] := f[ip, iadc, itrk] / total;
      }
    }
    SlabUpdate(f, ip, iadc, before, Normalize(row));
  }

  /** The integration of tick ic into the running charge and into the
      pending sample's fractions, as Integrate states it. */
  method IntegrateTick(ghost s: Front, px: Pixel, cfg: Config, ip: nat, ic: nat, iadc: nat, qSum: real,
                       fractions: array3<real>) returns (q: real)
    requires Valid(s, px) && s.ic == ic && s.iadc == iadc && iadc < MaxAdcValues && s.qSum == qSum
    requires ip < fractions.Length0 && s.fractions == Slab(fractions, ip)
    modifies fractions
    ensures q == Integrate(s, px, cfg).qSum && Slab(fractions, ip) == Integrate(s, px, cfg).fractions
    ensures forall i, a, j :: 0 <= i < fractions.Length0 && i != ip && 0 <= a < fractions.Length1 && 0 <= j < fractions.Length2
                 ==> fractions[i, a, j] == old(fractions[i, a, j])
  {
    q := qSum;
    if ic < |px.current| {
      assert |s.fractions[iadc]| == fractions.Length2 && |s.fractions[iadc]| <= |px.trackCurrents[ic]|;
      q := qSum + px.current[ic] * cfg.timeSampling;
      Accumulate(fractions, ip, iadc, px.trackCurrents[ic], cfg.timeSampling);
    }
  }

  /** One turn of the hold loop moves to the integrated state at the next
      tick, from which the loop reaches the same end. */
  lemma HoldAdvance(s: Front, px: Pixel, cfg: Config, end: int)
    requires Valid(s, px) && s.iadc < MaxAdcValues && s.ic <= end && s.ic < |px.current|
    ensures var next := Integrate(s, px, cfg).(ic := s.ic + 1);
            Valid(next, px) && next.iadc == s.iadc && Hold(next, px, cfg, end) == Hold(s, px, cfg, end)
  {
  }

  /** The hold loop of a crossing, as Hold states it. */
  method HoldWindow(ghost s: Front, px: Pixel, cfg: Config, ip: nat, ic: nat, iadc: nat, qSum: real,
                    integrateEnd: int, fractions: array3<real>) returns (ic': nat, qSum': real)
    requires Valid(s, px) && s.ic == ic && s.iadc == iadc && iadc < MaxAdcValues && s.qSum == qSum
    requires ip < fractions.Length0 && s.fractions == Slab(fractions, ip)
    modifies fractions
    ensures var r := Hold(s, px, cfg, integrateEnd);
            ic' == r.ic && qSum' == r.qSum && Slab(fractions, ip) == r.fractions
    ensures forall i, a, j :: 0 <= i < fractions.Length0 && i != ip && 0 <= a < fractions.Length1 && 0 <= j < fractions.Length2
                 ==> fractions[i, a, j] == old(fractions[i, a, j])
  {
    ic', qSum' := ic, qSum;
    ghost var cur := s;
    while ic' <= integrateEnd && ic' < |px.current|
      invariant Valid(cur, px) && cur.ic == ic' && cur.iadc == iadc && cur.qSum == qSum'
      invariant cur.fractions == Slab(fractions, ip)
      invariant Hold(cur, px, cfg, integrateEnd) == Hold(s, px, cfg, integrateEnd)
      invariant forall i, a, j :: 0 <= i < fractions.Length0 && i != ip && 0 <= a < fractions.Length1 && 0 <= j < fractions.Length2
                 ==> fractions[i, a, j] == old(fractions[i, a, j])
      decreases |px.current| - ic'
    {
      ghost var next := Integrate(cur, px, cfg).(ic := ic' + 1);
      HoldAdvance(cur, px, cfg, integrateEnd);
      qSum' := IntegrateTick(cur, px, cfg, ip, ic', iadc, qSum', fractions);
      cur := next;
      ic' := ic' + 1;
    }
    assert Hold(cur, px, cfg, integrateEnd) == cur;
  }

  /** Resolve on a sample that is stored, record by record. */
  lemma ResolveStore(h: Front, px: Pixel, cfg: Config, draw: nat -> real, crossing: nat)
    requires ValidConfig(cfg) && Valid(h, px) && h.iadc < MaxAdcValues && h.stop == Running
    requires StoredCharge(h, cfg, draw) >= px.threshold + DiscNoise(h, cfg, draw)
    ensures var g := h.(fractions := h.fractions[h.iadc := Normalize(h.fractions[h.iadc])],
                        adcs := h.adcs[h.iadc := StoredCharge(h, cfg, draw)], draws := h.draws + 2);
            Resolve(h, px, cfg, draw, crossing)
            == if crossing >= |px.timeTicks| then g.(stop := TickOutOfRange)
               else g.(ticks := h.ticks[h.iadc := px.timeTicks[crossing] + cfg.timePadding + 2.0],
                       ic := h.ic + ResetSkip(cfg), lastReset := h.ic + ResetSkip(cfg), busy := BusyTicks(cfg),
                       qSum := Noise(draw, h.draws + 2, ResetNoiseCharge, cfg.eCharge), draws := h.draws + 3,
                       iadc := h.iadc + 1, crossings := h.crossings + [crossing])
  {
  }

  /** A false trigger: the pending sample's fractions are cleared and the
      integration restarts after the skip, as Resolve states it. */
  method Drop(ghost h: Front, px: Pixel, cfg: Config, draw: nat -> real, ip: nat, crossing: nat,
              ic: nat, iadc: nat, k: nat,
              adcList: array2<real>, adcTicks: array2<real>, fractions: array3<real>)
    returns (ic': nat, lastReset': nat, qSum': real, k': nat)
    requires ValidConfig(cfg) && Valid(h, px) && h.stop == Running && iadc < MaxAdcValues
    requires h.ic == ic && h.iadc == iadc && h.draws == k
    requires StoredCharge(h, cfg, draw) < px.threshold + DiscNoise(h, cfg, draw)
    requires ip < adcList.Length0 && ip < adcTicks.Length0 && ip < fractions.Length0
    requires h.adcs == Row(adcList, ip) && h.ticks == Row(adcTicks, ip) && h.fractions == Slab(fractions, ip)
    modifies fractions
    ensures View(ic', iadc, h.busy, lastReset', qSum', k', h.crossings, Running, ip, adcList, adcTicks, fractions)
            == Resolve(h, px, cfg, draw, crossing)
    ensures forall i, a, j :: 0 <= i < fractions.Length0 && i != ip && 0 <= a < fractions.Length1 && 0 <= j < fractions.Length2
                 ==> fractions[i, a, j] == old(fractions[i, a, j])
  {
    ResolveDrop(h, px, cfg, draw, crossing);
    ic' := ic + FalseTriggerSkip(cfg);
    qSum' := Noise(draw, k + 2, UncorrelatedNoiseCharge, cfg.eCharge);
    k' := k + 3;
    Clear(fractions, ip, iadc);
    lastReset' := ic';
  }

  /** The part of a stored sample common to both of its outcomes: the
      pending fractions are normalized and the noisy charge is written. */
  method Record(ghost h: Front, cfg: Config, draw: nat -> real, ip: nat, iadc: nat, qSum: real, k: nat,
                adcList: array2<real>, fractions: array3<real>)
    requires ip < adcList.Length0 && ip < fractions.Length0
    requires iadc < adcList.Length1 && iadc < fractions.Length1
    requires h.iadc == iadc && h.qSum == qSum && h.draws == k
    requires h.adcs == Row(adcList, ip) && h.fractions == Slab(fractions, ip)
    modifies adcList, fractions
    ensures Slab(fractions, ip) == h.fractions[iadc := Normalize(h.fractions[iadc])]
    ensures Row(adcList, ip) == h.adcs[iadc := StoredCharge(h, cfg, draw)]
    ensures forall i, j :: 0 <= i < adcList.Length0 && i != ip && 0 <= j < adcList.Length1
                 ==> adcList[i, j] == old(adcList[i, j])
    ensures forall i, a, j :: 0 <= i < fractions.Length0 && i != ip && 0 <= a < fractions.Length1 && 0 <= j < fractions.Length2
                 ==> fractions[i, a, j] == old(fractions[i, a, j])
  {
    var adc := qSum + Noise(draw, k, UncorrelatedNoiseCharge, cfg.eCharge);
    NormalizeRow(fractions, ip, iadc);
    WriteCell(adcList, ip, iadc, adc);
  }

  /** A sample above threshold: its fractions are normalized and its
      charge stored; unless its tick lies past the tick times, its time is
      stored too and the front end resets and goes busy, as Resolve states
      it. */
  method Store(ghost h: Front, px: Pixel, cfg: Config, draw: nat -> real, ip: nat, crossing: nat,
               ic: nat, iadc: nat, busy: nat, lastReset: nat, qSum: real, k: nat,
               adcList: array2<real>, adcTicks: array2<real>, fractions: array3<real>)
    returns (ic': nat, iadc': nat, busy': nat, lastReset': nat, qSum': real, k': nat,
             ghost crossings': seq<nat>, stop': Stop)
    requires ValidConfig(cfg) && Valid(h, px) && h.stop == Running && iadc < MaxAdcValues
    requires h.ic == ic && h.iadc == iadc && h.busy == busy && h.lastReset == lastReset
    requires h.qSum == qSum && h.draws == k
    requires StoredCharge(h, cfg, draw) >= px.threshold + DiscNoise(h, cfg, draw)
    requires adcList != adcTicks
    requires ip < adcList.Length0 && ip < adcTicks.Length0 && ip < fractions.Length0
    requires h.adcs == Row(adcList, ip) && h.ticks == Row(adcTicks, ip) && h.fractions == Slab(fractions, ip)
    modifies adcList, adcTicks, fractions
    ensures View(ic', iadc', busy', lastReset', qSum', k', crossings', stop', ip, adcList, adcTicks, fractions)
            == Resolve(h, px, cfg, draw, crossing)
    ensures forall i, j :: 0 <= i < adcList.Length0 && i != ip && 0 <= j < adcList.Length1
                 ==> adcList[i, j] == old(adcList[i, j])
    ensures forall i, j :: 0 <= i < adcTicks.Length0 && i != ip && 0 <= j < adcTicks.Length1
                 ==> adcTicks[i, j] == old(adcTicks[i, j])
    ensures forall i, a, j :: 0 <= i < fractions.Length0 && i != ip && 0 <= a < fractions.Length1 && 0 <= j < fractions.Length2
                 ==> fractions[i, a, j] == old(fractions[i, a, j])
  {
    ResolveStore(h, px, cfg, draw, crossing);
    ic', iadc', busy', lastReset', qSum', k', crossings', stop' := ic, iadc, busy, lastReset, qSum, k, h.crossings, Running;
    Record(h, cfg, draw, ip, iadc, qSum, k, adcList, fractions);
    k' := k + 2;
    ghost var g := h.(fractions := Slab(fractions, ip), adcs := Row(adcList, ip), draws := k');
    if crossing >= |px.timeTicks| {
      stop' := TickOutOfRange;
      assert View(ic', iadc', busy', lastReset', qSum', k', crossings', stop', ip, adcList, adcTicks, fractions)
             == g.(stop := TickOutOfRange);
    } else {
      var time := px.timeTicks[crossing] + cfg.timePadding + 2.0;
      WriteCell(adcTicks, ip, iadc, time);
      assert Slab(fractions, ip) == g.fractions && Row(adcList, ip) == g.adcs;
      assert Row(adcTicks, ip) == h.ticks[iadc := time];
      ic' := ic + ResetSkip(cfg);
      lastReset' := ic';
      busy' := BusyTicks(cfg);
      qSum' := Noise(draw, k + 2, ResetNoiseCharge, cfg.eCharge);
      k' := k + 3;
      crossings' := h.crossings + [crossing];
      iadc' := iadc + 1;
      assert View(ic', iadc', busy', lastReset', qSum', k', crossings', stop', ip, adcList, adcTicks, fractions)
             == g.(ticks := h.ticks[iadc := time], ic := ic', lastReset := ic', busy := busy', qSum := qSum',
                   draws := k', iadc := iadc', crossings := crossings');
    }
  }

  /** What follows the hold window, as Resolve states it: the false
      trigger is dropped, or the sample is stored. */
  method Settle(ghost h: Front, px: Pixel, cfg: Config, draw: nat -> real, ip: nat, crossing: nat,
                ic: nat, iadc: nat, busy: nat, lastReset: nat, qSum: real, k: nat,
                adcList: array2<real>, adcTicks: array2<real>, fractions: array3<real>)
    returns (ic': nat, iadc': nat, busy': nat, lastReset': nat, qSum': real, k': nat,
             ghost crossings': seq<nat>, stop': Stop)
    requires ValidConfig(cfg) && Valid(h, px) && h.stop == Running && iadc < MaxAdcValues
    requires h.ic == ic && h.iadc == iadc && h.busy == busy && h.lastReset == lastReset
    requires h.qSum == qSum && h.draws == k
    requires adcList != adcTicks
    requires ip < adcList.Length0 && ip < adcTicks.Length0 && ip < fractions.Length0
    requires h.adcs == Row(adcList, ip) && h.ticks == Row(adcTicks, ip) && h.fractions == Slab(fractions, ip)
    modifies adcList, adcTicks, fractions
    ensures View(ic', iadc', busy', lastReset', qSum', k', crossings', stop', ip, adcList, adcTicks, fractions)
            == Resolve(h, px, cfg, draw, crossing)
    ensures forall i, j :: 0 <= i < adcList.Length0 && i != ip && 0 <= j < adcList.Length1
                 ==> adcList[i, j] == old(adcList[i, j])
    ensures forall i, j :: 0 <= i < adcTicks.Length0 && i != ip && 0 <= j < adcTicks.Length1
                 ==> adcTicks[i, j] == old(adcTicks[i, j])
    ensures forall i, a, j :: 0 <= i < fractions.Length0 && i != ip && 0 <= a < fractions.Length1 && 0 <= j < fractions.Length2
                 ==> fractions[i, a, j] == old(fractions[i, a, j])
  {
    var adc := qSum + Noise(draw, k, UncorrelatedNoiseCharge, cfg.eCharge);
    var discNoise := Noise(draw, k + 1, DiscriminatorNoise, cfg.eCharge);
    if adc < px.threshold + discNoise {
      ic', lastReset', qSum', k' := Drop(h, px, cfg, draw, ip, crossing, ic, iadc, k, adcList, adcTicks, fractions);
      iadc', busy', crossings', stop' := iadc, busy, h.crossings, Running;
    } else {
      ic', iadc', busy', lastReset', qSum', k', crossings', stop' :=
        Store(h, px, cfg, draw, ip, crossing, ic, iadc, busy, lastReset, qSum, k, adcList, adcTicks, fractions);
    }
  }

  /** A crossing of the threshold: the hold window is integrated, then the
      trigger is resolved, as Resolve of Held states it. The variables
      given are those after the tick of s. */
  method Trigger(ghost s: Front, px: Pixel, cfg: Config, draw: nat -> real, ip: nat,
                 ic: nat, iadc: nat, busy: nat, lastReset: nat, qSum: real, k: nat,
                 adcList: array2<real>, adcTicks: array2<real>, fractions: array3<real>)
    returns (ic': nat, iadc': nat, busy': nat, lastReset': nat, qSum': real, k': nat,
             ghost crossings': seq<nat>, stop': Stop)
    requires ValidConfig(cfg) && Valid(s, px) && s.stop == Running && s.iadc < MaxAdcValues
    requires adcList != adcTicks
    requires ip < adcList.Length0 && ip < adcTicks.Length0 && ip < fractions.Length0
    requires Tick(s, px, cfg)
             == View(ic, iadc, busy, lastReset, qSum, k, s.crossings, Running, ip, adcList, adcTicks, fractions)
    modifies adcList, adcTicks, fractions
    ensures View(ic', iadc', busy', lastReset', qSum', k', crossings', stop', ip, adcList, adcTicks, fractions)
            == Resolve(Held(s, px, cfg), px, cfg, draw, s.ic)
    ensures forall i, j :: 0 <= i < adcList.Length0 && i != ip && 0 <= j < adcList.Length1
                 ==> adcList[i, j] == old(adcList[i, j])
    ensures forall i, j :: 0 <= i < adcTicks.Length0 && i != ip && 0 <= j < adcTicks.Length1
                 ==> adcTicks[i, j] == old(adcTicks[i, j])
    ensures forall i, a, j :: 0 <= i < fractions.Length0 && i != ip && 0 <= a < fractions.Length1 && 0 <= j < fractions.Length2
                 ==> fractions[i, a, j] == old(fractions[i, a, j])
  {
    assert ic == s.ic;
    var integrateEnd := ic + HoldTicks(cfg);
    ghost var h0 := Tick(s, px, cfg).(ic := s.ic + 1);
    ghost var rowA, rowT := Row(adcList, ip), Row(adcTicks, ip);
    var icHeld, qHeld := HoldWindow(h0, px, cfg, ip, ic + 1, iadc, qSum, integrateEnd, fractions);
    ghost var h := Held(s, px, cfg);
    HeldIsHold(s, px, cfg);
    assert h == h0.(ic := icHeld, qSum := qHeld, fractions := Slab(fractions, ip));
    assert Row(adcList, ip) == rowA && Row(adcTicks, ip) == rowT;
    assert h == View(icHeld, iadc, busy, lastReset, qHeld, k, s.crossings, Running, ip, adcList, adcTicks, fractions);
    ic', iadc', busy', lastReset', qSum', k', crossings', stop' :=
      Settle(h, px, cfg, draw, ip, ic, icHeld, iadc, busy, lastReset, qHeld, k, adcList, adcTicks, fractions);
  }

  /** One pass of the thread's loop over ticks, as Step states it. */
  method Pass(ghost s: Front, px: Pixel, cfg: Config, draw: nat -> real, ip: nat,
              ic: nat, iadc: nat, busy: nat, lastReset: nat, qSum: real, k: nat,
              adcList: array2<real>, adcTicks: array2<real>, fractions: array3<real>)
    returns (ic': nat, iadc': nat, busy': nat, lastReset': nat, qSum': real, k': nat,
             ghost crossings': seq<nat>, stop': Stop)
    requires ValidConfig(cfg) && Valid(s, px) && s.stop == Running && (s.ic < |px.current| || s.busy > 0)
    requires adcList != adcTicks
    requires ip < adcList.Length0 && ip < adcTicks.Length0 && ip < fractions.Length0
    requires s == View(ic, iadc, busy, lastReset, qSum, k, s.crossings, Running, ip, adcList, adcTicks, fractions)
    modifies adcList, adcTicks, fractions
    ensures View(ic', iadc', busy', lastReset', qSum', k', crossings', stop', ip, adcList, adcTicks, fractions)
            == Step(s, px, cfg, draw)
    ensures forall i, j :: 0 <= i < adcList.Length0 && i != ip && 0 <= j < adcList.Length1
                 ==> adcList[i, j] == old(adcList[i, j])
    ensures forall i, j :: 0 <= i < adcTicks.Length0 && i != ip && 0 <= j < adcTicks.Length1
                 ==> adcTicks[i, j] == old(adcTicks[i, j])
    ensures forall i, a, j :: 0 <= i < fractions.Length0 && i != ip && 0 <= a < fractions.Length1 && 0 <= j < fractions.Length2
                 ==> fractions[i, a, j] == old(fractions[i, a, j])
  {
    ic', iadc', busy', lastReset', qSum', k', crossings', stop' := ic, iadc, busy, lastReset, qSum, k, s.crossings, Running;
    if iadc >= MaxAdcValues {
      stop' := Capped;
      return;
    }
    qSum' := IntegrateTick(s, px, cfg, ip, ic, iadc, qSum, fractions);
    var qNoise := Noise(draw, k, UncorrelatedNoiseCharge, cfg.eCharge);
    var discNoise := Noise(draw, k + 1, DiscriminatorNoise, cfg.eCharge);
    k' := k + 2;
    if busy > 0 {
      busy' := busy - 1;
    }
    ghost var b := Tick(s, px, cfg);
    assert qSum' == b.qSum && busy' == b.busy && Slab(fractions, ip) == b.fractions;
    if qSum' + qNoise >= px.threshold + discNoise && busy' == 0 {
      assert Fires(s, px, cfg, draw);
      ic', iadc', busy', lastReset', qSum', k', crossings', stop' :=
        Trigger(s, px, cfg, draw, ip, ic, iadc, busy', lastReset, qSum', k', adcList, adcTicks, fractions);
    } else {
      assert !Fires(s, px, cfg, draw);
      ic' := ic + 1;
      assert View(ic', iadc', busy', lastReset', qSum', k', crossings', stop', ip, adcList, adcTicks, fractions)
             == b.(ic := ic + 1);
    }
  }

  /** The loop unrolled once: a state that still runs reaches through
      one pass the same end as it does itself. */
  lemma RunUnrolls(s: Front, px: Pixel, cfg: Config, draw: nat -> real)
    requires ValidConfig(cfg) && Valid(s, px)
    requires s.stop == Running && (s.ic < |px.current| || s.busy > 0)
    ensures Run(s, px, cfg, draw) == Run(Step(s, px, cfg, draw), px, cfg, draw)
  {
  }

  /** The kernel thread of pixel ip. It leaves in the pixel's rows, and
      returns as the number of samples and the stop reason, exactly what
      the model's loop computes from the pixel's initial rows; it writes no
      other pixel's rows. */
  method PixelAdcValues(px: Pixel, cfg: Config, draw: nat -> real, ip: nat,
                        adcList: array2<real>, adcTicks: array2<real>, fractions: array3<real>)
    returns (iadc: nat, stop: Stop)
    requires ValidConfig(cfg) && adcList != adcTicks
    requires ip < adcList.Length0 && ip < adcTicks.Length0 && ip < fractions.Length0
    requires adcList.Length1 >= MaxAdcValues && adcTicks.Length1 >= MaxAdcValues
    requires fractions.Length1 >= MaxAdcValues
    requires |px.trackCurrents| >= |px.current|
    requires forall t :: 0 <= t < |px.current| ==> |px.trackCurrents[t]| >= fractions.Length2
    modifies adcList, adcTicks, fractions
    ensures var r := Run(Init(old(Row(adcList, ip)), old(Row(adcTicks, ip)), old(Slab(fractions, ip)),
                              draw, cfg.eCharge), px, cfg, draw);
            && Row(adcList, ip) == r.adcs && Row(adcTicks, ip) == r.ticks
            && Slab(fractions, ip) == r.fractions && iadc == r.iadc && stop == r.stop
    ensures forall i, j :: 0 <= i < adcList.Length0 && i != ip && 0 <= j < adcList.Length1
                 ==> adcList[i, j] == old(adcList[i, j])
    ensures forall i, j :: 0 <= i < adcTicks.Length0 && i != ip && 0 <= j < adcTicks.Length1
                 ==> adcTicks[i, j] == old(adcTicks[i, j])
    ensures forall i, a, j :: 0 <= i < fractions.Length0 && i != ip && 0 <= a < fractions.Length1 && 0 <= j < fractions.Length2
                 ==> fractions[i, a, j] == old(fractions[i, a, j])
  {
    var ic: nat := 0;
    iadc := 0;
    var busy: nat := 0;
    var lastReset: nat := 0;
    var k: nat := 0;
    var qSum := Noise(draw, k, ResetNoiseCharge, cfg.eCharge);
    k := 1;
    ghost var crossings: seq<nat> := [];
    stop := Running;
    ghost var final := Run(View(ic, iadc, busy, lastReset, qSum, k, crossings, stop, ip, adcList, adcTicks, fractions),
                           px, cfg, draw);

    while stop == Running && (ic < |px.current| || busy > 0)
      invariant Valid(View(ic, iadc, busy, lastReset, qSum, k, crossings, stop, ip, adcList, adcTicks, fractions), px)
      invariant Run(View(ic, iadc, busy, lastReset, qSum, k, crossings, stop, ip, adcList, adcTicks, fractions),
                    px, cfg, draw) == final
      invariant forall i, j :: 0 <= i < adcList.Length0 && i != ip && 0 <= j < adcList.Length1
                 ==> adcList[i, j] == old(adcList[i, j])
      invariant forall i, j :: 0 <= i < adcTicks.Length0 && i != ip && 0 <= j < adcTicks.Length1
                 ==> adcTicks[i, j] == old(adcTicks[i, j])
      invariant forall i, a, j :: 0 <= i < fractions.Length0 && i != ip && 0 <= a < fractions.Length1 && 0 <= j < fractions.Length2
                 ==> fractions[i, a, j] == old(fractions[i, a, j])
      decreases (if stop == Running then 1 else 0), MaxAdcValues - iadc, Pending(ic, px), busy
    {
      ghost var s0 := View(ic, iadc, busy, lastReset, qSum, k, crossings, stop, ip, adcList, adcTicks, fractions);
      RunUnrolls(s0, px, cfg, draw);
      ic, iadc, busy, lastReset, qSum, k, crossings, stop :=
        Pass(s0, px, cfg, draw, ip, ic, iadc, busy, lastReset, qSum, k, adcList, adcTicks, fractions);
      ghost var s1 := Step(s0, px, cfg, draw);
      assert ic == s1.ic && iadc == s1.iadc && busy == s1.busy && stop == s1.stop;
    }
    if stop == Running {
      stop := Drained;
    }
    assert View(ic, iadc, busy, lastReset, qSum, k, crossings, stop, ip, adcList, adcTicks, fractions) == final;
  }

  /** w is what the model's loop computes for pixel px from the rows a0,
      t0 and f0. */
  predicate PixelResult(w: Front, a0: seq<real>, t0: seq<real>, f0: seq<seq<real>>,
                        px: Pixel, cfg: Config, draw: nat -> real)
  {
    && ValidConfig(cfg) && Valid(Init(a0, t0, f0, draw, cfg.eCharge), px)
    && w == Run(Init(a0, t0, f0, draw, cfg.eCharge), px, cfg, draw)
  }

  /** The inputs of pixel ip: its current, its per-track currents, the
      shared tick times and its threshold. */
  function PixelOf(signals: seq<seq<real>>, trackSignals: seq<seq<seq<real>>>, timeTicks: seq<real>,
                   thresholds: seq<real>, ip: nat): Pixel
    requires ip < |signals| && ip < |trackSignals| && ip < |thresholds|
  {
    Pixel(signals[ip], trackSignals[ip], timeTicks, thresholds[ip])
  }

  /** Pixel i of the grid: want[i] is what the model's loop computes for
      the pixel from its initial rows. */
  predicate GridPixel(want: seq<Front>, rowsA: seq<seq<real>>, rowsT: seq<seq<real>>, slabs: seq<seq<seq<real>>>,
                      signals: seq<seq<real>>, trackSignals: seq<seq<seq<real>>>, timeTicks: seq<real>,
                      thresholds: seq<real>, cfg: Config, draw: nat -> nat -> real, i: nat)
  {
    && i < |want| && i < |rowsA| && i < |rowsT| && i < |slabs|
    && i < |signals| && i < |trackSignals| && i < |thresholds|
    && PixelResult(want[i], rowsA[i], rowsT[i], slabs[i],
                   PixelOf(signals, trackSignals, timeTicks, thresholds, i), cfg, draw(i))
  }

  /** The thread of pixel ip, stated entry by entry: the pixel's rows
      still hold their initial contents, and afterwards they hold want[ip]. */
  method GridThread(ghost want: seq<Front>, ghost rowsA: seq<seq<real>>, ghost rowsT: seq<seq<real>>,
                    ghost slabs: seq<seq<seq<real>>>,
                    signals: seq<seq<real>>, trackSignals: seq<seq<seq<real>>>,
                    timeTicks: seq<real>, thresholds: seq<real>, cfg: Config, draw: nat -> nat -> real, ip: nat,
                    adcList: array2<real>, adcTicks: array2<real>, fractions: array3<real>)
    requires ValidConfig(cfg) && adcList != adcTicks
    requires ip < |signals| && |trackSignals| >= |signals| && |thresholds| >= |signals|
    requires ip < adcList.Length0 && ip < adcTicks.Length0 && ip < fractions.Length0
    requires adcList.Length1 >= MaxAdcValues && adcTicks.Length1 >= MaxAdcValues
    requires fractions.Length1 >= MaxAdcValues
    requires |trackSignals[ip]| >= |signals[ip]|
    requires forall t :: 0 <= t < |signals[ip]| ==> |trackSignals[ip][t]| >= fractions.Length2
    requires |want| == |signals| && |rowsA| == |signals| && |rowsT| == |signals| && |slabs| == |signals|
    requires |rowsA[ip]| == adcList.Length1 && |rowsT[ip]| == adcTicks.Length1 && |slabs[ip]| == fractions.Length1
    requires forall a :: 0 <= a < fractions.Length1 ==> |slabs[ip][a]| == fractions.Length2
    requires forall j :: 0 <= j < adcList.Length1 ==> adcList[ip, j] == rowsA[ip][j]
    requires forall j :: 0 <= j < adcTicks.Length1 ==> adcTicks[ip, j] == rowsT[ip][j]
    requires forall a, j :: 0 <= a < fractions.Length1 && 0 <= j < fractions.Length2 ==>
               fractions[ip, a, j] == slabs[ip][a][j]
    requires forall i :: 0 <= i < |signals| ==>
               GridPixel(want, rowsA, rowsT, slabs, signals, trackSignals, timeTicks, thresholds, cfg, draw, i)
    modifies adcList, adcTicks, fractions
    ensures |want[ip].adcs| == adcList.Length1 && |want[ip].ticks| == adcTicks.Length1
    ensures |want[ip].fractions| == fractions.Length1
    ensures forall a :: 0 <= a < fractions.Length1 ==> |want[ip].fractions[a]| == fractions.Length2
    ensures forall j :: 0 <= j < adcList.Length1 ==> adcList[ip, j] == want[ip].adcs[j]
    ensures forall j :: 0 <= j < adcTicks.Length1 ==> adcTicks[ip, j] == want[ip].ticks[j]
    ensures forall a, j :: 0 <= a < fractions.Length1 && 0 <= j < fractions.Length2 ==>
              fractions[ip, a, j] == want[ip].fractions[a][j]
    ensures forall i, j :: 0 <= i < adcList.Length0 && i != ip && 0 <= j < adcList.Length1
                 ==> adcList[i, j] == old(adcList[i, j])
    ensures forall i, j :: 0 <= i < adcTicks.Length0 && i != ip && 0 <= j < adcTicks.Length1
                 ==> adcTicks[i, j] == old(adcTicks[i, j])
    ensures forall i, a, j :: 0 <= i < fractions.Length0 && i != ip && 0 <= a < fractions.Length1 && 0 <= j < fractions.Length2
                 ==> fractions[i, a, j] == old(fractions[i, a, j])
  {
    assert GridPixel(want, rowsA, rowsT, slabs, signals, trackSignals, timeTicks, thresholds, cfg, draw, ip);
    assert Row(adcList, ip) == rowsA[ip] && Row(adcTicks, ip) == rowsT[ip];
    SlabEqual(fractions, ip, slabs[ip]);
    var px := PixelOf(signals, trackSignals, timeTicks, thresholds, ip);
    var _, _ := PixelAdcValues(px, cfg, draw(ip), ip, adcList, adcTicks, fractions);
  }

  /** The loop over the grid of pixel threads, stated entry by entry: the
      pixel rows start as rowsA, rowsT and slabs, and pixel i ends with the
      record want[i] that the model's loop computes from its rows. */
  method GridLoop(ghost want: seq<Front>, ghost rowsA: seq<seq<real>>, ghost rowsT: seq<seq<real>>,
                  ghost slabs: seq<seq<seq<real>>>,
                  signals: seq<seq<real>>, trackSignals: seq<seq<seq<real>>>,
                  timeTicks: seq<real>, thresholds: seq<real>, cfg: Config, draw: nat -> nat -> real,
                  adcList: array2<real>, adcTicks: array2<real>, fractions: array3<real>)
    requires ValidConfig(cfg) && adcList != adcTicks
    requires |trackSignals| >= |signals| && |thresholds| >= |signals|
    requires |signals| <= adcList.Length0 && |signals| <= adcTicks.Length0 && |signals| <= fractions.Length0
    requires adcList.Length1 >= MaxAdcValues && adcTicks.Length1 >= MaxAdcValues
    requires fractions.Length1 >= MaxAdcValues
    requires forall ip :: 0 <= ip < |signals| ==> |trackSignals[ip]| >= |signals[ip]|
    requires forall ip, t :: 0 <= ip < |signals| && 0 <= t < |signals[ip]| ==>
               |trackSignals[ip][t]| >= fractions.Length2
    requires |want| == |signals| && |rowsA| == |signals| && |rowsT| == |signals| && |slabs| == |signals|
    requires forall i :: 0 <= i < |signals| ==>
               |rowsA[i]| == adcList.Length1 && |rowsT[i]| == adcTicks.Length1 && |slabs[i]| == fractions.Length1
    requires forall i, a :: 0 <= i < |signals| && 0 <= a < fractions.Length1 ==> |slabs[i][a]| == fractions.Length2
    requires forall i, j :: 0 <= i < |signals| && 0 <= j < adcList.Length1 ==> adcList[i, j] == rowsA[i][j]
    requires forall i, j :: 0 <= i < |signals| && 0 <= j < adcTicks.Length1 ==> adcTicks[i, j] == rowsT[i][j]
    requires forall i, a, j :: 0 <= i < |signals| && 0 <= a < fractions.Length1 && 0 <= j < fractions.Length2
               ==> fractions[i, a, j] == slabs[i][a][j]
    requires forall i :: 0 <= i < |signals| ==>
               GridPixel(want, rowsA, rowsT, slabs, signals, trackSignals, timeTicks, thresholds, cfg, draw, i)
    modifies adcList, adcTicks, fractions
    ensures forall i :: 0 <= i < |signals| ==>
              |want[i].adcs| == adcList.Length1 && |want[i].ticks| == adcTicks.Length1
              && |want[i].fractions| == fractions.Length1
    ensures forall i, a :: 0 <= i < |signals| && 0 <= a < fractions.Length1 ==> |want[i].fractions[a]| == fractions.Length2
    ensures forall i, j :: 0 <= i < |signals| && 0 <= j < adcList.Length1 ==> adcList[i, j] == want[i].adcs[j]
    ensures forall i, j :: 0 <= i < |signals| && 0 <= j < adcTicks.Length1 ==> adcTicks[i, j] == want[i].ticks[j]
    ensures forall i, a, j :: 0 <= i < |signals| && 0 <= a < fractions.Length1 && 0 <= j < fractions.Length2
              ==> fractions[i, a, j] == want[i].fractions[a][j]
    ensures forall i, j :: |signals| <= i < adcList.Length0 && 0 <= j < adcList.Length1
              ==> adcList[i, j] == old(adcList[i, j])
    ensures forall i, j :: |signals| <= i < adcTicks.Length0 && 0 <= j < adcTicks.Length1
              ==> adcTicks[i, j] == old(adcTicks[i, j])
    ensures forall i, a, j :: |signals| <= i < fractions.Length0 && 0 <= a < fractions.Length1 && 0 <= j < fractions.Length2
              ==> fractions[i, a, j] == old(fractions[i, a, j])
  {
    for ip := 0 to |signals|
      invariant forall i :: 0 <= i < ip ==>
                  |want[i].adcs| == adcList.Length1 && |want[i].ticks| == adcTicks.Length1
                  && |want[i].fractions| == fractions.Length1
      invariant forall i, a :: 0 <= i < ip && 0 <= a < fractions.Length1 ==> |want[i].fractions[a]| == fractions.Length2
      invariant forall i, j :: 0 <= i < ip && 0 <= j < adcList.Length1 ==> adcList[i, j] == want[i].adcs[j]
      invariant forall i, j :: 0 <= i < ip && 0 <= j < adcTicks.Length1 ==> adcTicks[i, j] == want[i].ticks[j]
      invariant forall i, a, j :: 0 <= i < ip && 0 <= a < fractions.Length1 && 0 <= j < fractions.Length2
                  ==> fractions[i, a, j] == want[i].fractions[a][j]
      invariant forall i, j :: ip <= i < |signals| && 0 <= j < adcList.Length1 ==> adcList[i, j] == rowsA[i][j]
      invariant forall i, j :: ip <= i < |signals| && 0 <= j < adcTicks.Length1 ==> adcTicks[i, j] == rowsT[i][j]
      invariant forall i, a, j :: ip <= i < |signals| && 0 <= a < fractions.Length1 && 0 <= j < fractions.Length2
                  ==> fractions[i, a, j] == slabs[i][a][j]
      invariant forall i, j :: |signals| <= i < adcList.Length0 && 0 <= j < adcList.Length1
                  ==> adcList[i, j] == old(adcList[i, j])
      invariant forall i, j :: |signals| <= i < adcTicks.Length0 && 0 <= j < adcTicks.Length1
                  ==> adcTicks[i, j] == old(adcTicks[i, j])
      invariant forall i, a, j :: |signals| <= i < fractions.Length0 && 0 <= a < fractions.Length1 && 0 <= j < fractions.Length2
                  ==> fractions[i, a, j] == old(fractions[i, a, j])
    {
      GridThread(want, rowsA, rowsT, slabs, signals, trackSignals, timeTicks, thresholds, cfg, draw, ip,
                 adcList, adcTicks, fractions);
    }
  }

  /** The kernel over the grid of pixel threads: every pixel row of the
      outputs holds what the model's loop computes for that pixel from the
      row's initial contents; rows past the last pixel are untouched. Each
      pixel has its own random stream, draw(ip). */
  method GetAdcValues(signals: seq<seq<real>>, trackSignals: seq<seq<seq<real>>>, timeTicks: seq<real>,
                      thresholds: seq<real>, cfg: Config, draw: nat -> nat -> real,
                      adcList: array2<real>, adcTicks: array2<real>, fractions: array3<real>)
    requires ValidConfig(cfg) && adcList != adcTicks
    requires |trackSignals| >= |signals| && |thresholds| >= |signals|
    requires |signals| <= adcList.Length0 && |signals| <= adcTicks.Length0 && |signals| <= fractions.Length0
    requires adcList.Length1 >= MaxAdcValues && adcTicks.Length1 >= MaxAdcValues
    requires fractions.Length1 >= MaxAdcValues
    requires forall ip :: 0 <= ip < |signals| ==> |trackSignals[ip]| >= |signals[ip]|
    requires forall ip, t :: 0 <= ip < |signals| && 0 <= t < |signals[ip]| ==>
               |trackSignals[ip][t]| >= fractions.Length2
    modifies adcList, adcTicks, fractions
    ensures forall ip :: 0 <= ip < |signals| ==>
              var r := Run(Init(old(Row(adcList, ip)), old(Row(adcTicks, ip)), old(Slab(fractions, ip)),
                                draw(ip), cfg.eCharge),
                           PixelOf(signals, trackSignals, timeTicks, thresholds, ip), cfg, draw(ip));
              Row(adcList, ip) == r.adcs && Row(adcTicks, ip) == r.ticks && Slab(fractions, ip) == r.fractions
    ensures forall i, j :: |signals| <= i < adcList.Length0 && 0 <= j < adcList.Length1
              ==> adcList[i, j] == old(adcList[i, j])
    ensures forall i, j :: |signals| <= i < adcTicks.Length0 && 0 <= j < adcTicks.Length1
              ==> adcTicks[i, j] == old(adcTicks[i, j])
    ensures forall i, a, j :: |signals| <= i < fractions.Length0 && 0 <= a < fractions.Length1 && 0 <= j < fractions.Length2
              ==> fractions[i, a, j] == old(fractions[i, a, j])
  {
    ghost var rowsA := seq(|signals|, i requires 0 <= i < |signals| reads adcList => Row(adcList, i));
    ghost var rowsT := seq(|signals|, i requires 0 <= i < |signals| reads adcTicks => Row(adcTicks, i));
    ghost var slabs := seq(|signals|, i requires 0 <= i < |signals| reads fractions => Slab(fractions, i));
    ghost var want := Expected(rowsA, rowsT, slabs, signals, trackSignals, timeTicks, thresholds, cfg, draw,
                               fractions.Length2);
    GridLoop(want, rowsA, rowsT, slabs, signals, trackSignals, timeTicks, thresholds, cfg, draw,
             adcList, adcTicks, fractions);
    forall i | 0 <= i < |signals|
      ensures var r := Run(Init(old(Row(adcList, i)), old(Row(adcTicks, i)), old(Slab(fractions, i)),
                                draw(i), cfg.eCharge),
                           PixelOf(signals, trackSignals, timeTicks, thresholds, i), cfg, draw(i));
              Row(adcList, i) == r.adcs && Row(adcTicks, i) == r.ticks && Slab(fractions, i) == r.fractions
    {
      assert GridPixel(want, rowsA, rowsT, slabs, signals, trackSignals, timeTicks, thresholds, cfg, draw, i);
      assert rowsA[i] == old(Row(adcList, i)) && rowsT[i] == old(Row(adcTicks, i)) && slabs[i] == old(Slab(fractions, i));
      SlabEqual(fractions, i, want[i].fractions);
    }
  }

  /** What the model's loop computes for every pixel from its initial
      rows. */
  ghost function Expected(rowsA: seq<seq<real>>, rowsT: seq<seq<real>>, slabs: seq<seq<seq<real>>>,
                          signals: seq<seq<real>>, trackSignals: seq<seq<seq<real>>>, timeTicks: seq<real>,
                          thresholds: seq<real>, cfg: Config, draw: nat -> nat -> real, width: nat): (want: seq<Front>)
    requires ValidConfig(cfg)
    requires |trackSignals| >= |signals| && |thresholds| >= |signals|
    requires forall ip :: 0 <= ip < |signals| ==> |trackSignals[ip]| >= |signals[ip]|
    requires forall ip, t :: 0 <= ip < |signals| && 0 <= t < |signals[ip]| ==> |trackSignals[ip][t]| >= width
    requires |rowsA| == |signals| && |rowsT| == |signals| && |slabs| == |signals|
    requires forall i :: 0 <= i < |signals| ==>
               |rowsA[i]| >= MaxAdcValues && |rowsT[i]| >= MaxAdcValues && |slabs[i]| >= MaxAdcValues
    requires forall i, a :: 0 <= i < |signals| && 0 <= a < |slabs[i]| ==> |slabs[i][a]| == width
    ensures |want| == |signals|
    ensures forall i :: 0 <= i < |signals| ==>
              GridPixel(want, rowsA, rowsT, slabs, signals, trackSignals, timeTicks, thresholds, cfg, draw, i)
  {
    seq(|signals|, i requires 0 <= i < |signals| =>
      Run(Init(rowsA[i], rowsT[i], slabs[i], draw(i), cfg.eCharge),
          PixelOf(signals, trackSignals, timeTicks, thresholds, i), cfg, draw(i)))
  }
}
