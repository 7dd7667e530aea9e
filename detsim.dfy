/** The exact helpers of the induction module: the time window of each
    segment and the longest window of a batch, the nearest-bin lookup in the
    tabulated pixel response, and the sign function. */
module Detsim {
  import opened Numerics

  /** The two times of a track segment that the time-window kernel reads. */
  datatype Segment = Segment(tStart: real, tEnd: real)

  /** Detector timing constants: the global valid time interval
      [intervalStart, intervalEnd], the sampling period and the padding
      subtracted from each segment's start. */
  datatype Timing = Timing(intervalStart: real, intervalEnd: real, sampling: real, padding: real)

  predicate ValidTiming(tm: Timing) { tm.sampling > 0.0 }

  /** A time rounded to the nearest point of the sampling grid. */
  function OnGrid(t: real, tm: Timing): real
    requires ValidTiming(tm)
  {
    RoundHalfEven(t / tm.sampling) as real * tm.sampling
  }

  /** Scaling by a positive factor keeps the order of reals. */
  lemma ScaleMonotone(a: real, b: real, c: real)
    requires c > 0.0 && a <= b
    ensures a * c <= b * c
  {
    assert b * c - a * c == (b - a) * c;
  }

  /** Dividing by a positive factor keeps strict bounds. */
  lemma DivideBelow(v: real, c: real, bound: real)
    requires c > 0.0 && v < bound * c
    ensures v / c < bound
  {
    if v / c >= bound {
      ScaleMonotone(bound, v / c, c);
    }
  }

  lemma DivideAbove(v: real, c: real, bound: real)
    requires c > 0.0 && v > bound * c
    ensures v / c > bound
  {
    if v / c <= bound {
      ScaleMonotone(v / c, bound, c);
    }
  }

  /** A multiple m * c of a positive step c, with m within one half of
      v = t / c, lies within c / 2 of t. */
  lemma ScaleHalfDistance(t: real, c: real, v: real, m: real)
    requires c > 0.0 && v * c == t && m - 0.5 <= v <= m + 0.5
    ensures t - c / 2.0 <= m * c <= t + c / 2.0
  {
    ScaleMonotone(v - 0.5, m, c);
    ScaleMonotone(m, v + 0.5, c);
  }

  /** Rounding to the sampling grid moves a time by at most half a period. */
  lemma OnGridNearest(t: real, tm: Timing)
    requires ValidTiming(tm)
    ensures t - tm.sampling / 2.0 <= OnGrid(t, tm) <= t + tm.sampling / 2.0
  {
    var v := t / tm.sampling;
    ScaleHalfDistance(t, tm.sampling, v, RoundHalfEven(v) as real);
  }

  /** Start of a segment's window: its padded start time on the sampling
      grid, never before the start of the valid interval. */
  function WindowStart(seg: Segment, tm: Timing): (t: real)
    requires ValidTiming(tm)
    ensures t >= tm.intervalStart
  {
    var g := OnGrid(seg.tStart - tm.padding, tm);
    if tm.intervalStart >= g then tm.intervalStart else g
  }

  /** Unless clamped to the valid interval, the window starts within half a
      sampling period of the padded start time. */
  lemma WindowStartNear(seg: Segment, tm: Timing)
    requires ValidTiming(tm)
    ensures WindowStart(seg, tm) > tm.intervalStart ==>
              seg.tStart - tm.padding - tm.sampling / 2.0 <= WindowStart(seg, tm)
                <= seg.tStart - tm.padding + tm.sampling / 2.0
  {
    OnGridNearest(seg.tStart - tm.padding, tm);
  }

  /** End of a segment's window: its end time plus one, on the sampling
      grid, never after the end of the valid interval. */
  function WindowEnd(seg: Segment, tm: Timing): (t: real)
    requires ValidTiming(tm)
    ensures t <= tm.intervalEnd
  {
    var g := OnGrid(seg.tEnd + 1.0, tm);
    if tm.intervalEnd <= g then tm.intervalEnd else g
  }

  /** Unless clamped to the valid interval, the window ends within half a
      sampling period of the end time plus one. */
  lemma WindowEndNear(seg: Segment, tm: Timing)
    requires ValidTiming(tm)
    ensures WindowEnd(seg, tm) < tm.intervalEnd ==>
              seg.tEnd + 1.0 - tm.sampling / 2.0 <= WindowEnd(seg, tm) <= seg.tEnd + 1.0 + tm.sampling / 2.0
  {
    OnGridNearest(seg.tEnd + 1.0, tm);
  }

  /** Number of sampling periods a segment's window needs, rounded up: the
      least number of whole periods that covers the window. */
  function LengthTicks(seg: Segment, tm: Timing): (n: int)
    requires ValidTiming(tm)
    ensures (n - 1) as real * tm.sampling < WindowEnd(seg, tm) - WindowStart(seg, tm) <= n as real * tm.sampling
  {
    var len := WindowEnd(seg, tm) - WindowStart(seg, tm);
    var c := Ceil(len / tm.sampling);
    assert (c - 1) as real < len / tm.sampling <= c as real;
    assert len / tm.sampling * tm.sampling == len;
    c
  }

  /** The value left in the maximum cell after every segment of the batch
      has taken an atomic maximum with its own length in ticks. */
  function MaxLengthTicks(init: int, segs: seq<Segment>, tm: Timing): (m: int)
    requires ValidTiming(tm)
    ensures m >= init
    ensures forall i :: 0 <= i < |segs| ==> m >= LengthTicks(segs[i], tm)
  {
    if segs == [] then init
    else
      var n := |segs| - 1;
      var last := LengthTicks(segs[n], tm);
      var m := MaxLengthTicks(init, segs[..n], tm);
      assert forall i :: 0 <= i < n ==> segs[..n][i] == segs[i];
      if last > m then last else m
  }

  /** The reduced value is the maximum of the initial cell and every
      segment's length in ticks: besides bounding them all, it is one of
      them. */
  lemma {:induction false} MaxLengthTicksIsMaximum(init: int, segs: seq<Segment>, tm: Timing)
    requires ValidTiming(tm)
    ensures var m := MaxLengthTicks(init, segs, tm);
            m == init || exists i :: 0 <= i < |segs| && m == LengthTicks(segs[i], tm)
  {
    if segs != [] {
      var n := |segs| - 1;
      MaxLengthTicksIsMaximum(init, segs[..n], tm);
      assert forall i :: 0 <= i < n ==> segs[..n][i] == segs[i];
      var m := MaxLengthTicks(init, segs[..n], tm);
      if m != init && LengthTicks(segs[n], tm) <= m {
        var i :| 0 <= i < n && m == LengthTicks(segs[..n][i], tm);
        assert m == LengthTicks(segs[i], tm);
      }
    }
  }

  /** The maximum does not depend on the order in which the segments are
      reduced, so the atomic maximum of the parallel kernel gives the same
      value as any sequential order. */
  lemma MaxLengthTicksOrderFree(init: int, a: seq<Segment>, b: seq<Segment>, tm: Timing)
    requires ValidTiming(tm)
    requires multiset(a) == multiset(b)
    ensures MaxLengthTicks(init, a, tm) == MaxLengthTicks(init, b, tm)
  {
    MaxAtMostOther(init, a, b, tm);
    MaxAtMostOther(init, b, a, tm);
  }

  lemma MaxAtMostOther(init: int, a: seq<Segment>, b: seq<Segment>, tm: Timing)
    requires ValidTiming(tm)
    requires multiset(a) == multiset(b)
    ensures MaxLengthTicks(init, b, tm) <= MaxLengthTicks(init, a, tm)
  {
    var m := MaxLengthTicks(init, b, tm);
    MaxLengthTicksIsMaximum(init, a, tm);
    MaxLengthTicksIsMaximum(init, b, tm);
    if m != init {
      var j :| 0 <= j < |b| && m == LengthTicks(b[j], tm);
      assert b[j] in multiset(b);
      assert b[j] in a;
      var i :| 0 <= i < |a| && a[i] == b[j];
    }
  }

  /** The time-window kernel run over every segment: it stores each
      segment's window start and takes the maximum of the lengths in ticks
      into cell 0 of timeMax. */
  method TimeIntervals(trackStarts: array<real>, timeMax: array<int>, segs: seq<Segment>, tm: Timing)
    requires ValidTiming(tm)
    requires trackStarts.Length >= |segs| && timeMax.Length >= 1
    modifies trackStarts, timeMax
    ensures forall i :: 0 <= i < |segs| ==> trackStarts[i] == WindowStart(segs[i], tm)
    ensures forall i :: |segs| <= i < trackStarts.Length ==> trackStarts[i] == old(trackStarts[i])
    ensures timeMax[0] == MaxLengthTicks(old(timeMax[0]), segs, tm)
    ensures forall i :: 1 <= i < timeMax.Length ==> timeMax[i] == old(timeMax[i])
  {
    var itrk := 0;
    while itrk < |segs|
      invariant 0 <= itrk <= |segs|
      invariant forall i :: 0 <= i < itrk ==> trackStarts[i] == WindowStart(segs[i], tm)
      invariant forall i :: itrk <= i < trackStarts.Length ==> trackStarts[i] == old(trackStarts[i])
      invariant timeMax[0] == MaxLengthTicks(old(timeMax[0]), segs[..itrk], tm)
      invariant forall i :: 1 <= i < timeMax.Length ==> timeMax[i] == old(timeMax[i])
    {
      var seg := segs[itrk];
      var tEnd := WindowEnd(seg, tm);
      var tStart := WindowStart(seg, tm);
      trackStarts[itrk] := tStart;
      var ticks := Ceil((tEnd - tStart) / tm.sampling);
      assert ticks == LengthTicks(seg, tm);
      assert segs[..itrk + 1][..itrk] == segs[..itrk];
      if ticks > timeMax[0] {
        timeMax[0] := ticks;
      }
      itrk := itrk + 1;
    }
    assert segs[..|segs|] == segs;
  }

  /** Bin of the response table nearest to a coordinate: round(v / w - 0.5). */
  function PadBin(v: real, binWidth: real): int
    requires binWidth > 0.0
  {
    RoundHalfEven(v / binWidth - 0.5)
  }

  /** Bin of the response table nearest to a time: round(t / dt). */
  function TimeBin(t: real, dt: real): int
    requires dt > 0.0
  {
    RoundHalfEven(t / dt)
  }

  /** The tabulated current for a charge at (x, y) on the pad at time t:
      the nearest entry of the response table, and 0 when any of the three
      nearest bins lies outside the table. */
  function ClosestWaveform(x: real, y: real, t: real, binWidth: real, dt: real,
                           response: array3<real>): (r: real)
    requires binWidth > 0.0 && dt > 0.0
    reads response
    ensures r == 0.0 || exists i, j, k :: 0 <= i < response.Length0 && 0 <= j < response.Length1
                                          && 0 <= k < response.Length2 && r == response[i, j, k]
  {
    var i := PadBin(x, binWidth);
    var j := PadBin(y, binWidth);
    var k := TimeBin(t, dt);
    if 0 <= i < response.Length0 && 0 <= j < response.Length1 && 0 <= k < response.Length2 then
      response[i, j, k]
    else
      0.0
  }

  lemma DivideAtLeast(v: real, c: real, bound: real)
    requires c > 0.0 && v >= bound * c
    ensures v / c >= bound
  {
    if v / c < bound {
      ScaleMonotone(v / c, bound, c);
    }
  }

  /** The bin of a coordinate is the cell of the pad grid that contains it:
      bin i covers [i * w, (i + 1) * w]. */
  lemma PadBinContains(v: real, binWidth: real)
    requires binWidth > 0.0
    ensures PadBin(v, binWidth) as real * binWidth <= v
    ensures v <= (PadBin(v, binWidth) + 1) as real * binWidth
  {
    var i := PadBin(v, binWidth);
    MultiplyBack(i as real, v, binWidth, (i + 1) as real);
  }

  lemma MultiplyBack(lo: real, v: real, c: real, hi: real)
    requires c > 0.0 && lo <= v / c <= hi
    ensures lo * c <= v <= hi * c
  {
    ScaleMonotone(lo, v / c, c);
    ScaleMonotone(v / c, hi, c);
  }

  /** A coordinate on the tabulated span [0, n * w) has its bin in the table. */
  lemma PadBinInside(v: real, binWidth: real, n: nat)
    requires binWidth > 0.0 && 0.0 <= v < (n as real) * binWidth
    ensures 0 <= PadBin(v, binWidth) < n
  {
    DivideAtLeast(v, binWidth, 0.0);
    DivideBelow(v, binWidth, n as real);
  }

  /** A time in [-dt / 2, (n - 1/2) * dt) has its bin in the table: the
      time bin is the sample nearest to it. */
  lemma TimeBinInside(t: real, dt: real, n: nat)
    requires dt > 0.0 && -dt / 2.0 <= t < (n as real - 0.5) * dt
    ensures 0 <= TimeBin(t, dt) < n
  {
    DivideAtLeast(t, dt, -0.5);
    DivideBelow(t, dt, n as real - 0.5);
  }

  /** A charge on the tabulated pad area at a tabulated time gets the entry
      of the bins nearest to it. */
  lemma ClosestWaveformInside(x: real, y: real, t: real, binWidth: real, dt: real,
                              response: array3<real>)
    requires binWidth > 0.0 && dt > 0.0
    requires 0.0 <= x < (response.Length0 as real) * binWidth
    requires 0.0 <= y < (response.Length1 as real) * binWidth
    requires -dt / 2.0 <= t < (response.Length2 as real - 0.5) * dt
    ensures 0 <= PadBin(x, binWidth) < response.Length0
    ensures 0 <= PadBin(y, binWidth) < response.Length1
    ensures 0 <= TimeBin(t, dt) < response.Length2
    ensures ClosestWaveform(x, y, t, binWidth, dt, response)
            == response[PadBin(x, binWidth), PadBin(y, binWidth), TimeBin(t, dt)]
  {
    PadBinInside(x, binWidth, response.Length0);
    PadBinInside(y, binWidth, response.Length1);
    TimeBinInside(t, dt, response.Length2);
  }

  /** A coordinate left of the table (v < 0) or right of it (v beyond the
      last bin) has a bin outside the table. */
  lemma PadBinOutside(v: real, binWidth: real, n: nat)
    requires binWidth > 0.0
    ensures v < 0.0 ==> PadBin(v, binWidth) < 0
    ensures v > (n as real) * binWidth ==> PadBin(v, binWidth) >= n
  {
    if v < 0.0 {
      DivideBelow(v, binWidth, 0.0);
    }
    if v > (n as real) * binWidth {
      DivideAbove(v, binWidth, n as real);
    }
  }

  /** A time more than half a bin before 0, or past the last time bin, has a
      bin outside the table. */
  lemma TimeBinOutside(t: real, dt: real, n: nat)
    requires dt > 0.0
    ensures t < -dt / 2.0 ==> TimeBin(t, dt) < 0
    ensures t > (n as real - 0.5) * dt ==> TimeBin(t, dt) >= n
  {
    if t < -dt / 2.0 {
      DivideBelow(t, dt, -0.5);
    }
    if t > (n as real - 0.5) * dt {
      DivideAbove(t, dt, n as real - 0.5);
    }
  }

  /** Charges off the tabulated pad area, and times outside the tabulated
      range, get no current from the response table. */
  lemma ClosestWaveformOutsideIsZero(x: real, y: real, t: real, binWidth: real, dt: real,
                                     response: array3<real>)
    requires binWidth > 0.0 && dt > 0.0
    requires x < 0.0 || y < 0.0 || t < -dt / 2.0
          || x > (response.Length0 as real) * binWidth
          || y > (response.Length1 as real) * binWidth
          || t > (response.Length2 as real - 0.5) * dt
    ensures ClosestWaveform(x, y, t, binWidth, dt, response) == 0.0
  {
    PadBinOutside(x, binWidth, response.Length0);
    PadBinOutside(y, binWidth, response.Length1);
    TimeBinOutside(t, dt, response.Length2);
  }

  /** 1 for non-negative arguments, -1 for negative ones. */
  function Sign(x: real): (s: int)
    ensures s == 1 <==> x >= 0.0
    ensures s == -1 <==> x < 0.0
  {
    if x >= 0.0 then 1 else -1
  }
}
