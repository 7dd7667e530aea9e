/** Summation of the induced currents: every (track, pixel) pair adds its
    waveform, shifted to the track's start tick, into the pixel's total
    waveform and into the pixel's per-track waveform in the slot where the
    track-to-pixel table lists that track. */
module PixelSignals {
  import opened Numerics

  /** The read-only inputs of the summation kernel. signals[itrk][ipix] is
      the waveform (ticks samples) that track itrk induces on its ipix-th
      pixel; pixelIndex[itrk][ipix] is that pixel's row in the output (or
      negative if there is none); trackSlots is the track-to-pixel table. */
  datatype Batch = Batch(signals: seq<seq<seq<real>>>, trackStarts: seq<real>,
                         pixelIndex: seq<seq<int>>, trackSlots: seq<seq<int>>,
                         pixels: nat, ticks: nat)

  /** The rectangular shape the numpy inputs have. */
  predicate Shaped(b: Batch)
  {
    && |b.trackStarts| >= |b.signals|
    && |b.pixelIndex| >= |b.signals|
    && (forall itrk :: 0 <= itrk < |b.signals| ==>
          |b.signals[itrk]| == b.pixels && |b.pixelIndex[itrk]| >= b.pixels)
    && (forall itrk, ipix :: 0 <= itrk < |b.signals| && 0 <= ipix < b.pixels ==>
          |b.signals[itrk][ipix]| == b.ticks)
  }

  /** The tick at which a track's waveforms start. */
  function StartTick(b: Batch, ts: real, itrk: nat): int
    requires ts > 0.0 && itrk < |b.trackStarts|
  {
    RoundHalfEven(b.trackStarts[itrk] / ts)
  }

  /** The slot search of the kernel: the first position of itrk in a row of
      the track-to-pixel table, and 0 when the row does not list it. */
  function SlotOf(row: seq<int>, itrk: int): (k: nat)
    ensures itrk in row ==> k < |row| && row[k] == itrk && forall j :: 0 <= j < k ==> row[j] != itrk
    ensures itrk !in row ==> k == 0
  {
    if row == [] then 0
    else if row[0] == itrk then 0
    else if itrk in row[1..] then 1 + SlotOf(row[1..], itrk)
    else 0
  }

  /** The slot of track itrk in the row of output pixel p. */
  function Slot(b: Batch, p: nat, itrk: nat): nat
  {
    if p < |b.trackSlots| then SlotOf(b.trackSlots[p], itrk) else 0
  }

  /** Which cells a sum is about: the total waveform of a pixel, or the
      waveform held in one track slot of the pixel. */
  datatype Slots = AllSlots | OneSlot(k: nat)

  predicate Selects(b: Batch, sel: Slots, p: nat, itrk: nat)
  {
    sel.AllSlots? || Slot(b, p, itrk) == sel.k
  }

  /** What the first n ticks of pair (itrk, ipix) add to tick t of pixel p. */
  function Pair(b: Batch, ts: real, itrk: nat, ipix: nat, n: nat, p: nat, t: int, sel: Slots): real
    requires ts > 0.0 && Shaped(b) && itrk < |b.signals| && ipix < b.pixels && n <= b.ticks
  {
    var s := StartTick(b, ts, itrk);
    if Selects(b, sel, p, itrk) && b.pixelIndex[itrk][ipix] == p && s <= t < s + n
    then b.signals[itrk][ipix][t - s]
    else 0.0
  }

  /** What the first m pixels of track itrk add to tick t of pixel p. */
  function RowTotal(b: Batch, ts: real, itrk: nat, m: nat, p: nat, t: int, sel: Slots): real
    requires ts > 0.0 && Shaped(b) && itrk < |b.signals| && m <= b.pixels
  {
    if m == 0 then 0.0
    else RowTotal(b, ts, itrk, m - 1, p, t, sel) + Pair(b, ts, itrk, m - 1, b.ticks, p, t, sel)
  }

  /** What the first n tracks add to tick t of pixel p. */
  function Total(b: Batch, ts: real, n: nat, p: nat, t: int, sel: Slots): real
    requires ts > 0.0 && Shaped(b) && n <= |b.signals|
  {
    if n == 0 then 0.0
    else Total(b, ts, n - 1, p, t, sel) + RowTotal(b, ts, n - 1, b.pixels, p, t, sel)
  }

  /** Every write of the kernel lands inside the output arrays: the pixel
      row, the shifted ticks and the slot are all in range. */
  predicate InBounds(b: Batch, ts: real, rows: nat, times: nat, slotRows: nat, slotTimes: nat, width: nat)
    requires ts > 0.0 && Shaped(b)
  {
    forall itrk, ipix :: 0 <= itrk < |b.signals| && 0 <= ipix < b.pixels && b.pixelIndex[itrk][ipix] >= 0 ==>
      var p := b.pixelIndex[itrk][ipix];
      var s := StartTick(b, ts, itrk);
      && p < rows && p < slotRows && p < |b.trackSlots|
      && 0 <= s && s + b.ticks <= times && s + b.ticks <= slotTimes
      && SlotOf(b.trackSlots[p], itrk) < width
  }

  /** The kernel over the whole grid of (track, pixel, tick) threads. Each
      cell of the total waveforms gains the sum of all samples that land on
      it, and each slot cell the sum of the samples of the track listed in
      that slot. */
  method SumPixelSignals(ps: array2<real>, pts: array3<real>, b: Batch, ts: real)
    requires ts > 0.0 && Shaped(b)
    requires InBounds(b, ts, ps.Length0, ps.Length1, pts.Length0, pts.Length1, pts.Length2)
    modifies ps, pts
    ensures forall p, t :: 0 <= p < ps.Length0 && 0 <= t < ps.Length1 ==>
              ps[p, t] == old(ps[p, t]) + Total(b, ts, |b.signals|, p, t, AllSlots)
    ensures forall p, t, k :: 0 <= p < pts.Length0 && 0 <= t < pts.Length1 && 0 <= k < pts.Length2 ==>
              pts[p, t, k] == old(pts[p, t, k]) + Total(b, ts, |b.signals|, p, t, OneSlot(k))
  {
    for itrk := 0 to |b.signals|
      invariant forall p, t :: 0 <= p < ps.Length0 && 0 <= t < ps.Length1 ==>
                  ps[p, t] == old(ps[p, t]) + Total(b, ts, itrk, p, t, AllSlots)
      invariant forall p, t, k :: 0 <= p < pts.Length0 && 0 <= t < pts.Length1 && 0 <= k < pts.Length2 ==>
                  pts[p, t, k] == old(pts[p, t, k]) + Total(b, ts, itrk, p, t, OneSlot(k))
    {
      for ipix := 0 to b.pixels
        invariant forall p, t :: 0 <= p < ps.Length0 && 0 <= t < ps.Length1 ==>
                    ps[p, t] == old(ps[p, t]) + Total(b, ts, itrk, p, t, AllSlots)
                                + RowTotal(b, ts, itrk, ipix, p, t, AllSlots)
        invariant forall p, t, k :: 0 <= p < pts.Length0 && 0 <= t < pts.Length1 && 0 <= k < pts.Length2 ==>
                    pts[p, t, k] == old(pts[p, t, k]) + Total(b, ts, itrk, p, t, OneSlot(k))
                                    + RowTotal(b, ts, itrk, ipix, p, t, OneSlot(k))
      {
        AddPair(ps, pts, b, ts, itrk, ipix);
      }
    }
  }

  /** The threads of one (track, pixel) pair: the slot search, then one
      atomic add per tick into each output. */
  method AddPair(ps: array2<real>, pts: array3<real>, b: Batch, ts: real, itrk: nat, ipix: nat)
    requires ts > 0.0 && Shaped(b) && itrk < |b.signals| && ipix < b.pixels
    requires InBounds(b, ts, ps.Length0, ps.Length1, pts.Length0, pts.Length1, pts.Length2)
    modifies ps, pts
    ensures forall p, t :: 0 <= p < ps.Length0 && 0 <= t < ps.Length1 ==>
              ps[p, t] == old(ps[p, t]) + Pair(b, ts, itrk, ipix, b.ticks, p, t, AllSlots)
    ensures forall p, t, k :: 0 <= p < pts.Length0 && 0 <= t < pts.Length1 && 0 <= k < pts.Length2 ==>
              pts[p, t, k] == old(pts[p, t, k]) + Pair(b, ts, itrk, ipix, b.ticks, p, t, OneSlot(k))
  {
    var pixelIndex := b.pixelIndex[itrk][ipix];
    var startTick := RoundHalfEven(b.trackStarts[itrk] / ts);
    if pixelIndex >= 0 {
      var row := b.trackSlots[pixelIndex];
      var counter := 0;
      var trackIdx := 0;
      while trackIdx < |row|
        invariant 0 <= trackIdx <= |row|
        invariant forall j :: 0 <= j < trackIdx ==> row[j] != itrk
        invariant counter == 0
      {
        if itrk == row[trackIdx] {
          counter := trackIdx;
          break;
        }
        trackIdx := trackIdx + 1;
      }
      assert counter == SlotOf(row, itrk);
      for itick := 0 to b.ticks
        invariant forall p, t :: 0 <= p < ps.Length0 && 0 <= t < ps.Length1 ==>
                    ps[p, t] == old(ps[p, t]) + Pair(b, ts, itrk, ipix, itick, p, t, AllSlots)
        invariant forall p, t, k :: 0 <= p < pts.Length0 && 0 <= t < pts.Length1 && 0 <= k < pts.Length2 ==>
                    pts[p, t, k] == old(pts[p, t, k]) + Pair(b, ts, itrk, ipix, itick, p, t, OneSlot(k))
      {
        var itime := startTick + itick;
        var v := b.signals[itrk][ipix][itick];
        ps[pixelIndex, itime] := ps[pixelIndex, itime] + v;
        pts[pixelIndex, itime, counter] := pts[pixelIndex, itime, counter] + v;
      }
    }
  }

  /** Sum over the slots k < w of what pair (itrk, ipix) adds to slot k. */
  function PairSlots(b: Batch, ts: real, itrk: nat, ipix: nat, p: nat, t: int, w: nat): real
    requires ts > 0.0 && Shaped(b) && itrk < |b.signals| && ipix < b.pixels
  {
    if w == 0 then 0.0
    else PairSlots(b, ts, itrk, ipix, p, t, w - 1) + Pair(b, ts, itrk, ipix, b.ticks, p, t, OneSlot(w - 1))
  }

  function RowSlots(b: Batch, ts: real, itrk: nat, m: nat, p: nat, t: int, w: nat): real
    requires ts > 0.0 && Shaped(b) && itrk < |b.signals| && m <= b.pixels
  {
    if w == 0 then 0.0
    else RowSlots(b, ts, itrk, m, p, t, w - 1) + RowTotal(b, ts, itrk, m, p, t, OneSlot(w - 1))
  }

  /** Sum over the slots k < w of the slot waveforms of pixel p at tick t. */
  function TotalSlots(b: Batch, ts: real, n: nat, p: nat, t: int, w: nat): real
    requires ts > 0.0 && Shaped(b) && n <= |b.signals|
  {
    if w == 0 then 0.0
    else TotalSlots(b, ts, n, p, t, w - 1) + Total(b, ts, n, p, t, OneSlot(w - 1))
  }

  /** A pair's samples land in exactly one slot: summed over the slots they
      give the pair's contribution to the total, if that slot is below w. */
  lemma {:induction false} PairSlotsSum(b: Batch, ts: real, itrk: nat, ipix: nat, p: nat, t: int, w: nat)
    requires ts > 0.0 && Shaped(b) && itrk < |b.signals| && ipix < b.pixels
    ensures PairSlots(b, ts, itrk, ipix, p, t, w)
            == if Slot(b, p, itrk) < w then Pair(b, ts, itrk, ipix, b.ticks, p, t, AllSlots) else 0.0
  {
    if w > 0 {
      PairSlotsSum(b, ts, itrk, ipix, p, t, w - 1);
    }
  }

  lemma {:induction false} RowSlotsStep(b: Batch, ts: real, itrk: nat, m: nat, p: nat, t: int, w: nat)
    requires ts > 0.0 && Shaped(b) && itrk < |b.signals| && m < b.pixels
    ensures RowSlots(b, ts, itrk, m + 1, p, t, w)
            == RowSlots(b, ts, itrk, m, p, t, w) + PairSlots(b, ts, itrk, m, p, t, w)
  {
    if w > 0 {
      RowSlotsStep(b, ts, itrk, m, p, t, w - 1);
    }
  }

  lemma {:induction false} RowSlotsSum(b: Batch, ts: real, itrk: nat, m: nat, p: nat, t: int, w: nat)
    requires ts > 0.0 && Shaped(b) && itrk < |b.signals| && m <= b.pixels
    requires Slot(b, p, itrk) < w
    ensures RowSlots(b, ts, itrk, m, p, t, w) == RowTotal(b, ts, itrk, m, p, t, AllSlots)
  {
    if m == 0 {
      RowSlotsZero(b, ts, itrk, p, t, w);
    } else {
      RowSlotsStep(b, ts, itrk, m - 1, p, t, w);
      RowSlotsSum(b, ts, itrk, m - 1, p, t, w);
      PairSlotsSum(b, ts, itrk, m - 1, p, t, w);
    }
  }

  lemma {:induction false} RowSlotsZero(b: Batch, ts: real, itrk: nat, p: nat, t: int, w: nat)
    requires ts > 0.0 && Shaped(b) && itrk < |b.signals|
    ensures RowSlots(b, ts, itrk, 0, p, t, w) == 0.0
  {
    if w > 0 {
      RowSlotsZero(b, ts, itrk, p, t, w - 1);
    }
  }

  lemma {:induction false} TotalSlotsStep(b: Batch, ts: real, n: nat, p: nat, t: int, w: nat)
    requires ts > 0.0 && Shaped(b) && n < |b.signals|
    ensures TotalSlots(b, ts, n + 1, p, t, w)
            == TotalSlots(b, ts, n, p, t, w) + RowSlots(b, ts, n, b.pixels, p, t, w)
  {
    if w > 0 {
      TotalSlotsStep(b, ts, n, p, t, w - 1);
    }
  }

  lemma {:induction false} TotalSlotsZero(b: Batch, ts: real, p: nat, t: int, w: nat)
    requires ts > 0.0 && Shaped(b)
    ensures TotalSlots(b, ts, 0, p, t, w) == 0.0
  {
    if w > 0 {
      TotalSlotsZero(b, ts, p, t, w - 1);
    }
  }

  /** The per-track waveforms of a pixel add up to its total waveform: at
      every tick, the first w slots together hold everything the first n
      tracks induce, as long as each track's slot is below w. */
  lemma {:induction false} SlotsSumToTotal(b: Batch, ts: real, n: nat, p: nat, t: int, w: nat)
    requires ts > 0.0 && Shaped(b) && n <= |b.signals|
    requires forall itrk :: 0 <= itrk < n ==> Slot(b, p, itrk) < w
    ensures TotalSlots(b, ts, n, p, t, w) == Total(b, ts, n, p, t, AllSlots)
  {
    if n == 0 {
      TotalSlotsZero(b, ts, p, t, w);
    } else {
      SlotsSumToTotal(b, ts, n - 1, p, t, w);
      SlotsSumStep(b, ts, n - 1, p, t, w);
    }
  }

  lemma SlotsSumStep(b: Batch, ts: real, n: nat, p: nat, t: int, w: nat)
    requires ts > 0.0 && Shaped(b) && n < |b.signals| && Slot(b, p, n) < w
    requires TotalSlots(b, ts, n, p, t, w) == Total(b, ts, n, p, t, AllSlots)
    ensures TotalSlots(b, ts, n + 1, p, t, w) == Total(b, ts, n + 1, p, t, AllSlots)
  {
    TotalSlotsStep(b, ts, n, p, t, w);
    RowSlotsSum(b, ts, n, b.pixels, p, t, w);
  }

  /** A pixel that no (track, pixel) pair maps to receives no signal. */
  lemma {:induction false} UnmappedPixelGetsNothing(b: Batch, ts: real, n: nat, p: nat, t: int, sel: Slots)
    requires ts > 0.0 && Shaped(b) && n <= |b.signals|
    requires forall itrk, ipix :: 0 <= itrk < n && 0 <= ipix < b.pixels ==> b.pixelIndex[itrk][ipix] != p
    ensures Total(b, ts, n, p, t, sel) == 0.0
  {
    if n > 0 {
      UnmappedPixelGetsNothing(b, ts, n - 1, p, t, sel);
      RowUnmapped(b, ts, n - 1, b.pixels, p, t, sel);
    }
  }

  lemma {:induction false} RowUnmapped(b: Batch, ts: real, itrk: nat, m: nat, p: nat, t: int, sel: Slots)
    requires ts > 0.0 && Shaped(b) && itrk < |b.signals| && m <= b.pixels
    requires forall ipix :: 0 <= ipix < b.pixels ==> b.pixelIndex[itrk][ipix] != p
    ensures RowTotal(b, ts, itrk, m, p, t, sel) == 0.0
  {
    if m > 0 {
      RowUnmapped(b, ts, itrk, m - 1, p, t, sel);
    }
  }
}
