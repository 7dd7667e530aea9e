/** Front-end electronics constants and the two pure helpers of the
    front-end module: ADC digitisation of an integrated charge and the
    mirroring of pixel indices inside a rotated tile. */
module Fee {
  import opened Numerics

  /** Maximum number of ADC values stored per pixel. */
  const MaxAdcValues: nat := 10
  /** ADC hold delay, in clock cycles. */
  const AdcHoldDelay: nat := 15
  /** ADC busy delay, in clock cycles. */
  const AdcBusyDelay: nat := 8
  /** Reset time, in clock cycles. */
  const ResetCycles: nat := 1
  /** Clock cycle, in microseconds. */
  const ClockCycle: real := 0.1
  /** Front-end gain, in mV per ke-. */
  const Gain: real := 0.004
  /** Common-mode, reference and pedestal voltages, in mV. */
  const VCm: real := 288.0
  const VRef: real := 1300.0
  const VPedestal: real := 580.0
  /** Number of ADC counts (8 bits). */
  const AdcCounts: int := 256
  /** Noise widths, in electrons. */
  const ResetNoiseCharge: real := 900.0
  const UncorrelatedNoiseCharge: real := 500.0
  const DiscriminatorNoise: real := 650.0

  /** The voltage above the common mode that a charge q produces, clamped at 0. */
  function AboveCommonMode(q: real, eCharge: real): (v: real)
    requires eCharge > 0.0
    ensures v >= 0.0
  {
    var raw := q * Gain / eCharge + VPedestal - VCm;
    if raw > 0.0 then raw else 0.0
  }

  /** ADC counts for one integrated charge q (in coulomb; eCharge is the
      electron charge): the pedestal-shifted voltage, clamped below at 0,
      scaled to the ADC range, rounded, and clamped above at AdcCounts. */
  function AdcCount(q: real, eCharge: real): (adc: int)
    requires eCharge > 0.0
    ensures 0 <= adc <= AdcCounts
  {
    var n := RoundHalfEven(AboveCommonMode(q, eCharge) * (AdcCounts as real) / (VRef - VCm));
    if n < AdcCounts then n else AdcCounts
  }

  /** The digitisation of a list of integrated charges, element by element. */
  function Digitize(integrals: seq<real>, eCharge: real): (adcs: seq<int>)
    requires eCharge > 0.0
    ensures |adcs| == |integrals|
    ensures forall i :: 0 <= i < |adcs| ==> 0 <= adcs[i] <= AdcCounts
  {
    seq(|integrals|, i requires 0 <= i < |integrals| => AdcCount(integrals[i], eCharge))
  }

  /** More charge never gives fewer ADC counts. */
  lemma AdcCountMonotone(q1: real, q2: real, eCharge: real)
    requires eCharge > 0.0
    requires q1 <= q2
    ensures AdcCount(q1, eCharge) <= AdcCount(q2, eCharge)
  {
    var k := Gain / eCharge;
    assert k > 0.0;
    assert q1 * Gain / eCharge == q1 * k && q2 * Gain / eCharge == q2 * k;
    assert q1 * k <= q2 * k;
    var s := (AdcCounts as real) / (VRef - VCm);
    var v1, v2 := AboveCommonMode(q1, eCharge), AboveCommonMode(q2, eCharge);
    assert v1 <= v2;
    assert v1 * (AdcCounts as real) / (VRef - VCm) == v1 * s;
    assert v2 * (AdcCounts as real) / (VRef - VCm) == v2 * s;
    assert v1 * s <= v2 * s;
    RoundHalfEvenMonotone(v1 * s, v2 * s);
  }

  /** Digitize keeps the order of the charges it is given. */
  lemma DigitizeMonotone(integrals: seq<real>, eCharge: real, i: nat, j: nat)
    requires eCharge > 0.0
    requires i < |integrals| && j < |integrals| && integrals[i] <= integrals[j]
    ensures Digitize(integrals, eCharge)[i] <= Digitize(integrals, eCharge)[j]
  {
    AdcCountMonotone(integrals[i], integrals[j], eCharge);
  }

  /** Pixel indices within a tile whose x or y axis points backwards are
      mirrored: index k becomes n - k - 1. The tile's orientation is row
      tileId of the orientation table: its entry 2 gives the x axis and its
      entry 1 the y axis. */
  function RotateTile(pixel: (int, int), tileOrientations: seq<seq<int>>, tileId: nat,
                      pixelsPerTile: (int, int)): (r: (int, int))
    requires tileId < |tileOrientations| && |tileOrientations[tileId]| >= 3
    ensures 0 <= pixel.0 < pixelsPerTile.0 ==> 0 <= r.0 < pixelsPerTile.0
    ensures 0 <= pixel.1 < pixelsPerTile.1 ==> 0 <= r.1 < pixelsPerTile.1
    ensures r.0 == pixel.0 || r.0 + pixel.0 == pixelsPerTile.0 - 1
    ensures r.1 == pixel.1 || r.1 + pixel.1 == pixelsPerTile.1 - 1
  {
    var axes := tileOrientations[tileId];
    var xAxis, yAxis := axes[2], axes[1];
    var x := if xAxis < 0 then pixelsPerTile.0 - pixel.0 - 1 else pixel.0;
    var y := if yAxis < 0 then pixelsPerTile.1 - pixel.1 - 1 else pixel.1;
    (x, y)
  }

  /** Rotating twice with the same tile gives back the original indices. */
  lemma RotateTileInvolution(pixel: (int, int), tileOrientations: seq<seq<int>>, tileId: nat,
                             pixelsPerTile: (int, int))
    requires tileId < |tileOrientations| && |tileOrientations[tileId]| >= 3
    ensures RotateTile(RotateTile(pixel, tileOrientations, tileId, pixelsPerTile),
                       tileOrientations, tileId, pixelsPerTile) == pixel
  {
  }
}
