# larnd-sim front end and signal bookkeeping, in Dafny

This project models the exact, non-physics core of the larnd-sim detector
simulation. The core covers:

- the time window of every track segment, and the longest window of a batch
  (`time_intervals`);
- the nearest-bin lookup in the tabulated pixel response
  (`get_closest_waveform`), and `sign`;
- the table that lists, for every unique pixel, the tracks that touch it
  (`get_track_pixel_map`);
- the summation of the induced currents into per-pixel and per-pixel,
  per-track waveforms (`sum_pixel_signals`);
- the self-trigger logic of the front-end electronics (`get_adc_values`), a
  per-pixel state machine over time ticks. It integrates the current, draws
  reset, charge and discriminator noise, and holds after a threshold
  crossing. At the end of the hold window it either drops a false trigger or
  stores a sample (its charge, time and normalised per-track fractions), then
  waits out the reset and busy time;
- the ADC conversion of integrated charges (`digitize`), and the mirroring of
  pixel indices on rotated tiles (`rotate_tile`).

Modules, one per source concept:

- `Numerics`: Python's `round` (ties to even), `math.ceil`, min, max, and the
  row of a two-dimensional array as a sequence.
- `Fee`: the front-end constants of `larndsim/fee.py`, plus `Digitize` and
  `RotateTile`.
- `Detsim`: the time windows, `TimeIntervals`, the response lookup and
  `Sign`.
- `TrackPixelMap`: the slot table. The kernel is an imperative method over an
  `array2<int>`, proved against the functional row model `FillRow`. Starting from an
  all-empty row (the caller fills the map with -1), `FillRow` is in turn
  proved to equal a reference definition: the touching tracks, in order, as
  many as fit. From any row, it only fills empty slots with track indices.
- `PixelSignals`: the summation kernel, proved against the sums `Total`. Also
  the fact that the per-track waveforms of a pixel add up to its total
  waveform.
- `SelfTrigger`: the self-trigger logic as a pure state machine (`Step`,
  `Run`) over a state record `Front`. The properties of the stored samples
  are lemmas about it. A charge ledger (`Ledger`, `Accounted`), kept by every
  pass, ties the running charge and the pending fraction row to the current
  of the ticks since the last reset.
- `AdcKernel`: the kernel itself, imperative over the output arrays
  `adc_list`, `adc_ticks_list` (`array2<real>`) and `current_fractions`
  (`array3<real>`). It proves that each pixel's thread leaves in its rows
  exactly what `SelfTrigger.Run` computes from the initial rows, and that it
  touches no other pixel's rows.

Integers are unbounded and charges are reals. Random draws are a parameter,
`draw: nat -> real`: the k-th standard-normal draw of a pixel's stream. Each
pixel of the grid has its own stream, `draw(ip)`. The order of draws is the
source's order:

- one draw when the loop starts;
- two per tick;
- two after the hold window;
- one more on every reset.

Behaviour of the code that the model reproduces:

- The window end is padded by one time unit before rounding to the sampling
  grid (`larndsim/detsim.py:37`).
- A track that does not fit in a pixel's slot row still contributes: its
  samples go to slot 0, because the slot search starts at 0 and keeps that
  value when the track is not found (`larndsim/detsim.py:417-423`).
- When a pixel has more samples than slots, the loop prints a message and
  stops (`larndsim/fee.py:289-291`); the model stops with `Capped`.
- After a false trigger, the running charge restarts from uncorrelated noise
  (`larndsim/fee.py:348`), and the tick skip is one clock cycle,
  `round(CLOCK_CYCLE / TIME_SAMPLING)` (`larndsim/fee.py:347`).
- The running charge is re-seeded with reset noise in the same pass that
  stores a sample (`larndsim/fee.py:371`).
- The pending fraction row and the running charge are counted from the
  last reset: the charge is its reset seed plus the charge of every tick
  since, and the row is its starting row (the initial contents of the slot,
  or zeros after a false trigger) plus each track's charge of those ticks.

## Model

| member | source | states |
|---|---|---|
| Numerics.RoundHalfEven | larndsim/fee.py:319 | the result is within one half of the argument, and a tie goes to the even neighbour (Python's `round`) |
| Numerics.RoundHalfEvenUnique | larndsim/fee.py:319 | any integer within one half that is even on ties is the rounded value |
| Numerics.RoundHalfEvenMonotone | larndsim/fee.py:241-242 | rounding keeps the order of its arguments |
| Numerics.Ceil | larndsim/detsim.py:41 | the result is the least integer at or above the argument |
| Fee.AboveCommonMode | larndsim/fee.py:241 | the pedestal-shifted voltage of a charge, clamped below at 0, is never negative |
| Fee.AdcCount | larndsim/fee.py:241-242 | an ADC count lies in 0..ADC_COUNTS |
| Fee.AdcCountMonotone | larndsim/fee.py:241-242 | a larger charge never gives a smaller ADC count |
| Fee.Digitize | larndsim/fee.py:229-244 | one count per integrated charge, each in 0..ADC_COUNTS |
| Fee.DigitizeMonotone | larndsim/fee.py:229-244 | digitising keeps the order of the charges |
| Fee.RotateTile | larndsim/fee.py:61-84 | each index is kept or mirrored in the tile (k becomes n - k - 1); an index inside the tile stays inside |
| Fee.RotateTileInvolution | larndsim/fee.py:61-84 | rotating twice gives back the pixel |
| Detsim.OnGrid | larndsim/detsim.py:37-38 | definition: round(t / sampling period) times the period; OnGridNearest states its accuracy |
| Detsim.OnGridNearest | larndsim/detsim.py:37-38 | snapping a time to the sampling grid moves it by at most half a period |
| Detsim.WindowStart | larndsim/detsim.py:38 | a window never starts before the valid time interval |
| Detsim.WindowStartNear | larndsim/detsim.py:38 | unless clamped, the window starts within half a period of the start time minus the padding |
| Detsim.WindowEnd | larndsim/detsim.py:37 | a window never ends after the valid time interval |
| Detsim.WindowEndNear | larndsim/detsim.py:37 | unless clamped, the window ends within half a period of the end time plus one |
| Detsim.LengthTicks | larndsim/detsim.py:39-41 | the window length in ticks is the least number of whole periods covering the window |
| Detsim.MaxLengthTicks | larndsim/detsim.py:41 | the reduced cell is at least its initial value and at least every segment's length in ticks |
| Detsim.MaxLengthTicksIsMaximum | larndsim/detsim.py:41 | the reduced cell is its initial value or one of the segments' lengths, so it is their maximum |
| Detsim.MaxLengthTicksOrderFree | larndsim/detsim.py:41 | the atomic maximum gives the same value in any order of the segments |
| Detsim.TimeIntervals | larndsim/detsim.py:19-41 | every segment's start cell holds its window start, cell 0 of the maximum holds the reduced maximum, and nothing else changes |
| Detsim.PadBin | larndsim/detsim.py:263-264 | definition: round(v / bin width - 0.5); PadBinContains, PadBinInside and PadBinOutside state what bin it is |
| Detsim.TimeBin | larndsim/detsim.py:265 | definition: round(t / dt); TimeBinInside and TimeBinOutside state when it indexes the table |
| Detsim.PadBinContains | larndsim/detsim.py:263-264 | the pad bin of a coordinate is the grid cell that contains it |
| Detsim.PadBinInside | larndsim/detsim.py:263-264 | a coordinate on the tabulated pad span has its bin in the table |
| Detsim.PadBinOutside | larndsim/detsim.py:263-264 | a coordinate left or right of the table has its bin outside it |
| Detsim.TimeBinInside | larndsim/detsim.py:265 | a time within the tabulated range has its bin in the table |
| Detsim.TimeBinOutside | larndsim/detsim.py:265 | a time before or after the tabulated range has its bin outside it |
| Detsim.ClosestWaveform | larndsim/detsim.py:245-270 | the lookup returns 0 or an entry of the response table |
| Detsim.ClosestWaveformInside | larndsim/detsim.py:245-270 | inside the tabulated area and range, the lookup returns the table entry of the nearest bins |
| Detsim.ClosestWaveformOutsideIsZero | larndsim/detsim.py:245-270 | outside the tabulated area or range, the lookup returns 0 |
| Detsim.Sign | larndsim/detsim.py:375-386 | the sign is 1 exactly for non-negative arguments and -1 exactly for negative ones |
| TrackPixelMap.FirstSlot | larndsim/detsim.py:455-457 | the probe stops at the first slot that is empty or holds the track, passing only slots that are neither |
| TrackPixelMap.Place | larndsim/detsim.py:455-460 | a probe keeps the row width and writes only the track, only into an empty slot |
| TrackPixelMap.PlaceKeepsTrack | larndsim/detsim.py:455-460 | the track is in the row after a probe unless the row was full; a full row is unchanged |
| TrackPixelMap.PlaceNew | larndsim/detsim.py:455-460 | probing for a new, larger track appends it when there is room and drops it otherwise |
| TrackPixelMap.PlaceAgain | larndsim/detsim.py:455-460 | probing again for the last placed track changes nothing |
| TrackPixelMap.ScanTrack | larndsim/detsim.py:450-460 | definition: the probes of one track's pixel scan, one per pixel equal to the unique pixel; keeps the row width |
| TrackPixelMap.ScanTrackFillsEmpty | larndsim/detsim.py:450-460 | scanning one track writes only that track, only into empty slots |
| TrackPixelMap.FillRow | larndsim/detsim.py:448-460 | definition: the scans of every track in index order; keeps the row width |
| TrackPixelMap.FillRowFillsEmpty | larndsim/detsim.py:448-460 | from any row, a slot that changes was empty and now holds a track index; a slot holding a track keeps it |
| TrackPixelMap.ScanTrackAppends | larndsim/detsim.py:450-460 | scanning one track's pixels appends the track once if any of them is the pixel |
| TrackPixelMap.TouchingTracks | larndsim/detsim.py:448-453 | the reference list holds exactly the tracks whose pixels contain the pixel, in increasing order |
| TrackPixelMap.FillFromEmpty | larndsim/detsim.py:448-460 | from an empty row, the kernel leaves the touching tracks, as many as fit, then empty slots |
| TrackPixelMap.FillFromEmptyShape | larndsim/detsim.py:448-460 | a filled row is an increasing prefix of distinct touching tracks followed by empty slots, and misses a touching track only when full |
| TrackPixelMap.FillPixelRow | larndsim/detsim.py:443-460 | one thread leaves its row as the row model computes and changes no other row |
| TrackPixelMap.GetTrackPixelMap | larndsim/detsim.py:430-460 | every unique pixel's row is filled as the row model computes; the other rows are untouched |
| PixelSignals.SlotOf | larndsim/detsim.py:416-423 | the slot search finds the first position of the track, or 0 when the row does not list it |
| PixelSignals.StartTick | larndsim/detsim.py:414 | definition: round(track start / sampling period), the tick at which the track's waveforms start in Pair and AddPair |
| PixelSignals.Pair | larndsim/detsim.py:413-428 | reference definition: a pair's sample at tick t - start tick, for its own pixel and (for one slot) its own slot, else 0 |
| PixelSignals.Total | larndsim/detsim.py:411-428 | reference definition: the sum of Pair over all tracks and pixels of the batch |
| PixelSignals.AddPair | larndsim/detsim.py:411-428 | one (track, pixel) pair adds each shifted sample to its pixel's total and to the slot of its track, and nothing elsewhere |
| PixelSignals.SumPixelSignals | larndsim/detsim.py:388-428 | every output cell gains the sum of all samples that land on it, totals and per-track slots alike |
| PixelSignals.PairSlotsSum | larndsim/detsim.py:421-428 | a pair's samples land in exactly one slot |
| PixelSignals.SlotsSumToTotal | larndsim/detsim.py:421-428 | summed over the slots, the per-track waveforms of a pixel equal its total waveform |
| PixelSignals.UnmappedPixelGetsNothing | larndsim/detsim.py:413-416 | a pixel that no pair maps to receives nothing |
| SelfTrigger.DerivedTicksAtNominalSampling | larndsim/fee.py:319-369 | at the 0.1 us sampling period the hold window is 18 ticks, each skip 1 tick and the busy time 8 ticks |
| SelfTrigger.Noise | larndsim/fee.py:310-311 | definition: the k-th draw of the pixel's stream times a noise width and the electron charge |
| SelfTrigger.HoldTicks | larndsim/fee.py:319 | definition: round((3 + ADC_HOLD_DELAY) clock cycles / sampling period) |
| SelfTrigger.FalseTriggerSkip | larndsim/fee.py:347 | definition: round(one clock cycle / sampling period) |
| SelfTrigger.ResetSkip | larndsim/fee.py:367 | definition: round(RESET_CYCLES clock cycles / sampling period) |
| SelfTrigger.BusyTicks | larndsim/fee.py:369 | definition: round(ADC_BUSY_DELAY clock cycles / sampling period) |
| SelfTrigger.SumAddScaled | larndsim/fee.py:305-306 | integrating a tick adds the sampling period times the summed per-track current to the total of the pending fractions |
| SelfTrigger.SumZeros | larndsim/fee.py:350-351 | a cleared fraction row sums to zero |
| SelfTrigger.Sum | larndsim/fee.py:355-357 | definition: the sum of a fraction row, taken from the front |
| SelfTrigger.Normalize | larndsim/fee.py:355-360 | definition: each fraction divided by the row's sum; keeps the row width |
| SelfTrigger.NormalizeSumsToOne | larndsim/fee.py:355-360 | the normalised fractions of a sample add up to one |
| SelfTrigger.Integrate | larndsim/fee.py:293-308 | a tick changes only the running charge and the pending sample's fractions |
| SelfTrigger.HeldCharge | larndsim/fee.py:304-308 | reference definition: the charge current times sampling period of the ticks in a range |
| SelfTrigger.Hold | larndsim/fee.py:322-341 | the hold loop stops one tick past the window or at the end of the waveform, and changes only the tick, the charge and the pending fractions |
| SelfTrigger.HoldCollectsCharge | larndsim/fee.py:322-341 | the hold loop adds exactly the charge of the ticks it passes over |
| SelfTrigger.Tick | larndsim/fee.py:293-314 | a pass before its threshold test adds the tick's charge to the running charge and each track's charge of the tick to the pending row (nothing past the waveform), takes two draws and counts the busy time down, and changes nothing else |
| SelfTrigger.TrackCharge | larndsim/fee.py:305-306 | reference definition: the charge one track slot receives over a range of ticks |
| SelfTrigger.Accumulated | larndsim/fee.py:305-306 | reference definition: a fraction row plus each track's charge over a range of ticks |
| SelfTrigger.Ledger | larndsim/fee.py:293-341 | definition: since the last reset the running charge is its seed plus the charge of the ticks passed, and the pending row is its base plus each track's charge of those ticks |
| SelfTrigger.IntegrateKeepsLedger | larndsim/fee.py:293-308 | integrating a tick and moving past it keeps the ledger |
| SelfTrigger.TickKeepsLedger | larndsim/fee.py:293-376 | a pass without a crossing keeps the ledger |
| SelfTrigger.HoldKeepsLedger | larndsim/fee.py:324-341 | the hold loop keeps the ledger |
| SelfTrigger.HeldKeepsLedger | larndsim/fee.py:316-341 | the crossing tick and the hold window keep the ledger and the reset tick |
| SelfTrigger.Fires | larndsim/fee.py:310-316 | definition: the noisy running charge reaches the noisy threshold and the ADC is not busy after the count-down |
| SelfTrigger.Held | larndsim/fee.py:316-342 | after the window the tick is the window end, no sample was written, and only the pending fractions changed |
| SelfTrigger.HeldChargeFromCrossing | larndsim/fee.py:316-342 | the held charge is the charge before the crossing plus that of every tick from the crossing to the window end |
| SelfTrigger.HoldEnd | larndsim/fee.py:319-324 | definition: the tick the hold loop stops at, one past the window or the end of the waveform; the Held and EmitStoresSample rows state it |
| SelfTrigger.StoredCharge | larndsim/fee.py:343 | definition: the held charge plus uncorrelated noise from the next draw; Resolve and EmitStoresSample state its use |
| SelfTrigger.DiscNoise | larndsim/fee.py:344 | definition: discriminator noise from the draw after it; Resolve and EmitStoresSample compare the stored charge against it |
| SelfTrigger.Resolve | larndsim/fee.py:343-374 | a stored sample has passed the noisy threshold and gets its noisy charge, time, crossing and normalised fractions, after which come the reset skip and the busy time; otherwise no slot advances |
| SelfTrigger.Step | larndsim/fee.py:287-376 | a pass keeps the state valid and, unless it stops, moves to a later tick and stores a sample or makes progress in ticks or busy time |
| SelfTrigger.Run | larndsim/fee.py:287-376 | the loop ends: drained with no tick left and the ADC idle, or capped with every slot used, or stopped at an unreadable tick |
| SelfTrigger.Init | larndsim/fee.py:280-285 | the loop starts at tick 0 with no sample, idle, and nothing recorded |
| SelfTrigger.BusyBlocksTrigger | larndsim/fee.py:313-316 | while busy for two more ticks, a pass stores nothing and only moves on one tick |
| SelfTrigger.StepThatStores | larndsim/fee.py:316-374 | a pass that stores a sample is a threshold crossing resolved after its hold window |
| SelfTrigger.EmitStoresSample | larndsim/fee.py:343-374 | a stored sample holds the charge at the start of the pass plus that of the ticks from the crossing to the window end, plus noise, above the noisy threshold; its time is the crossing tick's time plus the padding plus 2; its fractions are the pending row after the window, normalised; then the reset and busy time follow |
| SelfTrigger.StoredSampleCharges | larndsim/fee.py:293-362 | through the ledger: a stored charge is the seed of the last reset plus the charge of every tick from that reset to the window end, plus noise; its fractions are the normalised base row plus each track's charge of the same ticks |
| SelfTrigger.FalseTriggerResets | larndsim/fee.py:343-353 | a false trigger stores nothing, clears the pending fractions so they sum to zero, skips one clock cycle and restarts the charge from uncorrelated noise |
| SelfTrigger.StepKeepsLedger | larndsim/fee.py:287-376 | a pass keeps the ledger until a reset; a reset starts a new one at the reset tick, from uncorrelated noise and a cleared row after a false trigger, or from reset noise and the next slot's row after a stored sample |
| SelfTrigger.FireKeepsLedger | larndsim/fee.py:316-374 | a crossing and its resolution start a new ledger, seeded by the fifth draw of the pass |
| SelfTrigger.ResolveKeepsLedger | larndsim/fee.py:343-374 | the resolution resets the ledger at the reset tick, unless it stops at an unreadable tick |
| SelfTrigger.Accounted | larndsim/fee.py:280-376 | definition: later slots keep their initial rows, and the pending sample has a ledger seeded by an earlier draw, of reset noise with the slot's initial row or of uncorrelated noise with a cleared row |
| SelfTrigger.InitAccounted | larndsim/fee.py:280-285 | the start state has a ledger: first draw of reset noise, nothing integrated |
| SelfTrigger.StepKeepsAccounted | larndsim/fee.py:287-376 | every pass keeps the ledger invariant |
| SelfTrigger.RunKeepsAccounted | larndsim/fee.py:287-376 | the loop keeps the ledger invariant, so the pending slot left at the end holds its base row plus the per-track charges since the last reset |
| SelfTrigger.StepFrame | larndsim/fee.py:287-376 | a pass writes only the pending slot and moves on by at most one slot |
| SelfTrigger.RunKeepsStoredSamples | larndsim/fee.py:287-376 | a stored sample is never overwritten |
| SelfTrigger.RunLeavesLaterSlots | larndsim/fee.py:355-373 | slots past the last one reached are untouched, and so is that slot's charge unless the loop stopped at an unreadable tick: at most MaxAdcValues samples are written |
| SelfTrigger.StepKeepsConsistent | larndsim/fee.py:316-373 | a pass keeps each sample tied to its crossing tick and the crossings a dead time apart |
| SelfTrigger.RunKeepsConsistent | larndsim/fee.py:287-376 | the whole loop keeps the samples consistent with their crossings |
| SelfTrigger.ConsistentOrdered | larndsim/fee.py:362-373 | the crossings increase, and so do the sample times when the time table increases |
| SelfTrigger.StoredSampleTimes | larndsim/fee.py:277-376 | from the start state, each sample time is its crossing tick's time plus the padding plus 2; crossings are a dead time apart; the times increase with an increasing time table |
| AdcKernel.Accumulate | larndsim/fee.py:305-306 | the pending fraction row gains the tick's per-track charges; nothing else changes |
| AdcKernel.Clear | larndsim/fee.py:350-351 | the pending fraction row becomes zeros; nothing else changes |
| AdcKernel.NormalizeRow | larndsim/fee.py:355-360 | the pending fraction row is divided by its sum; nothing else changes |
| AdcKernel.IntegrateTick | larndsim/fee.py:293-308 | the charge and fractions after one tick are those of the model's integration |
| AdcKernel.HoldWindow | larndsim/fee.py:322-341 | the hold loop leaves the tick, charge and fractions of the model's hold loop |
| AdcKernel.Drop | larndsim/fee.py:346-353 | a false trigger leaves the state the model's resolution gives |
| AdcKernel.Record | larndsim/fee.py:355-362 | the sample's fractions are normalised and its noisy charge is written |
| AdcKernel.Store | larndsim/fee.py:355-374 | a stored sample leaves the state the model's resolution gives; other pixels' rows are untouched |
| AdcKernel.Settle | larndsim/fee.py:343-374 | what follows the hold window leaves the state the model's resolution gives |
| AdcKernel.Trigger | larndsim/fee.py:316-374 | a crossing, with its window and resolution, leaves the state the model's pass gives |
| AdcKernel.Pass | larndsim/fee.py:287-376 | one pass of the thread's loop leaves the state the model's step gives |
| AdcKernel.PixelAdcValues | larndsim/fee.py:277-376 | a pixel's thread leaves in its rows what the model's loop computes from the initial rows, and no other row changes |
| AdcKernel.GridThread | larndsim/fee.py:277-376 | a thread's rows hold, entry by entry, what the model's loop computes for that pixel |
| AdcKernel.GridLoop | larndsim/fee.py:277-279 | after all pixel threads, every pixel's rows hold the model's result and rows past the pixels are untouched |
| AdcKernel.GetAdcValues | larndsim/fee.py:246-376 | every pixel's rows hold what the model's loop computes with the pixel's own random stream; rows past the pixels are untouched |

## Left out

- Floating point: the source computes in float32 and float64; the model uses exact reals, so rounding of intermediate results, overflow and NaN are not modelled.
- The buffer-response branches (`larndsim/fee.py:295-301` and `327-333`) are left out: `BUFFER_RISETIME` is 0 (`larndsim/fee.py:37`), so they are dead code, and they need `exp`.
- The random-number generator (`xoroshiro128p_normal_float32`) is replaced by the draw parameter; its distribution is not modelled.
- The message printed when the sample slots are full is I/O and left out; the model records only that the loop stopped (`Capped`).
- The CUDA grids are modelled as sequential loops over the threads. In `sum_pixel_signals` the atomic additions are applied in one fixed order; exact real addition makes the order irrelevant, which float32 does not. The atomic maximum of `time_intervals` is proved order-independent (`MaxLengthTicksOrderFree`).
- SelfTrigger.Normalize: when the pending fractions sum to zero (a trigger on noise alone), the source divides 0 by 0 and stores NaN fractions. The model leaves the row as it is, because real division by zero has no NaN.
- SelfTrigger.Resolve: if a sample is stored at a crossing tick past the end of `time_ticks`, the source reads out of range (`larndsim/fee.py:365`). The model stops the loop with `TickOutOfRange`, after the charge and fractions are written, as the source writes them first.
- PixelSignals.SumPixelSignals: requires every write to land inside the output arrays (`InBounds`). The source does not check this, and an out-of-range write on the device is undefined.
- TrackPixelMap.GetTrackPixelMap: the source has no guard on the thread index (`larndsim/detsim.py:446`). The model visits exactly the unique pixels and requires the table to have a row for each, since a thread past them would read out of range.
- The `itrk == -1` test (`larndsim/detsim.py:419`) can never hold, since thread indices are non-negative, and is left out. The `int` cast of table entries (`larndsim/detsim.py:421`) is implicit, because the table holds integers.
- Inputs are rectangular: the numpy arrays become sequences or arrays whose shape requirements (`Shaped`, the width requirements of `GetAdcValues`) state the array dimensions.
- Detector and physics constants that live outside the core are parameters: `E_CHARGE`, `TIME_SAMPLING`, `TIME_PADDING`, `TIME_INTERVAL`, `RESPONSE_SAMPLING`, the pixel pitch, `TILE_ORIENTATIONS` and `N_PIXELS_PER_TILE`. `DerivedTicksAtNominalSampling` gives the derived tick counts at the nominal sampling period.
- Of a track segment only its start and end times are modelled, as `time_intervals` reads nothing else.
- The physics of the induction and its geometry are not part of this model: `z_interval`, `_b`, `rho`, `truncexpon`, `current_model`, `track_point`, `get_pixel_coordinates` and `tracks_current` in `larndsim/detsim.py`.
- Also not part of this model: `export_to_hdf5` in `larndsim/fee.py` (file output), `larndsim/detsim_ep.py` and `optimize/fit_params.py`.
- The constants DISCRIMINATION_THRESHOLD, EVENT_RATE and MAX_TRACKS_PER_PIXEL are not used by the modelled functions. The thresholds are a per-pixel input, and the slot-table width is the width of the array.
