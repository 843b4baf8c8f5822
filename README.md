# P-wave onset picking: arrival validation, two-pass reconciliation, per-station output

This project models the decision logic of `pick_arrival.py`, a seismic P-wave
picker built on a recursive STA/LTA trigger. The numeric signal processing is
not part of the model. What is modelled:

- **Arrival validation** (`check_arrival_time`). The trigger intervals
  `(onset, offset)` are scanned in list order. An onset sample index becomes
  the absolute time `start + onset / df`. The first interval whose time is
  strictly after the earthquake's origin time becomes the pick
  `(time, onset)`. When no interval qualifies, including when the list is
  empty, the result is the empty pick.
- **Two-pass reconciliation** (the body of `P_wave_onset_and_SNR`). The pick of
  the unfiltered "SNR" pass and the pick of the 1 Hz-highpassed "hfreq" pass
  are merged into one final pick:
  - pick filtering off ⇒ the SNR pick;
  - hfreq pick empty ⇒ empty;
  - SNR pick empty ⇒ the hfreq pick;
  - both picks less than 0.5 s apart ⇒ the hfreq pick;
  - otherwise ⇒ empty.
- **Per-station output**. Every trace whose channel matches the glob `*Z*` is
  picked. When its final pick is non-empty, the dictionary entry for its
  station becomes `(final pick, SNR pick non-empty)`.

Modules, one file each:

- `Picks` (`picks.dfy`): trigger intervals, picks, and the index-to-time conversion.
- `ArrivalCheck` (`arrival_check.dfy`): the first-match search. It is given
  once as a specification function, `FirstAfter`, and once as the source's
  loop with early `break`, the method `CheckArrivalTime`.
- `Reconciliation` (`reconciliation.dfy`): the nested conditional as a
  function. An enumerated decision table is proved equal to it.
- `StationPicker` (`station_picker.dfy`): the trace record, channel selection,
  `pick_arrival`, and the loop that fills the dictionary. The dictionary is a
  `map` that the loop reassigns. The loop is proved against the fold
  `Onsets`, and lemmas about that fold state which stations appear and what
  they hold.

The obspy computations (`recursive_sta_lta`, `trigger_onset`, the filters)
are inputs of the model. Each trace carries two trigger lists: the one the
trigger reported for the trace itself against the SNR threshold, and the one
it reported for the highpassed copy against the trigger threshold. Times are
exact reals. The sampling rate is a positive real.

Two properties of the code worth knowing:
- Channel selection uses the glob `*Z*`. A channel is selected when its
  name contains `Z` anywhere, not only at the end.
- The code validates no configuration and raises no error, so the model has
  none. A non-positive window length or sampling rate is not rejected. The
  model's sampling rate is positive because a trace's sampling rate is.

## Model

| member | source | states |
|---|---|---|
| `Picks.ArrivalTime` | pick_arrival.py:31 | the time of onset sample `index` is `start + index/df`: it is never before the start, and `(t - start) * df` gives the index back |
| `ArrivalCheck.FirstAfter` | pick_arrival.py:24-36 | the result is empty exactly when no interval's onset time is strictly after the origin time, the empty list included; a non-empty result has a time strictly after the origin, that time is its index's arrival time, and its index is the onset of one of the intervals |
| `ArrivalCheck.FirstAfterIsFirst` | pick_arrival.py:30-34 | if interval `k` qualifies and every earlier one does not, the result is `(start + onset_k/df, onset_k)` |
| `ArrivalCheck.FirstAfterHasWitness` | pick_arrival.py:30-34 | a non-empty result is the pick of an interval that qualifies and is preceded only by intervals at or before the origin time |
| `ArrivalCheck.OffsetsIgnored` | pick_arrival.py:31-33 | two interval lists with the same onsets give the same result, whatever their offsets |
| `ArrivalCheck.FirstAfterAppend` | pick_arrival.py:30-34 | the search on `a + b` returns the result on `a` when that is non-empty, and otherwise the result on `b`: intervals after the first qualifying one are never looked at |
| `ArrivalCheck.CheckArrivalTime` | pick_arrival.py:24-36 | the loop with early `break` returns exactly the first-match pick `FirstAfter` |
| `StationPicker.PickArrival` | pick_arrival.py:52-54 | a pass's pick is the first-match pick over that pass's trigger list, with the trace's start time and sampling rate; a non-empty pick lies after the origin time |
| `Reconciliation.Reconcile` | pick_arrival.py:98-119 | with filtering off, the final pick is the SNR pick. With filtering on, the final pick is non-empty exactly when the hfreq pick is non-empty and, if the SNR pick is non-empty too, the two are less than 0.5 s apart; a non-empty final pick is then the hfreq pick |
| `Reconciliation.Classify` | pick_arrival.py:98-119 | each pair of pass picks is in exactly the case of the decision table that its emptiness and distance select: filtering off, hfreq empty, SNR empty, agree (< 0.5 s) or disagree (≥ 0.5 s) |
| `Reconciliation.ReconcileIsDecisionTable` | pick_arrival.py:98-119 | the nested conditional gives, for every input, the outcome of the enumerated decision table |
| `Reconciliation.ReconcileChoosesAPassPick` | pick_arrival.py:112-119 | a non-empty final pick equals one of the two pass picks |
| `Reconciliation.ReconcileScenarios` | pick_arrival.py:112-119 | concrete cases: 0.3 s apart keeps the hfreq pick; 0.9 s apart gives empty; empty hfreq pick gives empty; empty SNR pick keeps the hfreq pick; filtering off keeps the SNR pick |
| `StationPicker.SelectVertical` | pick_arrival.py:81 | the selection is never longer than the stream |
| `StationPicker.SelectVerticalMembers` | pick_arrival.py:81 | a trace is selected exactly when it is in the stream and its channel contains `Z` |
| `StationPicker.SelectVerticalSingle` | pick_arrival.py:81 | a one-trace stream is selected whole when its channel contains `Z`, and not at all otherwise |
| `StationPicker.SelectVerticalAppend` | pick_arrival.py:81 | selecting from `a + b` gives the selection from `a` followed by the selection from `b`; with the one-trace case this fixes the selected traces' stream order and multiplicity |
| `StationPicker.SelectVerticalComponents` | pick_arrival.py:81 | of channels `BHZ`, `BHN` and `BHE`, only `BHZ` is selected |
| `StationPicker.FinalPick` | pick_arrival.py:93-119 | a trace's non-empty final pick lies after the origin time and is one of its two pass picks; with filtering off it is the SNR pass pick |
| `StationPicker.Entry` | pick_arrival.py:122-124 | a stored pick lies after the origin time; with filtering off the SNR flag is set exactly when the final pick is non-empty. By definition the pair is (final pick, SNR pick non-empty) |
| `StationPicker.PickTrace` | pick_arrival.py:83-119 | one loop iteration yields exactly the trace's result: its station, its reconciled final pick and its SNR flag. By definition the hfreq pass runs only when filtering is on |
| `StationPicker.Record` | pick_arrival.py:122-124 | an empty final pick leaves the dictionary unchanged; a non-empty one adds or overwrites the trace's station and keeps every other station's entry |
| `StationPicker.Collect` | pick_arrival.py:80-124 | every entry the loop stores holds a non-empty pick |
| `StationPicker.CollectHasStation` | pick_arrival.py:122-124 | a station is in the dictionary exactly when one of its per-trace results holds a non-empty final pick |
| `StationPicker.CollectLastEntry` | pick_arrival.py:122-124 | a station's entry is that of its last result with a non-empty pick |
| `StationPicker.OnsetsHasStation` | pick_arrival.py:82-126 | a station appears in the output exactly when one of its traces has a non-empty final pick |
| `StationPicker.OnsetsEntry` | pick_arrival.py:82-126 | a station's entry is the (final pick, SNR flag) of its last trace with a non-empty final pick: a later trace of the same station overwrites an earlier entry, and a trace with an empty final pick changes nothing |
| `StationPicker.OnsetsOverStream` | pick_arrival.py:81-124 | the loop over the selected traces builds the same dictionary as a loop over the whole stream in which unselected traces change nothing |
| `StationPicker.OnsetsInStreamOrder` | pick_arrival.py:81-124 | a station appears exactly when one of its selected traces has a non-empty final pick; its entry is that of the last such trace in stream order; a station with no selected trace never appears |
| `StationPicker.PWaveOnsetAndSnr` | pick_arrival.py:57-126 | the loop over the vertical traces builds exactly the dictionary `Onsets(SelectVertical(stream))`. A station appears exactly when one of its vertical traces has a non-empty final pick. It holds the (final pick, SNR flag) of the last such trace in stream order. `pickFilter` defaults to true |

## Left out

- `recursive_sta_lta` (pick_arrival.py:45-47): an obspy routine with floating-point recursive averaging. Its trigger output is an input of the model.
- `trigger_onset` (pick_arrival.py:48): obspy's hysteresis detector, whose source is not part of this model. Each trace carries the interval lists it produced.
- The thresholds `tigger_threshold` and `SNR_threshold` and the windows `nsta_seconds` and `nlta_seconds`: they only feed these two obspy calls, so they are implicit in the trigger lists.
- The window conversion `int(nsta_seconds * df)` (pick_arrival.py:46-47): a float truncation that only feeds the STA/LTA call.
- `highpass_filter_waveform` (pick_arrival.py:16-21), the optional pre-filter (pick_arrival.py:88-89) and the filtered copy (pick_arrival.py:101-102): detrending, tapering and Butterworth filtering are floating-point DSP. Their effect reaches the model only through the trigger lists. The pre-filter also changes the caller's traces in place; that side effect is not modelled.
- Plotting (pick_arrival.py:10-13, 49-50): user interface only.
- `StationPicker.SelectVertical`: it models obspy's `Stream.select(channel='*Z*')` as "the channel name contains `Z`". obspy's own glob matching and any case handling in it are not modelled.
- `UTCDateTime` arithmetic: times are exact reals. The rounding of `UTCDateTime` sums and comparisons is not modelled, nor is the float conversion of `onset / df`.
- The order of the Python dictionary's keys: the output is a `map`, which has no order.
- A zero or negative sampling rate: the model's `SamplingRate` is positive, so the division by zero that `onset / df` would raise in Python for `df == 0` is outside the model.
