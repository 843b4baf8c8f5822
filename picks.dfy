/** Values shared by the P-wave picker: trigger intervals, picks, and the
    conversion from a sample index of a trace to an absolute time. */
module Picks {

  /** Samples per second of a trace (a trace's sampling rate is positive). */
  type SamplingRate = r: real | r > 0.0 witness 1.0

  /** One interval reported by the hysteresis trigger, as sample indices
      into the characteristic function. Only `onset` is ever read. */
  datatype Interval = Interval(onset: nat, offset: nat)

  /** An arrival pick: the absolute time of the arrival and the sample index
      it was read from. `NoPick` is the empty tuple `()` of the source. */
  datatype Pick = NoPick | Pick(time: real, index: nat)

  /** Absolute time of sample `index` of a trace that starts at `start` and
      is sampled `df` times per second. The sample index is recovered from
      the time, and a later sample never has an earlier time. */
  function ArrivalTime(start: real, index: nat, df: SamplingRate): (t: real)
    ensures (t - start) * df == index as real
    ensures t >= start
  {
    start + index as real / df
  }

  /** Absolute value of a time difference in seconds. */
  function Abs(x: real): (a: real)
    ensures a >= 0.0
    ensures a == x || a == -x
  {
    if x < 0.0 then -x else x
  }
}
