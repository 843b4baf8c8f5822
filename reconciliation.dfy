/** Two-pass pick reconciliation: the pick of the unfiltered ("SNR") pass and
    the pick of the 1 Hz highpassed ("hfreq") pass are merged into one final
    pick. With pick filtering on, the highpassed pass is authoritative: it
    must have fired, and when both fired they must agree within 0.5 s. */
module Reconciliation {
  import opened Picks

  /** Largest disagreement, in seconds, below which the two passes agree. */
  const Tolerance: real := 0.5

  /** The final pick of one trace, as the nested conditional of
      `P_wave_onset_and_SNR` computes it. */
  function Reconcile(pickFilter: bool, snr: Pick, hfreq: Pick): (final: Pick)
    ensures !pickFilter ==> final == snr
    ensures pickFilter ==>
      (final.Pick? <==> hfreq.Pick? && (snr.Pick? ==> Abs(hfreq.time - snr.time) < Tolerance))
    ensures pickFilter && final.Pick? ==> final == hfreq
  {
    if !pickFilter then snr
    else if hfreq.Pick? then
      if snr.Pick? then
        if Abs(hfreq.time - snr.time) < Tolerance then hfreq else NoPick
      else hfreq
    else NoPick
  }

  /** The situations the reconciliation distinguishes, in order of precedence. */
  datatype Outcome =
    | FilterOff        // pick filtering disabled: the SNR pass decides
    | PrecisionSilent  // the highpassed pass found no arrival
    | OneSided         // only the highpassed pass found an arrival
    | Agree            // both found one, less than 0.5 s apart
    | Disagree         // both found one, 0.5 s or more apart

  /** Which situation a pair of pass picks is in. */
  function Classify(pickFilter: bool, snr: Pick, hfreq: Pick): (o: Outcome)
    ensures o == FilterOff <==> !pickFilter
    ensures o == PrecisionSilent <==> pickFilter && hfreq.NoPick?
    ensures o == OneSided <==> pickFilter && hfreq.Pick? && snr.NoPick?
    ensures o == Agree ==> Abs(hfreq.time - snr.time) < Tolerance
    ensures o == Disagree ==> Abs(hfreq.time - snr.time) >= Tolerance
  {
    if !pickFilter then FilterOff
    else if hfreq.NoPick? then PrecisionSilent
    else if snr.NoPick? then OneSided
    else if Abs(hfreq.time - snr.time) < Tolerance then Agree
    else Disagree
  }

  /** What each situation yields. */
  function Decide(o: Outcome, snr: Pick, hfreq: Pick): Pick
  {
    match o
    case FilterOff => snr
    case PrecisionSilent => NoPick
    case OneSided => hfreq
    case Agree => hfreq
    case Disagree => NoPick
  }

  /** The nested conditional is exactly the decision table. */
  lemma ReconcileIsDecisionTable(pickFilter: bool, snr: Pick, hfreq: Pick)
    ensures Reconcile(pickFilter, snr, hfreq) == Decide(Classify(pickFilter, snr, hfreq), snr, hfreq)
  {
  }

  /** A final pick is never invented: it is one of the two pass picks. */
  lemma ReconcileChoosesAPassPick(pickFilter: bool, snr: Pick, hfreq: Pick)
    ensures Reconcile(pickFilter, snr, hfreq).Pick? ==>
      Reconcile(pickFilter, snr, hfreq) == snr || Reconcile(pickFilter, snr, hfreq) == hfreq
  {
  }

  /** The reconciliation on concrete picks: agreement within 0.3 s keeps the
      highpassed pick, a 0.9 s disagreement drops both, a silent highpassed
      pass drops the SNR pick, and a silent SNR pass keeps the highpassed pick. */
  lemma ReconcileScenarios(t0: real, i0: nat, i1: nat)
    ensures Reconcile(true, Pick(t0, i0), Pick(t0 + 0.3, i1)) == Pick(t0 + 0.3, i1)
    ensures Reconcile(true, Pick(t0, i0), Pick(t0 + 0.9, i1)) == NoPick
    ensures Reconcile(true, Pick(t0, i0), NoPick) == NoPick
    ensures Reconcile(true, NoPick, Pick(t0, i1)) == Pick(t0, i1)
    ensures Reconcile(false, Pick(t0, i0), Pick(t0 + 0.9, i1)) == Pick(t0, i0)
  {
  }
}
