/** Origin-time-gated arrival validation: of the trigger intervals, in list
    order, the first whose onset lies strictly after the earthquake's origin
    time becomes the pick; an onset at or before the origin time cannot be
    the P arrival of that earthquake. */
module ArrivalCheck {
  import opened Picks

  /** Interval `iv` starts strictly after the origin time. */
  predicate Qualifies(iv: Interval, start: real, origin: real, df: SamplingRate)
  {
    ArrivalTime(start, iv.onset, df) > origin
  }

  /** The pick that interval `k` stands for: its onset's time and the onset. */
  function PickAt(arrivals: seq<Interval>, k: nat, start: real, df: SamplingRate): (p: Pick)
    requires k < |arrivals|
    ensures p.Pick? && p.index == arrivals[k].onset
    ensures p.time == ArrivalTime(start, arrivals[k].onset, df)
  {
    Pick(ArrivalTime(start, arrivals[k].onset, df), arrivals[k].onset)
  }

  /** `k` is the first interval of `arrivals` that qualifies. */
  ghost predicate IsFirstAfter(arrivals: seq<Interval>, start: real, origin: real, df: SamplingRate, k: nat)
  {
    && k < |arrivals|
    && Qualifies(arrivals[k], start, origin, df)
    && forall j :: 0 <= j < k ==> !Qualifies(arrivals[j], start, origin, df)
  }

  /** The pick `check_arrival_time` returns, as a first-match search. */
  function FirstAfter(arrivals: seq<Interval>, start: real, origin: real, df: SamplingRate): (p: Pick)
    ensures p.NoPick? <==> forall i :: 0 <= i < |arrivals| ==> !Qualifies(arrivals[i], start, origin, df)
    ensures p.Pick? ==> p.time > origin && p.time == ArrivalTime(start, p.index, df)
    ensures p.Pick? ==> exists i :: 0 <= i < |arrivals| && arrivals[i].onset == p.index
  {
    if arrivals == [] then NoPick
    else if Qualifies(arrivals[0], start, origin, df) then PickAt(arrivals, 0, start, df)
    else
      var rest := FirstAfter(arrivals[1..], start, origin, df);
      assert forall i :: 1 <= i < |arrivals| ==> arrivals[i] == arrivals[1..][i - 1];
      rest
  }

  /** The search returns the pick of the first qualifying interval, whichever it is. */
  lemma {:induction false} FirstAfterIsFirst(arrivals: seq<Interval>, start: real, origin: real, df: SamplingRate, k: nat)
    requires IsFirstAfter(arrivals, start, origin, df, k)
    ensures FirstAfter(arrivals, start, origin, df) == PickAt(arrivals, k, start, df)
  {
    if k > 0 {
      assert !Qualifies(arrivals[0], start, origin, df);
      assert forall j :: 0 <= j < k - 1 ==> arrivals[1..][j] == arrivals[j + 1];
      FirstAfterIsFirst(arrivals[1..], start, origin, df, k - 1);
    }
  }

  /** A non-empty result is the pick of the first qualifying interval. */
  lemma {:induction false} FirstAfterHasWitness(arrivals: seq<Interval>, start: real, origin: real, df: SamplingRate)
    requires FirstAfter(arrivals, start, origin, df).Pick?
    ensures exists k: nat :: IsFirstAfter(arrivals, start, origin, df, k)
                     && FirstAfter(arrivals, start, origin, df) == PickAt(arrivals, k, start, df)
  {
    if Qualifies(arrivals[0], start, origin, df) {
      assert IsFirstAfter(arrivals, start, origin, df, 0);
    } else {
      FirstAfterHasWitness(arrivals[1..], start, origin, df);
      var k: nat :| IsFirstAfter(arrivals[1..], start, origin, df, k)
            && FirstAfter(arrivals[1..], start, origin, df) == PickAt(arrivals[1..], k, start, df);
      assert forall j :: 1 <= j < k + 1 ==> arrivals[j] == arrivals[1..][j - 1];
      assert IsFirstAfter(arrivals, start, origin, df, k + 1);
    }
  }

  /** Only the onsets matter: the offsets never change the result. */
  lemma {:induction false} OffsetsIgnored(a: seq<Interval>, b: seq<Interval>, start: real, origin: real, df: SamplingRate)
    requires |a| == |b|
    requires forall i :: 0 <= i < |a| ==> a[i].onset == b[i].onset
    ensures FirstAfter(a, start, origin, df) == FirstAfter(b, start, origin, df)
  {
    if a != [] {
      OffsetsIgnored(a[1..], b[1..], start, origin, df);
    }
  }

  /** Intervals after a qualifying one are never looked at; if none of the
      first part qualifies, the search continues in the second. */
  lemma {:induction false} FirstAfterAppend(a: seq<Interval>, b: seq<Interval>, start: real, origin: real, df: SamplingRate)
    ensures FirstAfter(a + b, start, origin, df)
         == if FirstAfter(a, start, origin, df).Pick? then FirstAfter(a, start, origin, df)
            else FirstAfter(b, start, origin, df)
  {
    if a == [] {
      assert a + b == b;
    } else {
      assert (a + b)[0] == a[0];
      assert (a + b)[1..] == a[1..] + b;
      FirstAfterAppend(a[1..], b, start, origin, df);
    }
  }

  /** `check_arrival_time`: scan the intervals in order and stop at the
      first whose onset time is strictly after the origin time. */
  method CheckArrivalTime(arrivals: seq<Interval>, start: real, origin: real, df: SamplingRate)
    returns (pick: Pick)
    ensures pick == FirstAfter(arrivals, start, origin, df)
  {
    pick := NoPick;
    for i := 0 to |arrivals|
      invariant FirstAfter(arrivals[i..], start, origin, df) == FirstAfter(arrivals, start, origin, df)
      invariant pick == NoPick
    {
      var timePick := ArrivalTime(start, arrivals[i].onset, df);
      if timePick > origin {
        pick := Pick(timePick, arrivals[i].onset);
        break;
      }
      assert arrivals[i..][1..] == arrivals[i + 1..];
    }
  }
}
