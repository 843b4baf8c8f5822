/** The per-station driver `P_wave_onset_and_SNR`: it selects the vertical
    traces of a stream, picks each one twice (unfiltered and 1 Hz highpassed),
    reconciles the two picks and records every non-empty final pick, with its
    SNR flag, under the trace's station. */
module StationPicker {
  import opened Picks
  import opened ArrivalCheck
  import opened Reconciliation

  /** A trace as the picker sees it. The two trigger lists are what the
      STA/LTA trigger reported for the trace itself (compared against the
      SNR threshold) and for its 1 Hz highpassed copy (compared against the
      trigger threshold); they are inputs here. */
  datatype Trace = Trace(
    station: string,
    channel: string,
    start: real,
    df: SamplingRate,
    snrTriggers: seq<Interval>,
    hfreqTriggers: seq<Interval>)

  /** The two picking passes run on every trace. */
  datatype Pass = SnrPass | HighpassPass

  /** The value stored per station: the final pick, and whether the
      unfiltered pass found an arrival after the origin time. */
  datatype StationOnset = StationOnset(pick: Pick, snrOk: bool)

  /** The channel glob `*Z*`: the channel name contains a `Z`. */
  predicate IsVertical(channel: string)
  {
    'Z' in channel
  }

  /** The vertical traces of a stream, in stream order. */
  function SelectVertical(stream: seq<Trace>): (vertical: seq<Trace>)
    ensures |vertical| <= |stream|
  {
    if stream == [] then []
    else if IsVertical(stream[0].channel) then [stream[0]] + SelectVertical(stream[1..])
    else SelectVertical(stream[1..])
  }

  /** A trace is selected exactly when it is in the stream and vertical. */
  lemma {:induction false} SelectVerticalMembers(stream: seq<Trace>, t: Trace)
    ensures t in SelectVertical(stream) <==> t in stream && IsVertical(t.channel)
  {
    if stream != [] {
      SelectVerticalMembers(stream[1..], t);
      assert t in stream <==> t == stream[0] || t in stream[1..];
    }
  }

  /** Of a station's three components only the vertical one is selected. */
  lemma SelectVerticalComponents(z: Trace, n: Trace, e: Trace)
    requires z.channel == "BHZ" && n.channel == "BHN" && e.channel == "BHE"
    ensures SelectVertical([z, n, e]) == [z]
  {
    assert z.channel[2] == 'Z';
    assert n.channel == ['B', 'H', 'N'] && e.channel == ['B', 'H', 'E'];
    assert !IsVertical(n.channel) && !IsVertical(e.channel);
    assert [e][1..] == [];
    assert SelectVertical([e]) == [];
    assert [n, e][1..] == [e];
    assert SelectVertical([n, e]) == [];
    assert [z, n, e][1..] == [n, e];
  }

  /** A single trace is selected exactly when its channel is vertical. */
  lemma SelectVerticalSingle(t: Trace)
    ensures SelectVertical([t]) == if IsVertical(t.channel) then [t] else []
  {
    assert [t][1..] == [];
  }

  /** Selection distributes over concatenation. With `SelectVerticalSingle`
      this fixes the selection completely: the selected traces keep their
      stream order and their multiplicity. */
  lemma {:induction false} SelectVerticalAppend(a: seq<Trace>, b: seq<Trace>)
    ensures SelectVertical(a + b) == SelectVertical(a) + SelectVertical(b)
  {
    if a == [] {
      assert a + b == b;
    } else {
      assert (a + b)[0] == a[0];
      assert (a + b)[1..] == a[1..] + b;
      SelectVerticalAppend(a[1..], b);
    }
  }

  /** The trigger intervals a pass of a trace produced. */
  function Triggers(trace: Trace, pass: Pass): seq<Interval>
  {
    match pass
    case SnrPass => trace.snrTriggers
    case HighpassPass => trace.hfreqTriggers
  }

  /** The validated pick of one pass of a trace. */
  function PassPick(trace: Trace, pass: Pass, origin: real): Pick
  {
    FirstAfter(Triggers(trace, pass), trace.start, origin, trace.df)
  }

  /** `pick_arrival`: feed the pass's trigger intervals, the trace's start
      time and sampling rate into the arrival check. */
  method PickArrival(trace: Trace, pass: Pass, origin: real) returns (pick: Pick)
    ensures pick == PassPick(trace, pass, origin)
    ensures pick.Pick? ==> pick.time > origin
  {
    pick := CheckArrivalTime(Triggers(trace, pass), trace.start, origin, trace.df);
  }

  /** The final pick of a trace: one of its two pass picks, after the origin time. */
  function FinalPick(trace: Trace, origin: real, pickFilter: bool): (p: Pick)
    ensures p.Pick? ==> p.time > origin
    ensures p.Pick? ==> p == PassPick(trace, SnrPass, origin) || p == PassPick(trace, HighpassPass, origin)
    ensures !pickFilter ==> p == PassPick(trace, SnrPass, origin)
  {
    Reconcile(pickFilter, PassPick(trace, SnrPass, origin), PassPick(trace, HighpassPass, origin))
  }

  /** What one iteration of the output loop has computed for its trace:
      the station and the (final pick, SNR flag) pair. */
  datatype TraceResult = TraceResult(station: string, onset: StationOnset)

  /** The (final pick, SNR flag) pair of a trace. The flag says whether the
      unfiltered pass found an arrival after the origin time; with pick
      filtering off a non-empty final pick always has it set. */
  function Entry(trace: Trace, origin: real, pickFilter: bool): (e: StationOnset)
    ensures e.pick.Pick? ==> e.pick.time > origin
    ensures !pickFilter ==> (e.pick.Pick? <==> e.snrOk)
  {
    StationOnset(FinalPick(trace, origin, pickFilter), PassPick(trace, SnrPass, origin).Pick?)
  }

  /** The result of picking one trace. */
  function Result(trace: Trace, origin: real, pickFilter: bool): TraceResult
  {
    TraceResult(trace.station, Entry(trace, origin, pickFilter))
  }

  /** The results of picking each trace, in order. */
  function Results(traces: seq<Trace>, origin: real, pickFilter: bool): (rs: seq<TraceResult>)
    ensures |rs| == |traces|
    ensures forall i {:trigger rs[i]} :: 0 <= i < |traces| ==> rs[i] == Result(traces[i], origin, pickFilter)
  {
    seq(|traces|, i requires 0 <= i < |traces| => Result(traces[i], origin, pickFilter))
  }

  /** One iteration of the output loop: a non-empty final pick adds or
      overwrites its station's entry; an empty one changes nothing. */
  function Record(onsets: map<string, StationOnset>, r: TraceResult): (updated: map<string, StationOnset>)
    ensures r.onset.pick.NoPick? ==> updated == onsets
    ensures r.onset.pick.Pick? ==> updated.Keys == onsets.Keys + {r.station} && updated[r.station] == r.onset
    ensures forall s :: s in onsets && s != r.station ==> s in updated && updated[s] == onsets[s]
  {
    if r.onset.pick.Pick? then onsets[r.station := r.onset] else onsets
  }

  /** The dictionary after the output loop has run over `results`. Only
      non-empty picks are ever stored. */
  function Collect(results: seq<TraceResult>): (onsets: map<string, StationOnset>)
    ensures forall s :: s in onsets ==> onsets[s].pick.Pick?
  {
    if results == [] then map[]
    else Record(Collect(results[..|results| - 1]), results[|results| - 1])
  }

  /** The loop's step: one more result is one more `Record`. */
  lemma CollectStep(results: seq<TraceResult>, i: nat)
    requires i < |results|
    ensures Collect(results[..i + 1]) == Record(Collect(results[..i]), results[i])
  {
    assert results[..i + 1][..i] == results[..i];
  }

  /** Result `i` belongs to station `s` and holds a non-empty final pick. */
  ghost predicate Picked(results: seq<TraceResult>, i: int, s: string)
  {
    0 <= i < |results| && results[i].station == s && results[i].onset.pick.Pick?
  }

  /** Result `i` is the last of station `s` with a non-empty final pick. */
  ghost predicate LastPicked(results: seq<TraceResult>, i: int, s: string)
  {
    Picked(results, i, s) && forall j :: i < j < |results| ==> !Picked(results, j, s)
  }

  /** A station appears exactly when one of its results holds a non-empty pick. */
  lemma {:induction false} CollectHasStation(results: seq<TraceResult>, s: string)
    ensures s in Collect(results) <==> exists i :: Picked(results, i, s)
  {
    if results != [] {
      var n := |results| - 1;
      var prefix := results[..n];
      CollectHasStation(prefix, s);
      if s in Collect(results) && !Picked(results, n, s) {
        var i :| Picked(prefix, i, s);
        assert Picked(results, i, s);
      }
      if exists i :: Picked(results, i, s) {
        var i :| Picked(results, i, s);
        if i < n {
          assert Picked(prefix, i, s);
        }
      }
    }
  }

  /** The entry of a station is that of its last result with a non-empty
      pick: later traces overwrite earlier ones, and a trace with an empty
      final pick leaves the entry alone. */
  lemma {:induction false} CollectLastEntry(results: seq<TraceResult>, s: string)
    requires s in Collect(results)
    ensures exists i :: LastPicked(results, i, s)
               && Collect(results)[s] == results[i].onset
  {
    var n := |results| - 1;
    if Picked(results, n, s) {
      assert LastPicked(results, n, s);
    } else {
      var prefix := results[..n];
      CollectLastEntry(prefix, s);
      var i :| LastPicked(prefix, i, s) && Collect(prefix)[s] == prefix[i].onset;
      forall j | i < j < |results|
        ensures !Picked(results, j, s)
      {
        if j < n {
          assert !Picked(prefix, j, s);
        }
      }
      assert LastPicked(results, i, s);
    }
  }

  /** The dictionary `P_wave_onset_and_SNR` builds from `traces`. */
  function Onsets(traces: seq<Trace>, origin: real, pickFilter: bool): map<string, StationOnset>
  {
    Collect(Results(traces, origin, pickFilter))
  }

  /** A station appears exactly when one of its traces has a non-empty final pick. */
  lemma OnsetsHasStation(traces: seq<Trace>, origin: real, pickFilter: bool, s: string)
    ensures s in Onsets(traces, origin, pickFilter) <==>
      exists i :: 0 <= i < |traces| && traces[i].station == s && FinalPick(traces[i], origin, pickFilter).Pick?
  {
    var rs := Results(traces, origin, pickFilter);
    CollectHasStation(rs, s);
    if s in Onsets(traces, origin, pickFilter) {
      var i :| Picked(rs, i, s);
      assert rs[i] == Result(traces[i], origin, pickFilter);
    }
    if exists i :: 0 <= i < |traces| && traces[i].station == s && FinalPick(traces[i], origin, pickFilter).Pick? {
      var i :| 0 <= i < |traces| && traces[i].station == s && FinalPick(traces[i], origin, pickFilter).Pick?;
      assert Picked(rs, i, s);
    }
  }

  /** Every station of the dictionary holds the entry of its last trace with
      a non-empty final pick: a later trace of the station overwrites an
      earlier one, and a trace with an empty final pick leaves it alone. */
  lemma OnsetsEntry(traces: seq<Trace>, origin: real, pickFilter: bool, s: string)
    requires s in Onsets(traces, origin, pickFilter)
    ensures exists i ::
      && 0 <= i < |traces| && traces[i].station == s
      && FinalPick(traces[i], origin, pickFilter).Pick?
      && (forall j :: i < j < |traces| && traces[j].station == s ==> FinalPick(traces[j], origin, pickFilter).NoPick?)
      && Onsets(traces, origin, pickFilter)[s] == Entry(traces[i], origin, pickFilter)
  {
    var rs := Results(traces, origin, pickFilter);
    CollectLastEntry(rs, s);
    var i :| LastPicked(rs, i, s) && Collect(rs)[s] == rs[i].onset;
    forall j | i < j < |traces| && traces[j].station == s
      ensures FinalPick(traces[j], origin, pickFilter).NoPick?
    {
      assert !Picked(rs, j, s);
    }
  }

  /** What the output loop contributes for a trace of the whole stream:
      its result when the trace is selected, and an empty pick, which
      changes nothing, when it is not. */
  function StreamResult(trace: Trace, origin: real, pickFilter: bool): TraceResult
  {
    if IsVertical(trace.channel) then Result(trace, origin, pickFilter)
    else TraceResult(trace.station, StationOnset(NoPick, false))
  }

  /** The contributions of every trace of the stream, in stream order. */
  function StreamResults(stream: seq<Trace>, origin: real, pickFilter: bool): (rs: seq<TraceResult>)
    ensures |rs| == |stream|
    ensures forall i {:trigger rs[i]} :: 0 <= i < |stream| ==> rs[i] == StreamResult(stream[i], origin, pickFilter)
  {
    seq(|stream|, i requires 0 <= i < |stream| => StreamResult(stream[i], origin, pickFilter))
  }

  /** Appending one result to the loop's input is one more `Record`. */
  lemma CollectSnoc(rs: seq<TraceResult>, r: TraceResult)
    ensures Collect(rs + [r]) == Record(Collect(rs), r)
  {
    assert (rs + [r])[..|rs|] == rs;
  }

  /** Looping over the selected traces builds the same dictionary as
      looping over the whole stream and skipping the unselected ones. */
  lemma {:induction false} OnsetsOverStream(stream: seq<Trace>, origin: real, pickFilter: bool)
    ensures Onsets(SelectVertical(stream), origin, pickFilter) == Collect(StreamResults(stream, origin, pickFilter))
  {
    if stream != [] {
      OnsetsOverStream(stream[..|stream| - 1], origin, pickFilter);
      OnsetsOverStreamStep(stream[..|stream| - 1], stream[|stream| - 1], stream, origin, pickFilter);
    }
  }

  /** A non-empty sequence is its prefix followed by its last element. */
  lemma SplitLast<T>(s: seq<T>)
    requires s != []
    ensures s == s[..|s| - 1] + [s[|s| - 1]]
  {
  }

  /** One more trace adds one more result at the end. */
  lemma ResultsSnoc(traces: seq<Trace>, t: Trace, origin: real, pickFilter: bool)
    ensures Results(traces + [t], origin, pickFilter) == Results(traces, origin, pickFilter) + [Result(t, origin, pickFilter)]
  {
    assert (traces + [t])[|traces|] == t;
  }

  /** One more trace of the stream adds one more contribution at the end. */
  lemma StreamResultsSnoc(stream: seq<Trace>, t: Trace, origin: real, pickFilter: bool)
    ensures StreamResults(stream + [t], origin, pickFilter)
         == StreamResults(stream, origin, pickFilter) + [StreamResult(t, origin, pickFilter)]
  {
    assert (stream + [t])[|stream|] == t;
  }

  /** The induction step of `OnsetsOverStream`: one more trace at the end. */
  lemma OnsetsOverStreamStep(prefix: seq<Trace>, last: Trace, stream: seq<Trace>, origin: real, pickFilter: bool)
    requires stream != [] && prefix == stream[..|stream| - 1] && last == stream[|stream| - 1]
    requires Onsets(SelectVertical(prefix), origin, pickFilter) == Collect(StreamResults(prefix, origin, pickFilter))
    ensures Onsets(SelectVertical(stream), origin, pickFilter) == Collect(StreamResults(stream, origin, pickFilter))
  {
    SplitLast(stream);
    SelectVerticalAppend(prefix, [last]);
    SelectVerticalSingle(last);
    var r := StreamResult(last, origin, pickFilter);
    var srs := StreamResults(prefix, origin, pickFilter);
    StreamResultsSnoc(prefix, last, origin, pickFilter);
    CollectSnoc(srs, r);
    var v := SelectVertical(prefix);
    if IsVertical(last.channel) {
      var vs := Results(v, origin, pickFilter);
      ResultsSnoc(v, last, origin, pickFilter);
      CollectSnoc(vs, r);
      calc {
        Onsets(SelectVertical(prefix + [last]), origin, pickFilter);
        Collect(Results(v + [last], origin, pickFilter));
        Collect(vs + [r]);
        Record(Collect(vs), r);
        Record(Collect(srs), r);
        Collect(srs + [r]);
      }
    } else {
      assert v + [] == v;
      calc {
        Onsets(SelectVertical(prefix + [last]), origin, pickFilter);
        Collect(srs);
        Record(Collect(srs), r);
        Collect(srs + [r]);
      }
    }
  }

  /** Trace `i` of the stream is selected, belongs to station `s` and has a
      non-empty final pick. */
  ghost predicate VerticalPicked(stream: seq<Trace>, origin: real, pickFilter: bool, i: int, s: string)
  {
    && 0 <= i < |stream| && stream[i].station == s && IsVertical(stream[i].channel)
    && FinalPick(stream[i], origin, pickFilter).Pick?
  }

  /** Trace `i` is the last trace of the stream, in stream order, that is
      selected, belongs to station `s` and has a non-empty final pick. */
  ghost predicate LastVerticalPicked(stream: seq<Trace>, origin: real, pickFilter: bool, i: int, s: string)
  {
    VerticalPicked(stream, origin, pickFilter, i, s)
    && forall j :: i < j < |stream| ==> !VerticalPicked(stream, origin, pickFilter, j, s)
  }

  /** In terms of the whole stream: a station appears exactly when one of
      its selected traces has a non-empty final pick, and it holds the entry
      of the last such trace in stream order. A station with no selected
      trace never appears. */
  lemma OnsetsInStreamOrder(stream: seq<Trace>, origin: real, pickFilter: bool, s: string)
    ensures s in Onsets(SelectVertical(stream), origin, pickFilter) <==>
      exists i :: VerticalPicked(stream, origin, pickFilter, i, s)
    ensures s in Onsets(SelectVertical(stream), origin, pickFilter) ==>
      exists i :: LastVerticalPicked(stream, origin, pickFilter, i, s)
        && Onsets(SelectVertical(stream), origin, pickFilter)[s] == Entry(stream[i], origin, pickFilter)
  {
    var rs := StreamResults(stream, origin, pickFilter);
    OnsetsOverStream(stream, origin, pickFilter);
    forall i | 0 <= i < |stream|
      ensures Picked(rs, i, s) <==> VerticalPicked(stream, origin, pickFilter, i, s)
    {
      assert rs[i] == StreamResult(stream[i], origin, pickFilter);
    }
    CollectHasStation(rs, s);
    if s in Collect(rs) {
      CollectLastEntry(rs, s);
      var i :| LastPicked(rs, i, s) && Collect(rs)[s] == rs[i].onset;
      assert LastVerticalPicked(stream, origin, pickFilter, i, s);
    }
  }

  /** The body of the output loop for one trace: the SNR pass, the
      highpassed pass when pick filtering is on, and their reconciliation. */
  method PickTrace(trace: Trace, origin: real, pickFilter: bool) returns (r: TraceResult)
    ensures r == Result(trace, origin, pickFilter)
  {
    var snrPick := PickArrival(trace, SnrPass, origin);
    var hfreqPick := NoPick;
    if pickFilter {
      hfreqPick := PickArrival(trace, HighpassPass, origin);
    }
    var pick := Reconcile(pickFilter, snrPick, hfreqPick);
    r := TraceResult(trace.station, StationOnset(pick, snrPick.Pick?));
  }

  /** `P_wave_onset_and_SNR`: pick every vertical trace and collect the
      non-empty final picks per station. A station appears exactly when one
      of its vertical traces has a non-empty final pick, and it holds the
      (final pick, SNR flag) of the last such trace in stream order. */
  method PWaveOnsetAndSnr(stream: seq<Trace>, origin: real, pickFilter: bool := true)
    returns (onsets: map<string, StationOnset>)
    ensures onsets == Onsets(SelectVertical(stream), origin, pickFilter)
    ensures forall s :: s in onsets <==> exists i :: VerticalPicked(stream, origin, pickFilter, i, s)
    ensures forall s :: s in onsets ==>
      exists i :: LastVerticalPicked(stream, origin, pickFilter, i, s) && onsets[s] == Entry(stream[i], origin, pickFilter)
  {
    onsets := map[];
    var vertical := SelectVertical(stream);
    ghost var results := Results(vertical, origin, pickFilter);
    for i := 0 to |vertical|
      invariant onsets == Collect(results[..i])
    {
      var r := PickTrace(vertical[i], origin, pickFilter);
      ghost var before := onsets;
      if r.onset.pick.Pick? {
        onsets := onsets[r.station := r.onset];
      }
      assert onsets == Record(before, r);
      CollectStep(results, i);
    }
    assert results[..|vertical|] == results;
    forall s
      ensures s in onsets <==> exists i :: VerticalPicked(stream, origin, pickFilter, i, s)
      ensures s in onsets ==>
        exists i :: LastVerticalPicked(stream, origin, pickFilter, i, s) && onsets[s] == Entry(stream[i], origin, pickFilter)
    {
      OnsetsInStreamOrder(stream, origin, pickFilter, s);
    }
  }
}
