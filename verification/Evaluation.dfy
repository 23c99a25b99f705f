/** Batch evaluation of one finding channel, and the check that expectations do not contradict each other. */
module Evaluation {
  import opened Common
  import opened Matching
  import opened Greedy
  import opened EvaluationSpec
  import opened Scoring

  /** `_evaluate_channel`. */
  method EvaluateChannel(fs: seq<Finding>, exps: seq<Expectation>, packet: bool)
    returns (r: Result<seq<Entry>, EvaluationError>)
    requires NonContradictory(exps)
    ensures r.Ok? <==> forall f :: f in fs ==> InChannel(f, packet)
    ensures r.Ok? ==> r.value == BatchEntries(fs, exps) && Scored(r.value, fs, exps)
  {
    hide Scored;
    var labels: seq<Labelled> := [];
    for i := 0 to |fs|
      invariant labels == Label(fs, 0)[..i]
      invariant forall j :: 0 <= j < i ==> InChannel(fs[j], packet)
    {
      if !InChannel(fs[i], packet) { return Err(OtherChannel); }
      labels := labels + [Labelled(DetectionIdentity(fs[i], i), fs[i].decision)];
    }
    var pairs, used := MatchFindings(labels, exps, {});
    MatchAllIsGreedy(labels, exps, {});
    assert labels == Label(fs, 0);
    var entries: seq<Entry> := [];
    for i := 0 to |fs|
      invariant entries == FindingEntries(fs, 0, exps, pairs, i)
    {
      entries := entries + [FindingEntry(fs[i], i, exps, Lookup(pairs, i))];
    }
    ghost var found := entries;
    for e := 0 to |exps|
      invariant entries == found + MissedEntries(exps, used, e)
    {
      if e !in used {
        entries := entries + [Entry(Classify(Some(exps[e]), None), Some(e), Some(exps[e]), None, None)];
      }
    }
    EvaluationIsScored(fs, exps);
    r := Ok(entries);
  }

  /** `ExpectedDetectionResult.__post_init__` for one channel: a dictionary of the polarities seen so far. */
  method CheckExpectations(exps: seq<Expectation>, packet: bool) returns (r: Result<(), EvaluationError>)
    ensures r.Ok? <==> NonContradictory(exps) && forall e :: e in exps ==> e.identity.name.PacketName? == packet
  {
    var seen: map<Name, bool> := map[];
    for k := 0 to |exps|
      invariant NonContradictory(exps[..k])
      invariant forall j :: 0 <= j < k ==> exps[j].identity.name.PacketName? == packet
      invariant forall j :: 0 <= j < k ==> exps[j].identity.name in seen
                                           && seen[exps[j].identity.name] == exps[j].positive
      invariant forall name :: name in seen ==> exists j :: 0 <= j < k && exps[j].identity.name == name
    {
      var e := exps[k];
      if e.identity.name.PacketName? != packet { return Err(OtherChannel); }
      if e.identity.name in seen && seen[e.identity.name] != e.positive {
        assert exists j :: 0 <= j < k && exps[j].identity.name == e.identity.name;
        return Err(Contradictory);
      }
      assert forall j :: 0 <= j < k && exps[j].identity.name == e.identity.name ==> exps[j].positive == e.positive;
      seen := seen[e.identity.name := e.positive];
    }
    assert exps[..|exps|] == exps;
    r := Ok(());
  }
}
