/** The incremental evaluator as the program runs it: objects that change with every recorded finding. */
module Incremental {
  import opened Common
  import opened Matching
  import opened Greedy
  import opened EvaluationSpec
  import opened IncrementalSpec
  import opened Scoring

  type Index = map<Name, seq<nat>>

  function QueueOf(index: Index, name: Name): seq<nat>
  {
    if name in index then index[name] else []
  }

  /** The expectations below `n` of one identity, in order. */
  ghost function Indices(exps: seq<Expectation>, name: Name, n: nat): seq<nat>
    requires n <= |exps|
  {
    if n == 0 then []
    else Indices(exps, name, n - 1) + if exps[n - 1].identity.name == name then [n - 1] else []
  }

  /** A lazily trimmed deque: a tail of all the indices, and only used ones have been dropped. */
  ghost predicate QueueHolds(all: seq<nat>, used: set<nat>, q: seq<nat>)
  {
    && |q| <= |all|
    && q == all[|all| - |q|..]
    && forall k :: 0 <= k < |all| - |q| ==> all[k] in used
  }

  ghost predicate IndexHolds(exps: seq<Expectation>, n: nat, used: set<nat>, index: Index)
    requires n <= |exps|
  {
    forall name :: QueueHolds(Indices(exps, name, n), used, QueueOf(index, name))
  }

  /** `setdefault(identity, deque()).append(n)`. */
  function Enqueue(index: Index, name: Name, n: nat): Index
  {
    index[name := QueueOf(index, name) + [n]]
  }

  ghost function IndexOfExpectations(exps: seq<Expectation>, n: nat): Index
    requires n <= |exps|
  {
    if n == 0 then map[] else Enqueue(IndexOfExpectations(exps, n - 1), exps[n - 1].identity.name, n - 1)
  }

  lemma {:induction false} FullIndexHolds(exps: seq<Expectation>, n: nat, name: Name)
    requires n <= |exps|
    ensures QueueOf(IndexOfExpectations(exps, n), name) == Indices(exps, name, n)
  {
    if n > 0 { FullIndexHolds(exps, n - 1, name); }
  }

  method BuildExpectationIndex(exps: seq<Expectation>) returns (index: Index)
    ensures IndexHolds(exps, |exps|, {}, index)
  {
    index := map[];
    for e := 0 to |exps|
      invariant index == IndexOfExpectations(exps, e)
    {
      index := Enqueue(index, exps[e].identity.name, e);
    }
    forall name ensures QueueHolds(Indices(exps, name, |exps|), {}, QueueOf(index, name)) {
      FullIndexHolds(exps, |exps|, name);
    }
  }

  lemma {:induction false} IndexKeeps(exps: seq<Expectation>, used: set<nat>, index: Index, name: Name, q: seq<nat>)
    requires IndexHolds(exps, |exps|, used, index) && QueueHolds(Indices(exps, name, |exps|), used, q)
    ensures IndexHolds(exps, |exps|, used, index[name := q])
  {
    var index' := index[name := q];
    forall other ensures QueueHolds(Indices(exps, other, |exps|), used, QueueOf(index', other)) {
      assert QueueHolds(Indices(exps, other, |exps|), used, QueueOf(index, other));
    }
  }

  lemma {:induction false} IndexSurvivesUse(exps: seq<Expectation>, used: set<nat>, e: nat, index: Index)
    requires IndexHolds(exps, |exps|, used, index)
    ensures IndexHolds(exps, |exps|, used + {e}, index)
  {
    var used' := used + {e};
    forall name ensures QueueHolds(Indices(exps, name, |exps|), used', QueueOf(index, name)) {
      assert QueueHolds(Indices(exps, name, |exps|), used, QueueOf(index, name));
    }
  }

  /** Skipping `d` used indices leads to the first unused one. */
  lemma {:induction false} FirstOfIndices(exps: seq<Expectation>, used: set<nat>, name: Name, n: nat, d: nat)
    requires n <= |exps| && d <= |Indices(exps, name, n)|
    requires forall k :: 0 <= k < d ==> Indices(exps, name, n)[k] in used
    requires d < |Indices(exps, name, n)| ==> Indices(exps, name, n)[d] !in used
    ensures FirstUnused(exps, used, name, n)
         == if d < |Indices(exps, name, n)| then Some(Indices(exps, name, n)[d]) else None
  {
    if n > 0 {
      var less := Indices(exps, name, n - 1);
      var all := Indices(exps, name, n);
      assert forall k :: 0 <= k < |less| ==> all[k] == less[k];
      assert |less| < |all| ==> all[|less|] == n - 1;
      FirstOfIndices(exps, used, name, n - 1, Min(d, |less|));
    }
  }

  class EvaluationChannel {
    const exps: seq<Expectation>
    const packet: bool
    var used: set<nat>
    var nextIndex: nat
    var pendingFindings: seq<Finding>
    var pendingIdentities: seq<Labelled>
    var expectationIndices: Option<Index>
    /** What the consumer has been given. */
    var emitted: seq<Entry>

    ghost predicate Valid()
      reads this
    {
      && NonContradictory(exps)
      && (forall e :: e in used ==> e < |exps|)
      && |pendingFindings| <= nextIndex
      && pendingIdentities == Label(pendingFindings, nextIndex - |pendingFindings|)
      && (expectationIndices.Some? ==> IndexHolds(exps, |exps|, used, expectationIndices.value))
    }

    /** The channel as a value. */
    ghost function State(): Channel
      reads this
    {
      Channel(used, nextIndex, pendingFindings, emitted)
    }

    constructor (exps: seq<Expectation>, packet: bool)
      requires NonContradictory(exps)
      ensures Valid() && State() == FRESH && this.exps == exps && this.packet == packet
      ensures expectationIndices.Some? <==> forall e :: 0 <= e < |exps| ==> exps[e].identity.Indexable()
    {
      this.exps, this.packet := exps, packet;
      used, nextIndex, pendingFindings, pendingIdentities, emitted := {}, 0, [], [], [];
      expectationIndices := None;
      new;
      if forall e :: 0 <= e < |exps| ==> exps[e].identity.Indexable() {
        var index := BuildExpectationIndex(exps);
        expectationIndices := Some(index);
      }
    }

    /** `_match_current`: through the index when there is one, else through a scan for this finding alone. */
    method MatchCurrent(item: Labelled) returns (r: Option<nat>)
      requires Valid()
      modifies this`expectationIndices
      ensures Valid()
      ensures r == FirstUnused(exps, used, item.identity.name, |exps|)
    {
      var name := item.identity.name;
      if |used| == |exps| {
        BoundedSet(used, |exps|);
        return None;
      }
      if expectationIndices.None? || !item.identity.Indexable() {
        var pairs, _ := MatchFindings([item], exps, used);
        AloneTakesFirstUnused(exps, used, item);
        return Lookup(pairs, 0);
      }
      r := HeadOfQueue(name);
      if r.Some? {
        var pairs, _ := MatchFindings([item], [exps[r.value]], {});
        AloneTakesFirstUnused([exps[r.value]], {}, item);
        FirstUnusedIs([exps[r.value]], {}, name, 0, 1);
        r := if 0 in pairs then r else None;
      }
    }

    /** Drops used indices from the identity's deque and looks at its head. */
    method HeadOfQueue(name: Name) returns (r: Option<nat>)
      requires Valid() && expectationIndices.Some?
      modifies this`expectationIndices
      ensures Valid()
      ensures r == FirstUnused(exps, used, name, |exps|)
    {
      var index := expectationIndices.value;
      var q := QueueOf(index, name);
      while q != [] && q[0] in used
        invariant expectationIndices == Some(index)
        invariant QueueHolds(Indices(exps, name, |exps|), used, q)
      {
        q := q[1..];
      }
      if name in index {
        IndexKeeps(exps, used, index, name, q);
        expectationIndices := Some(index[name := q]);
      }
      FirstOfIndices(exps, used, name, |exps|, |Indices(exps, name, |exps|)| - |q|);
      r := if q == [] then None else Some(q[0]);
    }

    method Record(f: Finding) returns (r: Result<(), EvaluationError>)
      requires Valid()
      modifies this
      ensures Valid()
      ensures r.Ok? <==> InChannel(f, packet)
      ensures State() == if r.Ok? then IncrementalSpec.Record(exps, packet, old(State()), f) else old(State())
    {
      if !InChannel(f, packet) { return Err(OtherChannel); }
      var item := Labelled(DetectionIdentity(f, nextIndex), f.decision);
      if pendingFindings != [] {
        Defer(f, item);
        return Ok(());
      }
      var e := MatchCurrent(item);
      if !packet && e.Some? && f.decision != Required(exps[e.value].positive) {
        Defer(f, item);
        return Ok(());
      }
      var entry := FindingEntry(f, nextIndex, exps, e);
      if e.Some? { Use(e.value); }
      nextIndex := nextIndex + 1;
      emitted := emitted + [entry];
      r := Ok(());
    }

    method Defer(f: Finding, item: Labelled)
      requires Valid() && item == Labelled(DetectionIdentity(f, nextIndex), f.decision)
      modifies this`pendingFindings, this`pendingIdentities, this`nextIndex
      ensures Valid()
      ensures pendingFindings == old(pendingFindings) + [f] && nextIndex == old(nextIndex) + 1
    {
      pendingFindings := pendingFindings + [f];
      pendingIdentities := pendingIdentities + [item];
      nextIndex := nextIndex + 1;
    }

    method Use(e: nat)
      requires Valid() && e < |exps|
      modifies this`used
      ensures Valid() && used == old(used) + {e}
    {
      if expectationIndices.Some? {
        IndexSurvivesUse(exps, used, e, expectationIndices.value);
      }
      used := used + {e};
    }

    /** Everything not yet emitted is emitted, in the order batch evaluation would give. */
    method Finish()
      requires Valid()
      modifies this
      ensures emitted == IncrementalSpec.Finish(exps, old(State()))
      ensures pendingFindings == [] && pendingIdentities == []
    {
      ghost var was := State();
      var first := nextIndex - |pendingFindings|;
      MatchAllIsGreedy(pendingIdentities, exps, used);
      if pendingFindings != [] {
        var pairs, used' := MatchFindings(pendingIdentities, exps, used);
        used := used';
        for i := 0 to |pendingFindings|
          invariant pendingFindings == was.pending && used == used' && first == was.nextIndex - |was.pending|
          invariant emitted == was.emitted + FindingEntries(was.pending, first, exps, pairs, i)
        {
          emitted := emitted + [FindingEntry(pendingFindings[i], first + i, exps, Lookup(pairs, i))];
        }
      } else {
        NothingToMatch(exps, used);
      }
      ClearPending();
      EmitUnused();
    }

    method EmitUnused()
      modifies this`emitted
      ensures emitted == old(emitted) + MissedEntries(exps, used, |exps|)
    {
      for e := 0 to |exps|
        invariant emitted == old(emitted) + MissedEntries(exps, used, e)
      {
        if e !in used {
          emitted := emitted + [Entry(Classify(Some(exps[e]), None), Some(e), Some(exps[e]), None, None)];
        }
      }
    }

    method ClearPending()
      modifies this`pendingFindings, this`pendingIdentities
      ensures pendingFindings == [] && pendingIdentities == []
    {
      pendingFindings, pendingIdentities := [], [];
    }
  }

  datatype EvaluatorState = Open | Finished | Failed

  datatype EvaluatorError = NotOpen | WrongChannel

  /** `IncrementalDetectionEvaluator`: the two channels behind one lifecycle. */
  class DetectionEvaluator {
    const packets: EvaluationChannel
    const flows: EvaluationChannel
    var state: EvaluatorState
    /** All packet and flow findings recorded, each in its own order. */
    ghost var packetHistory: seq<Finding>
    ghost var flowHistory: seq<Finding>

    ghost predicate Valid()
      reads this, packets, flows
    {
      && packets != flows && packets.packet && !flows.packet
      && NonContradictory(packets.exps) && NonContradictory(flows.exps)
      && (forall f :: f in packetHistory ==> InChannel(f, true))
      && (forall f :: f in flowHistory ==> InChannel(f, false))
      && (state == Open ==>
            && packets.Valid() && flows.Valid()
            && packets.State() == RecordAll(packets.exps, true, packetHistory)
            && flows.State() == RecordAll(flows.exps, false, flowHistory))
      && (state == Finished ==>
            && packets.emitted == BatchEntries(packetHistory, packets.exps)
            && flows.emitted == BatchEntries(flowHistory, flows.exps))
      && (state == Failed ==> packets.pendingFindings == [] && flows.pendingFindings == [])
    }

    constructor (packetExpectations: seq<Expectation>, flowExpectations: seq<Expectation>)
      requires NonContradictory(packetExpectations) && NonContradictory(flowExpectations)
      ensures Valid() && state == Open && packetHistory == [] && flowHistory == []
      ensures packets.exps == packetExpectations && flows.exps == flowExpectations
      ensures fresh(packets) && fresh(flows)
    {
      packets := new EvaluationChannel(packetExpectations, true);
      flows := new EvaluationChannel(flowExpectations, false);
      state, packetHistory, flowHistory := Open, [], [];
    }

    /** A finding of the wrong channel fails the evaluator for good; an idle open one is required. */
    method Record(f: Finding, packet: bool) returns (r: Result<(), EvaluatorError>)
      requires Valid()
      modifies this, packets, flows
      ensures Valid()
      ensures r == if old(state) != Open then Err(NotOpen) else if InChannel(f, packet) then Ok(())
              else Err(WrongChannel)
      ensures r.Ok? && packet ==> packetHistory == old(packetHistory) + [f] && flowHistory == old(flowHistory)
      ensures r.Ok? && !packet ==> flowHistory == old(flowHistory) + [f] && packetHistory == old(packetHistory)
      ensures r.Err? ==> packetHistory == old(packetHistory) && flowHistory == old(flowHistory)
      ensures state == if r == Err(WrongChannel) then Failed else old(state)
    {
      if state != Open { return Err(NotOpen); }
      var channel := if packet then packets else flows;
      var done := channel.Record(f);
      if done.Err? {
        Fail();
        return Err(WrongChannel);
      }
      if packet {
        assert (packetHistory + [f])[..|packetHistory|] == packetHistory;
        packetHistory := packetHistory + [f];
      } else {
        assert (flowHistory + [f])[..|flowHistory|] == flowHistory;
        flowHistory := flowHistory + [f];
      }
      r := Ok(());
    }

    /**
     * However packet and flow findings were interleaved, both channels have emitted their
     * batch evaluation, in which every finding and every expectation is scored once.
     */
    method Finish() returns (r: Result<(), EvaluatorError>)
      requires Valid()
      modifies this, packets, flows
      ensures Valid() && packetHistory == old(packetHistory) && flowHistory == old(flowHistory)
      ensures r.Ok? <==> old(state) != Failed
      ensures r.Ok? ==> state == Finished
      ensures r.Ok? ==>
                && Scored(packets.emitted, packetHistory, packets.exps)
                && Scored(flows.emitted, flowHistory, flows.exps)
      ensures old(state) == Finished ==> packets.emitted == old(packets.emitted) && flows.emitted == old(flows.emitted)
      ensures r.Err? ==> state == Failed
    {
      hide Scored;
      EvaluationIsScored(packetHistory, packets.exps);
      EvaluationIsScored(flowHistory, flows.exps);
      if state == Finished { return Ok(()); }
      if state != Open { return Err(NotOpen); }
      IncrementalEqualsBatch(packets.exps, true, packetHistory);
      IncrementalEqualsBatch(flows.exps, false, flowHistory);
      packets.Finish();
      flows.Finish();
      state := Finished;
      r := Ok(());
    }

    method Abort() returns (r: Result<(), EvaluatorError>)
      requires Valid()
      modifies this, packets, flows
      ensures Valid() && packetHistory == old(packetHistory) && flowHistory == old(flowHistory)
      ensures r.Ok? <==> old(state) != Finished
      ensures state == if r.Ok? then Failed else old(state)
    {
      if state == Finished { return Err(NotOpen); }
      Fail();
      r := Ok(());
    }

    method Fail()
      modifies this`state, packets`pendingFindings, packets`pendingIdentities, flows`pendingFindings,
               flows`pendingIdentities
      ensures state == Failed && packets.pendingFindings == [] && flows.pendingFindings == []
    {
      state := Failed;
      packets.ClearPending();
      flows.ClearPending();
    }
  }

  /** With no findings to match, nothing is assigned. */
  lemma {:induction false} NothingToMatch(exps: seq<Expectation>, used: set<nat>)
    requires NonContradictory(exps)
    ensures MatchAll([], exps, used) == Assignment(map[], used)
  {
    MatchAllIsGreedy([], exps, used);
    var m := MatchAll([], exps, used);
    assert m.pairs == map[];
  }

  lemma {:induction false} FirstUnusedIs(exps: seq<Expectation>, used: set<nat>, name: Name, e: nat, n: nat)
    requires e < n <= |exps| && e !in used && exps[e].identity.name == name
    requires forall d: nat :: d < e && exps[d].identity.name == name ==> d in used
    ensures FirstUnused(exps, used, name, n) == Some(e)
  {
    var r := FirstUnused(exps, used, name, n);
    assert r.Some? && !(r.value < e) && !(e < r.value);
  }
}
