/** The meaning of evaluating a whole finding channel at once. */
module EvaluationSpec {
  import opened Common
  import opened Matching
  import opened Greedy

  /** What a finding's raw evidence says about its origin. */
  datatype Evidence = PacketEvidence(key: Key) | FlowEvidence(key: Key, bytesAddresses: bool)

  datatype Finding = Finding(decision: Decision, evidence: Evidence)

  datatype Classification = TruePositive | FalsePositive | FalseNegative | TrueNegative

  datatype Entry = Entry(
    classification: Option<Classification>,
    expectationIndex: Option<nat>, expectation: Option<Expectation>,
    actualIndex: Option<nat>, finding: Option<Finding>)

  datatype EvaluationError = OtherChannel | Contradictory

  /** A packet finding is identified by its position too; a flow finding is not. */
  function DetectionIdentity(f: Finding, index: nat): Identity
  {
    match f.evidence
    case PacketEvidence(key) => Identity(PacketName(index, key), true)
    case FlowEvidence(key, bytesAddresses) => Identity(FlowName(key), bytesAddresses)
  }

  predicate InChannel(f: Finding, packet: bool) { f.evidence.PacketEvidence? == packet }

  function Classify(expectation: Option<Expectation>, finding: Option<Finding>): Option<Classification>
  {
    if finding.Some? && finding.value.decision == Match then
      Some(if expectation.Some? && expectation.value.positive then TruePositive else FalsePositive)
    else if expectation.Some? && expectation.value.positive then Some(FalseNegative)
    else if expectation.Some? && finding.Some? && finding.value.decision == NoMatch then Some(TrueNegative)
    else None
  }

  /** The findings beside their identities, `first` being the position of the first one. */
  function Label(fs: seq<Finding>, first: nat): (r: seq<Labelled>)
    ensures |r| == |fs|
    ensures forall i :: 0 <= i < |fs| ==> r[i] == Labelled(DetectionIdentity(fs[i], first + i), fs[i].decision)
  {
    seq(|fs|, i requires 0 <= i < |fs| => Labelled(DetectionIdentity(fs[i], first + i), fs[i].decision))
  }

  function FindingEntry(f: Finding, index: nat, exps: seq<Expectation>, matched: Option<nat>): Entry
    requires matched.Some? ==> matched.value < |exps|
  {
    var expectation := if matched.Some? then Some(exps[matched.value]) else None;
    Entry(Classify(expectation, Some(f)), matched, expectation, Some(index), Some(f))
  }

  function Lookup(pairs: map<nat, nat>, i: nat): Option<nat> { if i in pairs then Some(pairs[i]) else None }

  ghost predicate Targets(pairs: map<nat, nat>, exps: seq<Expectation>)
  {
    forall i :: i in pairs ==> pairs[i] < |exps|
  }

  /** One entry per finding, in order. */
  ghost function FindingEntries(fs: seq<Finding>, first: nat, exps: seq<Expectation>, pairs: map<nat, nat>,
          n: nat): (r: seq<Entry>)
    requires n <= |fs| && Targets(pairs, exps)
    ensures |r| == n
  {
    if n == 0 then []
    else
      FindingEntries(fs, first, exps, pairs, n - 1)
      + [FindingEntry(fs[n - 1], first + n - 1, exps, Lookup(pairs, n - 1))]
  }

  /** One entry per expectation below `n` that no finding took, in order. */
  ghost function MissedEntries(exps: seq<Expectation>, used: set<nat>, n: nat): seq<Entry>
    requires n <= |exps|
  {
    if n == 0 then []
    else MissedEntries(exps, used, n - 1)
         + if n - 1 in used then []
           else [Entry(Classify(Some(exps[n - 1]), None), Some(n - 1), Some(exps[n - 1]), None, None)]
  }

  /** The meaning of evaluating a whole channel at once. */
  ghost function BatchEntries(fs: seq<Finding>, exps: seq<Expectation>): seq<Entry>
    requires NonContradictory(exps)
  {
    var m := MatchAll(Label(fs, 0), exps, {});
    MatchAllIsGreedy(Label(fs, 0), exps, {});
    FindingEntries(fs, 0, exps, m.pairs, |fs|) + MissedEntries(exps, m.used, |exps|)
  }
}
