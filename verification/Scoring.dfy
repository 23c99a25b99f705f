/**
 * What the entries of an evaluation add up to: every finding and every
 * expectation is scored once, and the confusion matrix is determined, identity
 * by identity, by how many findings and expectations there are.
 */
module Scoring {
  import opened Common
  import opened Matching
  import opened Greedy
  import opened EvaluationSpec

  /** Where the entries with this classification are. */
  ghost function Cells(entries: seq<Entry>, c: Classification): set<nat>
  {
    set i: nat | i < |entries| && entries[i].classification == Some(c)
  }

  ghost function Positives(exps: seq<Expectation>): set<nat>
  {
    set e: nat | e < |exps| && exps[e].positive
  }

  ghost function Matches(fs: seq<Finding>): set<nat>
  {
    set i: nat | i < |fs| && fs[i].decision == Match
  }

  /** An entry of a finding that decided against a match, beside an expectation that agrees. */
  predicate AgreesOnNothing(e: Entry)
  {
    e.finding.Some? && e.finding.value.decision == NoMatch && e.expectation.Some? && !e.expectation.value.positive
  }

  predicate Matched(e: Entry) { e.finding.Some? && e.finding.value.decision == Match }

  predicate Wanted(e: Entry) { e.expectation.Some? && e.expectation.value.positive }

  /** Which entries are classified at all, and which are true negatives. */
  ghost predicate Judged(entries: seq<Entry>)
  {
    forall e :: e in entries ==>
      && (e.classification == Some(TrueNegative) <==> AgreesOnNothing(e))
      && (e.classification.None? <==> !Matched(e) && !Wanted(e) && !AgreesOnNothing(e))
  }

  predicate SameExpectation(a: Entry, b: Entry)
  {
    a.expectationIndex.Some? && a.expectationIndex == b.expectationIndex
  }

  /** Every finding and every expectation has one entry. */
  ghost predicate CoversOnce(entries: seq<Entry>, fs: seq<Finding>, exps: seq<Expectation>)
  {
    && |fs| <= |entries|
    && (forall i :: 0 <= i < |entries| ==>
          && (if i < |fs| then entries[i].actualIndex == Some(i) && entries[i].finding == Some(fs[i])
              else entries[i].actualIndex.None? && entries[i].finding.None? && entries[i].expectationIndex.Some?)
          && (entries[i].expectation.Some? <==> entries[i].expectationIndex.Some?)
          && (entries[i].expectationIndex.Some? ==>
                && entries[i].expectationIndex.value < |exps|
                && entries[i].expectation == Some(exps[entries[i].expectationIndex.value])))
    && (forall i, j :: 0 <= i < |entries| && 0 <= j < |entries| && SameExpectation(entries[i], entries[j]) ==> i == j)
    && (forall e: nat :: e < |exps| ==> Judges(entries, e))
  }

  ghost predicate Judges(entries: seq<Entry>, e: nat)
  {
    exists i :: 0 <= i < |entries| && entries[i].expectationIndex == Some(e)
  }

  /**
   * A finding stands beside expectations of its own identity only: a packet's position
   * belongs to it, a flow's does not.
   */
  ghost predicate OwnIdentity(entries: seq<Entry>)
  {
    forall i: nat :: i < |entries| && entries[i].finding.Some? && entries[i].expectation.Some? ==>
      Owns(entries[i].finding.value, i, entries[i].expectation.value.identity.name)
  }

  predicate Owns(f: Finding, i: nat, name: Name)
  {
    if f.evidence.PacketEvidence? then name == PacketName(i, f.evidence.key) else name == FlowName(f.evidence.key)
  }

  /** Precision and recall count every matching finding and every positive expectation once. */
  ghost predicate Scored(entries: seq<Entry>, fs: seq<Finding>, exps: seq<Expectation>)
  {
    && CoversOnce(entries, fs, exps) && OwnIdentity(entries) && Judged(entries)
    && |Cells(entries, TruePositive)| + |Cells(entries, FalseNegative)| == |Positives(exps)|
    && |Cells(entries, TruePositive)| + |Cells(entries, FalsePositive)| == |Matches(fs)|
  }

  // ---------------------------------------------------------------- one entry each

  /** Entries of expectations that no finding took: each such expectation once, in order. */
  ghost predicate Missed(r: seq<Entry>, exps: seq<Expectation>, used: set<nat>, n: nat)
    requires n <= |exps|
  {
    && (forall k :: 0 <= k < |r| ==>
          && r[k].actualIndex.None? && r[k].finding.None? && r[k].expectationIndex.Some?
          && r[k].expectationIndex.value < n && r[k].expectationIndex.value !in used
          && r[k].expectation == Some(exps[r[k].expectationIndex.value]))
    && (forall j, k :: 0 <= j < k < |r| ==> r[j].expectationIndex.value < r[k].expectationIndex.value)
  }

  lemma {:induction false} MissedAre(exps: seq<Expectation>, used: set<nat>, n: nat)
    requires n <= |exps|
    ensures Missed(MissedEntries(exps, used, n), exps, used, n)
  {
    hide Classify;
    if n > 0 { MissedAre(exps, used, n - 1); }
  }

  lemma {:induction false} MissedIsThere(exps: seq<Expectation>, used: set<nat>, n: nat, e: nat)
    requires e < n <= |exps| && e !in used
    ensures Judges(MissedEntries(exps, used, n), e)
  {
    hide Classify;
    var less, r := MissedEntries(exps, used, n - 1), MissedEntries(exps, used, n);
    if e < n - 1 {
      MissedIsThere(exps, used, n - 1, e);
      var i :| 0 <= i < |less| && less[i].expectationIndex == Some(e);
      assert r[i].expectationIndex == Some(e);
    } else {
      assert r[|less|].expectationIndex == Some(e);
    }
  }

  lemma {:induction false} FoundAre(fs: seq<Finding>, exps: seq<Expectation>, pairs: map<nat, nat>, n: nat)
    requires n <= |fs| && Targets(pairs, exps)
    ensures var r := FindingEntries(fs, 0, exps, pairs, n);
            forall i :: 0 <= i < n ==>
              && r[i].actualIndex == Some(i) && r[i].finding == Some(fs[i]) && r[i].expectationIndex == Lookup(pairs, i)
              && r[i].expectation == if i in pairs then Some(exps[pairs[i]]) else None
  {
    hide Classify;
    if n > 0 { FoundAre(fs, exps, pairs, n - 1); }
  }

  /** The entries of an evaluation: those of the findings, then the missed ones. */
  lemma {:induction false} BatchParts(fs: seq<Finding>, exps: seq<Expectation>)
    requires NonContradictory(exps)
    ensures var m := MatchAll(Label(fs, 0), exps, {});
            && IsMatching(Label(fs, 0), exps, {}, m.pairs) && Targets(m.pairs, exps) && m.used == m.pairs.Values
            && BatchEntries(fs, exps)
               == FindingEntries(fs, 0, exps, m.pairs, |fs|) + MissedEntries(exps, m.used, |exps|)
  {
    hide MatchAll, FindingEntries, MissedEntries, Label, NonContradictory;
    MatchAllIsGreedy(Label(fs, 0), exps, {});
    assert {} + MatchAll(Label(fs, 0), exps, {}).pairs.Values == MatchAll(Label(fs, 0), exps, {}).pairs.Values;
  }

  lemma {:induction false} EveryPartOnce(fs: seq<Finding>, exps: seq<Expectation>)
    requires NonContradictory(exps)
    ensures CoversOnce(BatchEntries(fs, exps), fs, exps)
  {
    hide MatchAll, FindingEntries, MissedEntries, Label, NonContradictory, BatchEntries, SameName;
    var m := MatchAll(Label(fs, 0), exps, {});
    BatchParts(fs, exps);
    FoundAre(fs, exps, m.pairs, |fs|);
    MissedAre(exps, m.used, |exps|);
    forall e: nat | e < |exps| && e !in m.used ensures Judges(MissedEntries(exps, m.used, |exps|), e) {
      MissedIsThere(exps, m.used, |exps|, e);
    }
    PartsOnce(fs, exps, m.pairs, FindingEntries(fs, 0, exps, m.pairs, |fs|), MissedEntries(exps, m.used, |exps|));
  }

  lemma {:induction false} PartsOnce(fs: seq<Finding>, exps: seq<Expectation>, pairs: map<nat, nat>, found: seq<Entry>,
          missed: seq<Entry>)
    requires |found| == |fs| && forall i :: i in pairs ==> i < |fs| && pairs[i] < |exps|
    requires forall i, j :: i in pairs && j in pairs && pairs[i] == pairs[j] ==> i == j
    requires forall i :: 0 <= i < |fs| ==>
               && found[i].actualIndex == Some(i) && found[i].finding == Some(fs[i])
               && found[i].expectationIndex == Lookup(pairs, i)
               && found[i].expectation == if i in pairs then Some(exps[pairs[i]]) else None
    requires forall k :: 0 <= k < |missed| ==>
               && missed[k].actualIndex.None? && missed[k].finding.None? && missed[k].expectationIndex.Some?
               && missed[k].expectationIndex.value < |exps| && missed[k].expectationIndex.value !in pairs.Values
               && missed[k].expectation == Some(exps[missed[k].expectationIndex.value])
    requires forall j, k :: 0 <= j < k < |missed|
                            ==> missed[j].expectationIndex.value < missed[k].expectationIndex.value
    requires forall e: nat :: e < |exps| && e !in pairs.Values ==> Judges(missed, e)
    ensures CoversOnce(found + missed, fs, exps)
  {
    var all := found + missed;
    assert forall i :: |fs| <= i < |all| ==> all[i] == missed[i - |fs|];
    forall e: nat | e < |exps| ensures Judges(all, e) {
      if e in pairs.Values {
        var i :| i in pairs && pairs[i] == e;
        assert all[i].expectationIndex == Some(e);
      } else {
        assert Judges(missed, e);
        var k :| 0 <= k < |missed| && missed[k].expectationIndex == Some(e);
        assert all[|fs| + k].expectationIndex == Some(e);
      }
    }
  }

  lemma {:induction false} OwnIdentities(fs: seq<Finding>, exps: seq<Expectation>)
    requires NonContradictory(exps)
    ensures OwnIdentity(BatchEntries(fs, exps))
  {
    hide MatchAll, FindingEntries, MissedEntries, NonContradictory, BatchEntries;
    var entries, m := BatchEntries(fs, exps), MatchAll(Label(fs, 0), exps, {});
    BatchParts(fs, exps);
    FoundAre(fs, exps, m.pairs, |fs|);
    MissedAre(exps, m.used, |exps|);
    forall i: nat | i < |entries| && entries[i].finding.Some? && entries[i].expectation.Some?
      ensures Owns(entries[i].finding.value, i, entries[i].expectation.value.identity.name)
    {
      assert SameName(Label(fs, 0), exps, i, m.pairs[i]);
    }
  }

  // ---------------------------------------------------------------- what the classes are

  /** Every entry carries the verdict of its own expectation and finding. */
  ghost predicate SelfClassified(entries: seq<Entry>)
  {
    forall e :: e in entries ==> e.classification == Classify(e.expectation, e.finding)
  }

  lemma {:induction false} FoundClassified(fs: seq<Finding>, exps: seq<Expectation>, pairs: map<nat, nat>, n: nat)
    requires n <= |fs| && Targets(pairs, exps)
    ensures SelfClassified(FindingEntries(fs, 0, exps, pairs, n))
  {
    hide Classify;
    if n > 0 { FoundClassified(fs, exps, pairs, n - 1); }
  }

  lemma {:induction false} MissedClassified(exps: seq<Expectation>, used: set<nat>, n: nat)
    requires n <= |exps|
    ensures SelfClassified(MissedEntries(exps, used, n))
  {
    hide Classify;
    if n > 0 { MissedClassified(exps, used, n - 1); }
  }

  lemma {:induction false} AllClassified(fs: seq<Finding>, exps: seq<Expectation>)
    requires NonContradictory(exps)
    ensures SelfClassified(BatchEntries(fs, exps))
  {
    hide MatchAll, FindingEntries, MissedEntries, Label, NonContradictory, BatchEntries, Classify, IsMatching;
    var m := MatchAll(Label(fs, 0), exps, {});
    BatchParts(fs, exps);
    FoundClassified(fs, exps, m.pairs, |fs|);
    MissedClassified(exps, m.used, |exps|);
  }

  lemma {:induction false} ClassesOf(e: Entry)
    requires e.classification == Classify(e.expectation, e.finding)
    ensures e.classification == Some(TruePositive) <==> Matched(e) && Wanted(e)
    ensures e.classification == Some(FalsePositive) <==> Matched(e) && !Wanted(e)
    ensures e.classification == Some(FalseNegative) <==> !Matched(e) && Wanted(e)
    ensures e.classification == Some(TrueNegative) <==> AgreesOnNothing(e)
    ensures e.classification.None? <==> !Matched(e) && !Wanted(e) && !AgreesOnNothing(e)
  { }

  lemma {:induction false} AllJudged(entries: seq<Entry>)
    requires SelfClassified(entries)
    ensures Judged(entries)
  {
    hide Classify, Matched, Wanted, AgreesOnNothing;
    forall e | e in entries
      ensures e.classification == Some(TrueNegative) <==> AgreesOnNothing(e)
      ensures e.classification.None? <==> !Matched(e) && !Wanted(e) && !AgreesOnNothing(e)
    {
      ClassesOf(e);
    }
  }

  // ---------------------------------------------------------------- counting

  lemma {:induction false} CellsAreDisjoint(entries: seq<Entry>, c: Classification, d: Classification)
    requires c != d
    ensures |Cells(entries, c) + Cells(entries, d)| == |Cells(entries, c)| + |Cells(entries, d)|
  {
    assert Cells(entries, c) !! Cells(entries, d);
  }

  /** Matching findings are the true and the false positives. */
  lemma {:induction false} MatchesAreScored(entries: seq<Entry>, fs: seq<Finding>, exps: seq<Expectation>)
    requires CoversOnce(entries, fs, exps) && SelfClassified(entries)
    ensures |Cells(entries, TruePositive)| + |Cells(entries, FalsePositive)| == |Matches(fs)|
  {
    hide Classify;
    CellsAreDisjoint(entries, TruePositive, FalsePositive);
    forall i: nat | i < |entries|
      ensures i in Cells(entries, TruePositive) + Cells(entries, FalsePositive) <==> i in Matches(fs)
    {
      ClassesOf(entries[i]);
    }
    assert Cells(entries, TruePositive) + Cells(entries, FalsePositive) == Matches(fs);
  }

  /** Positive expectations are the true positives and the false negatives. */
  lemma {:induction false} PositivesAreScored(entries: seq<Entry>, fs: seq<Finding>, exps: seq<Expectation>)
    requires CoversOnce(entries, fs, exps) && SelfClassified(entries)
    ensures |Cells(entries, TruePositive)| + |Cells(entries, FalseNegative)| == |Positives(exps)|
  {
    CellsAreDisjoint(entries, TruePositive, FalseNegative);
    var cells := Cells(entries, TruePositive) + Cells(entries, FalseNegative);
    WantedAreScored(entries);
    WantedAtMost(entries, fs, exps, cells);
    WantedAtLeast(entries, fs, exps, cells);
  }

  lemma {:induction false} WantedAreScored(entries: seq<Entry>)
    requires SelfClassified(entries)
    ensures forall i: nat :: i in Cells(entries, TruePositive) + Cells(entries, FalseNegative)
                             <==> i < |entries| && Wanted(entries[i])
  {
    hide Classify, Wanted;
    forall i: nat | i < |entries|
      ensures i in Cells(entries, TruePositive) + Cells(entries, FalseNegative) <==> Wanted(entries[i])
    {
      ClassesOf(entries[i]);
    }
  }

  lemma {:induction false} WantedAtMost(entries: seq<Entry>, fs: seq<Finding>, exps: seq<Expectation>, cells: set<nat>)
    requires CoversOnce(entries, fs, exps)
    requires forall i: nat :: i in cells <==> i < |entries| && Wanted(entries[i])
    ensures |cells| <= |Positives(exps)|
  {
    var there := map i: nat | i in cells :: entries[i].expectationIndex.value;
    forall i, j | i in cells && j in cells && there[i] == there[j] ensures i == j {
      assert SameExpectation(entries[i], entries[j]);
    }
    InjectionBound(cells, Positives(exps), there);
  }

  lemma {:induction false} WantedAtLeast(entries: seq<Entry>, fs: seq<Finding>, exps: seq<Expectation>, cells: set<nat>)
    requires CoversOnce(entries, fs, exps)
    requires forall i: nat :: i in cells <==> i < |entries| && Wanted(entries[i])
    ensures |Positives(exps)| <= |cells|
  {
    var back := map e: nat | e in Positives(exps) :: EntryOf(entries, fs, exps, e);
    InjectionBound(Positives(exps), cells, back);
  }

  ghost function EntryOf(entries: seq<Entry>, fs: seq<Finding>, exps: seq<Expectation>, e: nat): (i: nat)
    requires CoversOnce(entries, fs, exps) && e < |exps|
    ensures i < |entries| && entries[i].expectationIndex == Some(e)
  {
    assert Judges(entries, e);
    var i :| 0 <= i < |entries| && entries[i].expectationIndex == Some(e);
    i
  }

  /** For all findings and all expectations that do not contradict each other. */
  lemma {:induction false} EvaluationIsScored(fs: seq<Finding>, exps: seq<Expectation>)
    requires NonContradictory(exps)
    ensures Scored(BatchEntries(fs, exps), fs, exps)
  {
    hide BatchEntries, CoversOnce, OwnIdentity, SelfClassified, Judged, NonContradictory, Cells;
    var entries := BatchEntries(fs, exps);
    EveryPartOnce(fs, exps);
    OwnIdentities(fs, exps);
    AllClassified(fs, exps);
    AllJudged(entries);
    MatchesAreScored(entries, fs, exps);
    PositivesAreScored(entries, fs, exps);
  }

  // ---------------------------------------------------------------- the exact scores of an identity

  /** The expectations of one identity and polarity. */
  ghost function ExpectedOf(exps: seq<Expectation>, name: Name, positive: bool): set<nat>
  {
    set e: nat | e < |exps| && exps[e].identity.name == name && exps[e].positive == positive
  }

  /** The findings of one identity that decided so. */
  ghost function DecidedOf(fs: seq<Finding>, name: Name, d: Decision): set<nat>
  {
    set i: nat | i < |fs| && DetectionIdentity(fs[i], i).name == name && fs[i].decision == d
  }

  /** The findings of one identity whose entries have this classification. */
  ghost function CellsOf(entries: seq<Entry>, fs: seq<Finding>, name: Name, c: Classification): set<nat>
    requires |fs| <= |entries|
  {
    set i: nat | i < |fs| && DetectionIdentity(fs[i], i).name == name && entries[i].classification == Some(c)
  }

  /** The findings of one identity served with an expectation of this polarity that they agree with. */
  ghost function Agreeing(ls: seq<Labelled>, exps: seq<Expectation>, pairs: map<nat, nat>, name: Name, positive: bool)
    : set<nat>
  {
    set i: nat | i in pairs && i < |ls| && pairs[i] < |exps| && ls[i].identity.name == name
                 && ls[i].decision == Required(positive) && exps[pairs[i]].positive == positive
  }

  ghost function Deciding(ls: seq<Labelled>, name: Name, d: Decision): set<nat>
  {
    set i: nat | i < |ls| && ls[i].identity.name == name && ls[i].decision == d
  }

  /** A greedy assignment serves as many agreeing findings of an identity as there can be at all. */
  lemma {:induction false} GreedyServesAgreeing(ls: seq<Labelled>, exps: seq<Expectation>, pairs: map<nat, nat>,
          name: Name, positive: bool)
    requires NonContradictory(exps) && IsGreedy(ls, exps, {}, pairs)
    ensures |Agreeing(ls, exps, pairs, name, positive)|
            == Min(|ExpectedOf(exps, name, positive)|, |Deciding(ls, name, Required(positive))|)
  {
    hide NonContradictory, IsGreedy;
    var served, wanted := Agreeing(ls, exps, pairs, name, positive), ExpectedOf(exps, name, positive);
    var able := Deciding(ls, name, Required(positive));
    ServedAtMost(ls, exps, pairs, name, positive);
    if wanted == {} {
    } else if able <= pairs.Keys {
      AllServed(ls, exps, pairs, name, positive);
    } else {
      var i :| i in able && i !in pairs;
      AllTaken(ls, exps, pairs, name, positive, i);
    }
  }

  lemma {:induction false} Subset(a: set<nat>, b: set<nat>)
    requires a <= b
    ensures |a| <= |b|
  {
    assert b == a + (b - a);
  }

  lemma {:induction false} ServedAtMost(ls: seq<Labelled>, exps: seq<Expectation>, pairs: map<nat, nat>, name: Name,
          positive: bool)
    requires IsGreedy(ls, exps, {}, pairs)
    ensures |Agreeing(ls, exps, pairs, name, positive)| <= |ExpectedOf(exps, name, positive)|
    ensures |Agreeing(ls, exps, pairs, name, positive)| <= |Deciding(ls, name, Required(positive))|
  {
    assert IsMatching(ls, exps, {}, pairs);
    InjectionBound(Agreeing(ls, exps, pairs, name, positive), ExpectedOf(exps, name, positive), pairs);
    Subset(Agreeing(ls, exps, pairs, name, positive), Deciding(ls, name, Required(positive)));
  }

  lemma {:induction false} AllServed(ls: seq<Labelled>, exps: seq<Expectation>, pairs: map<nat, nat>, name: Name,
          positive: bool)
    requires NonContradictory(exps) && IsGreedy(ls, exps, {}, pairs)
    requires ExpectedOf(exps, name, positive) != {} && Deciding(ls, name, Required(positive)) <= pairs.Keys
    ensures Agreeing(ls, exps, pairs, name, positive) == Deciding(ls, name, Required(positive))
  {
    assert IsMatching(ls, exps, {}, pairs);
    var e :| e in ExpectedOf(exps, name, positive);
    forall i | i in Deciding(ls, name, Required(positive)) ensures i in Agreeing(ls, exps, pairs, name, positive) {
      assert SameName(ls, exps, i, pairs[i]);
    }
  }

  lemma {:induction false} AllTaken(ls: seq<Labelled>, exps: seq<Expectation>, pairs: map<nat, nat>, name: Name,
          positive: bool, i: nat)
    requires NonContradictory(exps) && IsGreedy(ls, exps, {}, pairs)
    requires i in Deciding(ls, name, Required(positive)) && i !in pairs
    ensures |ExpectedOf(exps, name, positive)| <= |Agreeing(ls, exps, pairs, name, positive)|
  {
    hide NonContradictory;
    forall e | e in ExpectedOf(exps, name, positive)
      ensures exists j :: j in pairs && pairs[j] == e && j in Agreeing(ls, exps, pairs, name, positive)
    {
      TakenByAgreeing(ls, exps, pairs, name, positive, i, e);
    }
    var back := map e | e in ExpectedOf(exps, name, positive) :: Taker(ls, exps, pairs, name, positive, e);
    InjectionBound(ExpectedOf(exps, name, positive), Agreeing(ls, exps, pairs, name, positive), back);
  }

  ghost function Taker(ls: seq<Labelled>, exps: seq<Expectation>, pairs: map<nat, nat>, name: Name, positive: bool,
          e: nat): (j: nat)
    requires exists j :: j in pairs && pairs[j] == e && j in Agreeing(ls, exps, pairs, name, positive)
    ensures j in pairs && pairs[j] == e && j in Agreeing(ls, exps, pairs, name, positive)
  {
    var j :| j in pairs && pairs[j] == e && j in Agreeing(ls, exps, pairs, name, positive);
    j
  }

  /** Beside an agreeing finding that got nothing, every expectation went to another agreeing one. */
  lemma {:induction false} TakenByAgreeing(ls: seq<Labelled>, exps: seq<Expectation>, pairs: map<nat, nat>,
          name: Name, positive: bool, i: nat, e: nat)
    requires IsGreedy(ls, exps, {}, pairs)
    requires i in Deciding(ls, name, Required(positive)) && i !in pairs && e in ExpectedOf(exps, name, positive)
    ensures exists j :: j in pairs && pairs[j] == e && j in Agreeing(ls, exps, pairs, name, positive)
  {
    assert NothingLeft(ls, exps, {}, pairs, i, e);
    var j :| j in pairs && pairs[j] == e;
    assert SameName(ls, exps, j, e);
    assert ServedInOrder(ls, exps, pairs, i, j);
  }

  /**
   * The scores of every identity, whatever the order of findings and expectations: as
   * many true positives as there are positive expectations and matching findings to
   * pair, and as many true negatives as negative expectations and findings against a match.
   */
  lemma {:induction false} ScoresAreExact(fs: seq<Finding>, exps: seq<Expectation>, name: Name)
    requires NonContradictory(exps)
    ensures |BatchEntries(fs, exps)| >= |fs|
    ensures |CellsOf(BatchEntries(fs, exps), fs, name, TruePositive)|
            == Min(|ExpectedOf(exps, name, true)|, |DecidedOf(fs, name, Match)|)
    ensures |CellsOf(BatchEntries(fs, exps), fs, name, TrueNegative)|
            == Min(|ExpectedOf(exps, name, false)|, |DecidedOf(fs, name, NoMatch)|)
  {
    hide MatchAll, BatchEntries, NonContradictory, IsGreedy, Label, CellsOf, Agreeing, Deciding, DecidedOf, CoversOnce;
    var ls := Label(fs, 0);
    MatchAllIsGreedy(ls, exps, {});
    EveryPartOnce(fs, exps);
    CoversAll(BatchEntries(fs, exps), fs, exps);
    GreedyServesAgreeing(ls, exps, MatchAll(ls, exps, {}).pairs, name, true);
    GreedyServesAgreeing(ls, exps, MatchAll(ls, exps, {}).pairs, name, false);
    LabelsDecide(fs, name, Match);
    LabelsDecide(fs, name, NoMatch);
    CellsAgree(fs, exps, name);
  }

  lemma {:induction false} CoversAll(entries: seq<Entry>, fs: seq<Finding>, exps: seq<Expectation>)
    requires CoversOnce(entries, fs, exps)
    ensures |entries| >= |fs|
  { }

  lemma {:induction false} LabelsDecide(fs: seq<Finding>, name: Name, d: Decision)
    ensures Deciding(Label(fs, 0), name, d) == DecidedOf(fs, name, d)
  { }

  lemma {:induction false} CellsAgree(fs: seq<Finding>, exps: seq<Expectation>, name: Name)
    requires NonContradictory(exps) && |BatchEntries(fs, exps)| >= |fs|
    ensures var pairs := MatchAll(Label(fs, 0), exps, {}).pairs;
            && CellsOf(BatchEntries(fs, exps), fs, name, TruePositive)
               == Agreeing(Label(fs, 0), exps, pairs, name, true)
            && CellsOf(BatchEntries(fs, exps), fs, name, TrueNegative)
               == Agreeing(Label(fs, 0), exps, pairs, name, false)
  {
    hide MatchAll, BatchEntries, NonContradictory, FindingEntries, MissedEntries, Classify, SameName;
    var entries, m := BatchEntries(fs, exps), MatchAll(Label(fs, 0), exps, {});
    BatchParts(fs, exps);
    AllClassified(fs, exps);
    FoundAre(fs, exps, m.pairs, |fs|);
    forall i: nat | i < |fs|
      ensures entries[i].classification == Some(TruePositive)
              <==> i in m.pairs && fs[i].decision == Match && exps[m.pairs[i]].positive
      ensures entries[i].classification == Some(TrueNegative)
              <==> i in m.pairs && fs[i].decision == NoMatch && !exps[m.pairs[i]].positive
    {
      assert entries[i] == FindingEntries(fs, 0, exps, m.pairs, |fs|)[i];
      ClassesOf(entries[i]);
    }
  }
}
