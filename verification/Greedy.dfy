/**
 * What the three-phase search computes, said without phases or loops: a
 * greedy assignment. There is only one, and no other matching beats it.
 */
module Greedy {
  import opened Common
  import opened Matching

  /** 0 for the required decision, 1 for the opposite one, 2 for not evaluable. */
  function Rank(d: Decision, positive: bool): nat
  {
    if d == Required(positive) then 0 else if d == Required(!positive) then 1 else 2
  }

  /** Finding `i` is served before finding `j` for expectations of this polarity. */
  predicate Before(fs: seq<Labelled>, positive: bool, i: nat, j: nat)
    requires i < |fs| && j < |fs|
  {
    var r, s := Rank(fs[i].decision, positive), Rank(fs[j].decision, positive);
    r < s || (r == s && i < j)
  }

  predicate SameName(fs: seq<Labelled>, exps: seq<Expectation>, i: nat, e: nat)
    requires i < |fs| && e < |exps|
  {
    fs[i].identity.name == exps[e].identity.name
  }

  /** One-to-one, identity respecting, and outside the expectations already used. */
  ghost predicate IsMatching(fs: seq<Labelled>, exps: seq<Expectation>, used: set<nat>, pairs: map<nat, nat>)
  {
    && (forall i :: i in pairs ==> i < |fs| && pairs[i] < |exps| && pairs[i] !in used
                                   && SameName(fs, exps, i, pairs[i]))
    && (forall i, j :: i in pairs && j in pairs && pairs[i] == pairs[j] ==> i == j)
  }

  ghost predicate ServedInOrder(fs: seq<Labelled>, exps: seq<Expectation>, pairs: map<nat, nat>, i: nat, j: nat)
    requires i < |fs| && j < |fs| && j in pairs && pairs[j] < |exps|
  {
    fs[i].identity.name == fs[j].identity.name && Before(fs, exps[pairs[j]].positive, i, j)
    ==> i in pairs && pairs[i] < pairs[j]
  }

  ghost predicate TakenInOrder(fs: seq<Labelled>, exps: seq<Expectation>, used: set<nat>, pairs: map<nat, nat>, j: nat,
          e: nat)
    requires j < |fs| && j in pairs && e < |exps|
  {
    e < pairs[j] && e !in used && SameName(fs, exps, j, e) ==> e in pairs.Values
  }

  ghost predicate NothingLeft(fs: seq<Labelled>, exps: seq<Expectation>, used: set<nat>, pairs: map<nat, nat>, i: nat,
          e: nat)
    requires i < |fs| && e < |exps|
  {
    i !in pairs && e !in used && SameName(fs, exps, i, e) ==> e in pairs.Values
  }

  /**
   * Findings are served in `Before` order, expectations are taken in index
   * order, and no finding and expectation of one identity are both left over.
   */
  ghost predicate IsGreedy(fs: seq<Labelled>, exps: seq<Expectation>, used: set<nat>, pairs: map<nat, nat>)
  {
    && IsMatching(fs, exps, used, pairs)
    && (forall i: nat, j: nat :: i < |fs| && j in pairs ==> ServedInOrder(fs, exps, pairs, i, j))
    && (forall j: nat, e: nat :: j in pairs && e < |exps| ==> TakenInOrder(fs, exps, used, pairs, j, e))
    && (forall i: nat, e: nat :: i < |fs| && e < |exps| ==> NothingLeft(fs, exps, used, pairs, i, e))
  }

  // ---------------------------------------------------------------- uniqueness

  lemma {:induction false} GreedyStepAgrees(fs: seq<Labelled>, exps: seq<Expectation>, used: set<nat>,
          a: map<nat, nat>, b: map<nat, nat>, i: nat)
    requires NonContradictory(exps)
    requires IsGreedy(fs, exps, used, a) && IsGreedy(fs, exps, used, b)
    requires i in a
    requires forall j: nat :: (j < |fs| && fs[j].identity.name == fs[i].identity.name
                               && Before(fs, exps[a[i]].positive, j, i)
               ==> j in a && j in b && a[j] == b[j])
    ensures i in b && b[i] <= a[i]
  {
    var e := a[i];
    if i !in b || e < b[i] {
      assert e in b.Values by {
        if i !in b {
          assert NothingLeft(fs, exps, used, b, i, e);
        } else {
          assert TakenInOrder(fs, exps, used, b, i, e);
        }
      }
      var k :| k in b && b[k] == e;
      assert ServedInOrder(fs, exps, b, i, k);
      assert SameName(fs, exps, k, e);
      assert Before(fs, exps[e].positive, k, i);
      assert false;
    }
  }

  /** How many served-earlier positions there can be: the induction measure. */
  function Position(fs: seq<Labelled>, positive: bool, i: nat): nat
    requires i < |fs|
  {
    Rank(fs[i].decision, positive) * |fs| + i
  }

  lemma {:induction false} GreedyAgrees(fs: seq<Labelled>, exps: seq<Expectation>, used: set<nat>, a: map<nat, nat>,
          b: map<nat, nat>, i: nat)
    requires NonContradictory(exps)
    requires IsGreedy(fs, exps, used, a) && IsGreedy(fs, exps, used, b)
    requires i in a
    ensures i in b && a[i] == b[i]
    decreases Position(fs, exps[a[i]].positive, i)
  {
    var positive := exps[a[i]].positive;
    forall j: nat | j < |fs| && fs[j].identity.name == fs[i].identity.name && Before(fs, positive, j, i)
      ensures j in a && j in b && a[j] == b[j]
    {
      assert ServedInOrder(fs, exps, a, j, i);
      assert exps[a[j]].positive == positive;
      assert Rank(fs[j].decision, positive) < Rank(fs[i].decision, positive) ==>
        (Rank(fs[j].decision, positive) + 1) * |fs| <= Rank(fs[i].decision, positive) * |fs|;
      GreedyAgrees(fs, exps, used, a, b, j);
    }
    GreedyStepAgrees(fs, exps, used, a, b, i);
    GreedyStepAgrees(fs, exps, used, b, a, i);
  }

  /** There is at most one greedy assignment. */
  lemma {:induction false} GreedyIsUnique(fs: seq<Labelled>, exps: seq<Expectation>, used: set<nat>, a: map<nat, nat>,
          b: map<nat, nat>)
    requires NonContradictory(exps)
    requires IsGreedy(fs, exps, used, a) && IsGreedy(fs, exps, used, b)
    ensures a == b
  {
    forall i | i in a ensures i in b && a[i] == b[i] { GreedyAgrees(fs, exps, used, a, b, i); }
    forall i | i in b ensures i in a { GreedyAgrees(fs, exps, used, b, a, i); }
  }

  // ---------------------------------------------------------------- the search is greedy

  /** What holds of the search state before expectation `e` of phase `phase`. */
  ghost predicate Progress(fs: seq<Labelled>, exps: seq<Expectation>, used: set<nat>, phase: nat, e: nat,
          st: Assignment)
  {
    && IsMatching(fs, exps, used, st.pairs)
    && st.used == used + st.pairs.Values
    && (forall i: nat, j: nat :: i < |fs| && j in st.pairs ==> ServedInOrder(fs, exps, st.pairs, i, j))
    && (forall j: nat, d: nat :: j in st.pairs && d < |exps| ==> TakenInOrder(fs, exps, used, st.pairs, j, d))
    && (forall i: nat, d: nat :: i < |fs| && d < |exps| ==> Exhausted(fs, exps, phase, e, st, i, d))
  }

  /** A finding and an expectation that are both still free could not have met so far. */
  ghost predicate Exhausted(fs: seq<Labelled>, exps: seq<Expectation>, phase: nat, e: nat, st: Assignment, i: nat,
          d: nat)
    requires i < |fs| && d < |exps|
  {
    i !in st.pairs && d !in st.used && SameName(fs, exps, i, d)
    ==> Rank(fs[i].decision, exps[d].positive) >= if d < e then phase + 1 else phase
  }

  lemma {:induction false} RankIsPhase(d: Decision, positive: bool, phase: nat)
    requires phase < 3
    ensures Rank(d, positive) == phase <==> d == Wanted(phase, positive)
  { }

  lemma {:induction false} StepIsGreedy(fs: seq<Labelled>, exps: seq<Expectation>, used: set<nat>, phase: nat, e: nat,
          st: Assignment)
    requires NonContradictory(exps) && phase < 3 && e < |exps|
    requires Progress(fs, exps, used, phase, e, st)
    ensures Progress(fs, exps, used, phase, e + 1, MatchStep(fs, exps, phase, e, st))
  {
    var st', next := MatchStep(fs, exps, phase, e, st), e + 1;
    forall i: nat, d: nat | i < |fs| && d < |exps| ensures Exhausted(fs, exps, phase, next, st', i, d) {
      StepExhausts(fs, exps, used, phase, e, st, i, d);
    }
    if st' != st {
      var i := First(fs, st.pairs, exps[e].identity.name, Wanted(phase, exps[e].positive), |fs|).value;
      ValuesAfter(st.pairs, i, e);
      forall a: nat, b: nat | a < |fs| && b in st'.pairs ensures ServedInOrder(fs, exps, st'.pairs, a, b) {
        StepServesInOrder(fs, exps, used, phase, e, st, i, a, b);
      }
      forall j: nat, d: nat | j in st'.pairs && d < |exps| ensures TakenInOrder(fs, exps, used, st'.pairs, j, d) {
        StepTakesInOrder(fs, exps, used, phase, e, st, i, j, d);
      }
    }
  }

  lemma {:induction false} ValuesAfter(pairs: map<nat, nat>, i: nat, e: nat)
    requires i !in pairs
    ensures pairs[i := e].Values == pairs.Values + {e}
  {
    var pairs' := pairs[i := e];
    assert i in pairs' && pairs'[i] == e;
    forall v | v in pairs.Values ensures v in pairs'.Values {
      var j :| j in pairs && pairs[j] == v;
      assert j in pairs' && pairs'[j] == v;
    }
  }

  lemma {:induction false} StepExhausts(fs: seq<Labelled>, exps: seq<Expectation>, used: set<nat>, phase: nat, e: nat,
          st: Assignment, i: nat, d: nat)
    requires phase < 3 && e < |exps| && i < |fs| && d < |exps|
    requires Exhausted(fs, exps, phase, e, st, i, d)
    ensures Exhausted(fs, exps, phase, e + 1, MatchStep(fs, exps, phase, e, st), i, d)
  {
    var name, decision := exps[e].identity.name, Wanted(phase, exps[e].positive);
    RankIsPhase(fs[i].decision, exps[d].positive, phase);
    if d == e && SameName(fs, exps, i, d) && i !in st.pairs && fs[i].decision == decision {
      assert Eligible(fs, st.pairs, name, decision, i);
    }
  }

  ghost predicate TakenBy(fs: seq<Labelled>, exps: seq<Expectation>, phase: nat, e: nat, st: Assignment, i: nat)
    requires phase < 3 && e < |exps|
  {
    var name, decision := exps[e].identity.name, Wanted(phase, exps[e].positive);
    && e !in st.used
    && First(fs, st.pairs, name, decision, |fs|) == Some(i)
  }

  lemma {:induction false} StepServesInOrder(fs: seq<Labelled>, exps: seq<Expectation>, used: set<nat>, phase: nat,
          e: nat, st: Assignment, i: nat, a: nat, b: nat)
    requires NonContradictory(exps) && phase < 3 && e < |exps|
    requires Progress(fs, exps, used, phase, e, st) && TakenBy(fs, exps, phase, e, st, i)
    requires a < |fs| && b in st.pairs.Keys + {i}
    ensures ServedInOrder(fs, exps, st.pairs[i := e], a, b)
  {
    var name, decision := exps[e].identity.name, Wanted(phase, exps[e].positive);
    if b != i {
      assert ServedInOrder(fs, exps, st.pairs, a, b);
    } else if fs[a].identity.name == name && Before(fs, exps[e].positive, a, i) {
      if a !in st.pairs {
        assert Exhausted(fs, exps, phase, e, st, a, e);
        RankIsPhase(fs[a].decision, exps[e].positive, phase);
        RankIsPhase(fs[i].decision, exps[e].positive, phase);
        assert Eligible(fs, st.pairs, name, decision, a);
        assert false;
      }
      assert TakenInOrder(fs, exps, used, st.pairs, a, e);
    }
  }

  lemma {:induction false} StepTakesInOrder(fs: seq<Labelled>, exps: seq<Expectation>, used: set<nat>, phase: nat,
          e: nat, st: Assignment, i: nat, j: nat, d: nat)
    requires NonContradictory(exps) && phase < 3 && e < |exps|
    requires Progress(fs, exps, used, phase, e, st) && TakenBy(fs, exps, phase, e, st, i)
    requires j in st.pairs.Keys + {i} && d < |exps|
    ensures TakenInOrder(fs, exps, used, st.pairs[i := e], j, d)
  {
    ValuesAfter(st.pairs, i, e);
    if j == i {
      assert Exhausted(fs, exps, phase, e, st, i, d);
      RankIsPhase(fs[i].decision, exps[d].positive, phase);
    } else {
      assert TakenInOrder(fs, exps, used, st.pairs, j, d);
    }
  }

  lemma {:induction false} SearchIsGreedy(fs: seq<Labelled>, exps: seq<Expectation>, used: set<nat>, phase: nat,
          e: nat, st: Assignment)
    requires NonContradictory(exps) && phase <= 3 && e <= |exps|
    requires Progress(fs, exps, used, phase, e, st)
    ensures var r := MatchFrom(fs, exps, phase, e, st);
            IsGreedy(fs, exps, used, r.pairs) && r.used == used + r.pairs.Values
    decreases 3 - phase, |exps| - e
  {
    if phase == 3 {
      forall i: nat, d: nat | i < |fs| && d < |exps| ensures NothingLeft(fs, exps, used, st.pairs, i, d) {
        assert Exhausted(fs, exps, phase, e, st, i, d);
      }
    } else if e == |exps| {
      var next := phase + 1;
      forall i: nat, d: nat | i < |fs| && d < |exps| ensures Exhausted(fs, exps, next, 0, st, i, d) {
        assert Exhausted(fs, exps, phase, e, st, i, d);
      }
      SearchIsGreedy(fs, exps, used, phase + 1, 0, st);
    } else {
      StepIsGreedy(fs, exps, used, phase, e, st);
      SearchIsGreedy(fs, exps, used, phase, e + 1, MatchStep(fs, exps, phase, e, st));
    }
  }

  /** With non-contradictory expectations the three phases compute the greedy assignment, and only that. */
  lemma {:induction false} MatchAllIsGreedy(fs: seq<Labelled>, exps: seq<Expectation>, used: set<nat>)
    requires NonContradictory(exps)
    ensures var r := MatchAll(fs, exps, used);
            IsGreedy(fs, exps, used, r.pairs) && r.used == used + r.pairs.Values
  {
    forall i: nat, d: nat | i < |fs| && d < |exps| ensures Exhausted(fs, exps, 0, 0, Assignment(map[], used), i, d) { }
    SearchIsGreedy(fs, exps, used, 0, 0, Assignment(map[], used));
  }

  // ---------------------------------------------------------------- optimality

  /** Assigned findings of `pairs` whose rank for their expectation is at most `rank`. */
  ghost function Served(fs: seq<Labelled>, exps: seq<Expectation>, pairs: map<nat, nat>, rank: nat): (r: set<nat>)
    requires forall i :: i in pairs ==> i < |fs| && pairs[i] < |exps|
  {
    set i | i in pairs && Rank(fs[i].decision, exps[pairs[i]].positive) <= rank
  }

  /** The finding that has taken expectation `e`. */
  ghost function Taker(pairs: map<nat, nat>, e: nat): (i: nat)
    requires e in pairs.Values
    ensures i in pairs && pairs[i] == e
  {
    var i :| i in pairs && pairs[i] == e; i
  }

  /** Some finding of this identity that matching `other` serves within `rank` goes unserved by `pairs`. */
  ghost predicate Starved(fs: seq<Labelled>, exps: seq<Expectation>, pairs: map<nat, nat>, other: map<nat, nat>,
          rank: nat, name: Name)
    requires forall i :: i in other ==> i < |fs| && other[i] < |exps|
  {
    exists i :: i in Served(fs, exps, other, rank) && i !in pairs && fs[i].identity.name == name
  }

  /** In a starved identity the expectation `other` gave to `i` is taken in `pairs`, within the same rank. */
  lemma {:induction false} StarvedTaker(fs: seq<Labelled>, exps: seq<Expectation>, used: set<nat>,
          pairs: map<nat, nat>, other: map<nat, nat>, rank: nat, i: nat)
    requires NonContradictory(exps)
    requires IsGreedy(fs, exps, used, pairs) && IsMatching(fs, exps, used, other)
    requires i in other && Starved(fs, exps, pairs, other, rank, fs[i].identity.name)
    ensures other[i] in pairs.Values
    ensures Taker(pairs, other[i]) in Served(fs, exps, pairs, rank)
    ensures fs[Taker(pairs, other[i])].identity.name == fs[i].identity.name
  {
    var s :| s in Served(fs, exps, other, rank) && s !in pairs && fs[s].identity.name == fs[i].identity.name;
    assert SameName(fs, exps, i, other[i]) && SameName(fs, exps, s, other[i]) && SameName(fs, exps, s, other[s]);
    assert NothingLeft(fs, exps, used, pairs, s, other[i]);
    var t := Taker(pairs, other[i]);
    assert SameName(fs, exps, t, pairs[t]);
    assert ServedInOrder(fs, exps, pairs, s, t);
  }

  /** Where `pairs` serves the client that stands for `i`. */
  ghost function Stand(fs: seq<Labelled>, exps: seq<Expectation>, pairs: map<nat, nat>, other: map<nat, nat>,
          rank: nat, i: nat): nat
    requires forall i :: i in other ==> i < |fs| && other[i] < |exps|
    requires i in other
    requires Starved(fs, exps, pairs, other, rank, fs[i].identity.name) ==> other[i] in pairs.Values
  {
    if Starved(fs, exps, pairs, other, rank, fs[i].identity.name) then Taker(pairs, other[i]) else i
  }

  /**
   * No one-to-one, identity respecting matching serves more findings within
   * any rank: rank 2 counts all pairs, rank 0 the pairs of the required decision.
   */
  lemma {:induction false} GreedyIsOptimal(fs: seq<Labelled>, exps: seq<Expectation>, used: set<nat>,
          pairs: map<nat, nat>, other: map<nat, nat>, rank: nat)
    requires NonContradictory(exps)
    requires IsGreedy(fs, exps, used, pairs) && IsMatching(fs, exps, used, other)
    ensures |Served(fs, exps, other, rank)| <= |Served(fs, exps, pairs, rank)|
  {
    forall i | i in other
      ensures Starved(fs, exps, pairs, other, rank, fs[i].identity.name) ==> other[i] in pairs.Values
    {
      if Starved(fs, exps, pairs, other, rank, fs[i].identity.name) {
        StarvedTaker(fs, exps, used, pairs, other, rank, i);
      }
    }
    var served := Served(fs, exps, other, rank);
    var f := map i | i in served :: Stand(fs, exps, pairs, other, rank, i);
    forall i, j | i in served && j in served
      ensures f[i] in Served(fs, exps, pairs, rank) && (f[i] == f[j] ==> i == j)
    {
      StandIsServed(fs, exps, used, pairs, other, rank, i);
      StandIsServed(fs, exps, used, pairs, other, rank, j);
    }
    InjectionBound(served, Served(fs, exps, pairs, rank), f);
  }

  lemma {:induction false} StandIsServed(fs: seq<Labelled>, exps: seq<Expectation>, used: set<nat>,
          pairs: map<nat, nat>, other: map<nat, nat>, rank: nat, i: nat)
    requires NonContradictory(exps)
    requires IsGreedy(fs, exps, used, pairs) && IsMatching(fs, exps, used, other)
    requires i in Served(fs, exps, other, rank)
    ensures Starved(fs, exps, pairs, other, rank, fs[i].identity.name) ==> other[i] in pairs.Values
    ensures var stand := Stand(fs, exps, pairs, other, rank, i);
            stand in Served(fs, exps, pairs, rank) && fs[stand].identity.name == fs[i].identity.name
  {
    if Starved(fs, exps, pairs, other, rank, fs[i].identity.name) {
      StarvedTaker(fs, exps, used, pairs, other, rank, i);
    } else {
      assert i in pairs;
      assert SameName(fs, exps, i, pairs[i]) && SameName(fs, exps, i, other[i]);
    }
  }
}
