/**
 * Batch matching of detector findings against expectations: the three-phase
 * greedy search, its nested-scan form, its indexed (deque) form, and what
 * makes its result unique and best possible.
 */
module Matching {
  import opened Common

  datatype Decision = Match | NoMatch | NotEvaluable

  /** Everything an identity compares by equality, other than a packet index. */
  type Key(==, !new) = nat

  datatype Name = PacketName(index: nat, key: Key) | FlowName(key: Key)

  /** `bytesAddresses`: both flow addresses are exactly `bytes`. */
  datatype Identity = Identity(name: Name, bytesAddresses: bool) {
    /** Whether the identity may be used as a dictionary key. */
    predicate Indexable() { name.PacketName? || bytesAddresses }
  }

  datatype Expectation = Expectation(identity: Identity, positive: bool)

  /** A finding beside its identity, as the matcher sees the pair. */
  datatype Labelled = Labelled(identity: Identity, decision: Decision)

  datatype Assignment = Assignment(pairs: map<nat, nat>, used: set<nat>)

  function Required(positive: bool): Decision { if positive then Match else NoMatch }

  /** The decision a phase looks for: required, opposite, not evaluable. */
  function Wanted(phase: nat, positive: bool): Decision
  {
    if phase == 0 then Required(positive)
    else if phase == 1 then Required(!positive)
    else NotEvaluable
  }

  /** No two expectations of one identity disagree. */
  ghost predicate NonContradictory(exps: seq<Expectation>)
  {
    forall d, e :: 0 <= d < |exps| && 0 <= e < |exps| && exps[d].identity.name == exps[e].identity.name
      ==> exps[d].positive == exps[e].positive
  }

  // ---------------------------------------------------------------- specification

  ghost predicate Eligible(fs: seq<Labelled>, pairs: map<nat, nat>, name: Name, d: Decision, i: nat)
  {
    i < |fs| && i !in pairs && fs[i].identity.name == name && fs[i].decision == d
  }

  /** The first unassigned finding below `n` with this identity and decision. */
  ghost function First(fs: seq<Labelled>, pairs: map<nat, nat>, name: Name, d: Decision, n: nat): (r: Option<nat>)
    requires n <= |fs|
    ensures r.None? ==> forall j: nat :: j < n ==> !Eligible(fs, pairs, name, d, j)
    ensures r.Some? ==> r.value < n && Eligible(fs, pairs, name, d, r.value)
    ensures r.Some? ==> forall j: nat :: j < r.value ==> !Eligible(fs, pairs, name, d, j)
  {
    if n == 0 then None
    else
      var earlier := First(fs, pairs, name, d, n - 1);
      if earlier.Some? then earlier
      else if Eligible(fs, pairs, name, d, n - 1) then Some(n - 1) else None
  }

  /** One expectation in one phase takes the first eligible finding. */
  ghost function MatchStep(fs: seq<Labelled>, exps: seq<Expectation>, phase: nat, e: nat, st: Assignment): Assignment
    requires e < |exps|
  {
    if e in st.used then st else
    match First(fs, st.pairs, exps[e].identity.name, Wanted(phase, exps[e].positive), |fs|)
    case None => st
    case Some(i) => Assignment(st.pairs[i := e], st.used + {e})
  }

  ghost function MatchFrom(fs: seq<Labelled>, exps: seq<Expectation>, phase: nat, e: nat, st: Assignment): Assignment
    requires phase <= 3 && e <= |exps|
    decreases 3 - phase, |exps| - e
  {
    if phase == 3 then st
    else if e == |exps| then MatchFrom(fs, exps, phase + 1, 0, st)
    else MatchFrom(fs, exps, phase, e + 1, MatchStep(fs, exps, phase, e, st))
  }

  ghost function MatchAll(fs: seq<Labelled>, exps: seq<Expectation>, used: set<nat>): Assignment
  {
    MatchFrom(fs, exps, 0, 0, Assignment(map[], used))
  }

  // ---------------------------------------------------------------- the two forms

  /** The nested scan, as used when some identity cannot be indexed. */
  method MatchByScan(fs: seq<Labelled>, exps: seq<Expectation>, used0: set<nat>)
    returns (pairs: map<nat, nat>, used: set<nat>)
    ensures Assignment(pairs, used) == MatchAll(fs, exps, used0)
  {
    pairs, used := map[], used0;
    for phase := 0 to 3
      invariant MatchFrom(fs, exps, phase, 0, Assignment(pairs, used)) == MatchAll(fs, exps, used0)
    {
      for e := 0 to |exps|
        invariant MatchFrom(fs, exps, phase, e, Assignment(pairs, used)) == MatchAll(fs, exps, used0)
      {
        ghost var st := Assignment(pairs, used);
        if e !in used {
          var name := exps[e].identity.name;
          var d := Wanted(phase, exps[e].positive);
          var i := 0;
          while i < |fs| && !(i !in pairs && fs[i].decision == d && name == fs[i].identity.name)
            invariant 0 <= i <= |fs|
            invariant forall j: nat :: j < i ==> !Eligible(fs, pairs, name, d, j)
          {
            i := i + 1;
          }
          assert i < |fs| ==> Eligible(fs, pairs, name, d, i);
          assert First(fs, pairs, name, d, |fs|) == if i < |fs| then Some(i) else None;
          if i < |fs| {
            pairs, used := pairs[i := e], used + {e};
          }
        }
        assert Assignment(pairs, used) == MatchStep(fs, exps, phase, e, st);
      }
    }
  }

  /** The unassigned findings below `n` with this identity and decision, in order. */
  ghost function Free(fs: seq<Labelled>, pairs: map<nat, nat>, name: Name, d: Decision, n: nat): (r: seq<nat>)
    requires n <= |fs|
  {
    if n == 0 then []
    else Free(fs, pairs, name, d, n - 1) + (if Eligible(fs, pairs, name, d, n - 1) then [n - 1] else [])
  }

  lemma {:induction false} FreeHead(fs: seq<Labelled>, pairs: map<nat, nat>, name: Name, d: Decision, n: nat)
    requires n <= |fs|
    ensures var r := Free(fs, pairs, name, d, n);
            First(fs, pairs, name, d, n) == if r == [] then None else Some(r[0])
  {
    if n > 0 { FreeHead(fs, pairs, name, d, n - 1); }
  }

  type Deques = map<(Name, Decision), seq<nat>>

  function Deque(index: Deques, name: Name, d: Decision): seq<nat>
  {
    if (name, d) in index then index[(name, d)] else []
  }

  ghost predicate IndexCovers(fs: seq<Labelled>, pairs: map<nat, nat>, index: Deques, n: nat)
    requires n <= |fs|
  {
    forall name, d :: Deque(index, name, d) == Free(fs, pairs, name, d, n)
  }

  /** Assigning finding `i` leaves the lists it is not in alone. */
  lemma {:induction false} FreeElsewhere(fs: seq<Labelled>, pairs: map<nat, nat>, name: Name, d: Decision, n: nat,
          i: nat, e: nat)
    requires n <= |fs| && i < |fs|
    requires fs[i].identity.name != name || fs[i].decision != d || n <= i
    ensures Free(fs, pairs[i := e], name, d, n) == Free(fs, pairs, name, d, n)
  {
    if n > 0 {
      FreeElsewhere(fs, pairs, name, d, n - 1, i, e);
    }
  }

  lemma {:induction false} OtherEligible(fs: seq<Labelled>, pairs: map<nat, nat>, name: Name, d: Decision, i: nat,
          e: nat, j: nat)
    requires i != j
    ensures Eligible(fs, pairs[i := e], name, d, j) == Eligible(fs, pairs, name, d, j)
  { }

  /** Assigning the head of a list leaves its tail. */
  lemma {:induction false} FreeTail(fs: seq<Labelled>, pairs: map<nat, nat>, name: Name, d: Decision, n: nat, i: nat,
          e: nat)
    requires n <= |fs| && Free(fs, pairs, name, d, n) != [] && Free(fs, pairs, name, d, n)[0] == i
    ensures Free(fs, pairs[i := e], name, d, n) == Free(fs, pairs, name, d, n)[1..]
  {
    var r := Free(fs, pairs, name, d, n - 1);
    if r == [] {
      FreeElsewhere(fs, pairs, name, d, n - 1, i, e);
    } else {
      FreeHead(fs, pairs, name, d, n - 1);
      FreeTail(fs, pairs, name, d, n - 1, i, e);
      OtherEligible(fs, pairs, name, d, i, e, n - 1);
      hide Eligible;
      assert (r + [n - 1])[1..] == r[1..] + [n - 1];
    }
  }

  /** Popping a head keeps the deques equal to the lists of unassigned findings. */
  lemma {:induction false} PopKeepsIndex(fs: seq<Labelled>, pairs: map<nat, nat>, index: Deques, name: Name,
          d: Decision, e: nat)
    requires IndexCovers(fs, pairs, index, |fs|) && Deque(index, name, d) != []
    ensures var candidates := Deque(index, name, d);
            IndexCovers(fs, pairs[candidates[0] := e], index[(name, d) := candidates[1..]], |fs|)
  {
    var candidates := Deque(index, name, d);
    var i := candidates[0];
    FreeHead(fs, pairs, name, d, |fs|);
    assert Eligible(fs, pairs, name, d, i);
    var index', pairs' := index[(name, d) := candidates[1..]], pairs[i := e];
    forall name', d'
      ensures Deque(index', name', d') == Free(fs, pairs', name', d', |fs|)
    {
      assert Deque(index, name', d') == Free(fs, pairs, name', d', |fs|);
      if name' == name && d' == d {
        FreeTail(fs, pairs, name, d, |fs|, i, e);
      } else {
        FreeElsewhere(fs, pairs, name', d', |fs|, i, e);
      }
    }
  }

  /** `setdefault(key, deque()).append(i)`. */
  function Append(index: Deques, name: Name, d: Decision, i: nat): Deques
  {
    index[(name, d) := Deque(index, name, d) + [i]]
  }

  lemma {:induction false} AppendCovers(fs: seq<Labelled>, index: Deques, n: nat)
    requires n < |fs| && IndexCovers(fs, map[], index, n)
    ensures IndexCovers(fs, map[], Append(index, fs[n].identity.name, fs[n].decision, n), n + 1)
  {
    var more := Append(index, fs[n].identity.name, fs[n].decision, n);
    forall name, d ensures Deque(more, name, d) == Free(fs, map[], name, d, n + 1) {
      assert Deque(index, name, d) == Free(fs, map[], name, d, n);
    }
  }

  /** In increasing order, the positions of all findings with this identity and decision. */
  ghost predicate Lists(fs: seq<Labelled>, name: Name, d: Decision, positions: seq<nat>)
  {
    && (forall a, b :: 0 <= a < b < |positions| ==> positions[a] < positions[b])
    && (forall i: nat :: i in positions <==> i < |fs| && fs[i].identity.name == name && fs[i].decision == d)
  }

  lemma {:induction false} ListsOneMore(fs: seq<Labelled>, f: Labelled, name: Name, d: Decision, positions: seq<nat>)
    requires Lists(fs, name, d, positions)
    ensures Lists(fs + [f], name, d, positions + if f.identity.name == name && f.decision == d then [|fs|] else [])
  {
    forall a | 0 <= a < |positions| ensures positions[a] < |fs| { assert positions[a] in positions; }
    forall i: nat | i < |fs| ensures (fs + [f])[i] == fs[i] { }
  }

  lemma {:induction false} FreeLists(fs: seq<Labelled>, name: Name, d: Decision, n: nat)
    requires n <= |fs|
    ensures Lists(fs[..n], name, d, Free(fs, map[], name, d, n))
  {
    if n > 0 {
      FreeLists(fs, name, d, n - 1);
      ListsOneMore(fs[..n - 1], fs[n - 1], name, d, Free(fs, map[], name, d, n - 1));
      assert fs[..n] == fs[..n - 1] + [fs[n - 1]];
    }
  }

  /** One deque per identity and decision, listing their findings in order. */
  method BuildIndex(fs: seq<Labelled>) returns (index: Deques)
    ensures IndexCovers(fs, map[], index, |fs|)
    ensures forall name, d :: Lists(fs, name, d, Deque(index, name, d))
  {
    hide Lists;
    index := map[];
    for i := 0 to |fs|
      invariant IndexCovers(fs, map[], index, i)
    {
      AppendCovers(fs, index, i);
      index := Append(index, fs[i].identity.name, fs[i].decision, i);
    }
    forall name, d ensures Lists(fs, name, d, Deque(index, name, d)) {
      FreeLists(fs, name, d, |fs|);
      assert fs[..|fs|] == fs;
    }
  }

  /** The deque index, as used when every identity can be a dictionary key. */
  method MatchByIndex(fs: seq<Labelled>, exps: seq<Expectation>, used0: set<nat>)
    returns (pairs: map<nat, nat>, used: set<nat>)
    ensures Assignment(pairs, used) == MatchAll(fs, exps, used0)
  {
    hide Lists;
    var index := BuildIndex(fs);
    pairs, used := map[], used0;
    for phase := 0 to 3
      invariant IndexCovers(fs, pairs, index, |fs|)
      invariant MatchFrom(fs, exps, phase, 0, Assignment(pairs, used)) == MatchAll(fs, exps, used0)
    {
      for e := 0 to |exps|
        invariant IndexCovers(fs, pairs, index, |fs|)
        invariant MatchFrom(fs, exps, phase, e, Assignment(pairs, used)) == MatchAll(fs, exps, used0)
      {
        ghost var st := Assignment(pairs, used);
        if e !in used {
          var name := exps[e].identity.name;
          var d := Wanted(phase, exps[e].positive);
          var candidates := Deque(index, name, d);
          assert candidates == Free(fs, pairs, name, d, |fs|);
          FreeHead(fs, pairs, name, d, |fs|);
          if candidates != [] {
            var i := candidates[0];
            PopKeepsIndex(fs, pairs, index, name, d, e);
            index := index[(name, d) := candidates[1..]];
            pairs, used := pairs[i := e], used + {e};
          }
        }
        assert Assignment(pairs, used) == MatchStep(fs, exps, phase, e, st);
      }
    }
  }

  /** The form is chosen by indexability alone, and the choice cannot be observed. */
  method MatchFindings(fs: seq<Labelled>, exps: seq<Expectation>, used0: set<nat>)
    returns (pairs: map<nat, nat>, used: set<nat>)
    ensures Assignment(pairs, used) == MatchAll(fs, exps, used0)
  {
    if (forall i :: 0 <= i < |fs| ==> fs[i].identity.Indexable()) &&
       (forall e :: 0 <= e < |exps| ==> exps[e].identity.Indexable()) {
      pairs, used := MatchByIndex(fs, exps, used0);
    } else {
      pairs, used := MatchByScan(fs, exps, used0);
    }
  }
}
