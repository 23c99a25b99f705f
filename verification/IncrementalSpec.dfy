/**
 * Incremental evaluation of one channel on values, and the theorem that it
 * emits exactly what batch evaluation of the same findings would emit.
 */
module IncrementalSpec {
  import opened Common
  import opened Matching
  import opened Greedy
  import opened EvaluationSpec

  /** `pending` holds the latest findings; everything before them is settled in `emitted`. */
  datatype Channel = Channel(used: set<nat>, nextIndex: nat, pending: seq<Finding>, emitted: seq<Entry>)

  const FRESH := Channel({}, 0, [], [])

  /** The first unused expectation of an identity, whatever the finding decided. */
  function FirstUnused(exps: seq<Expectation>, used: set<nat>, name: Name, n: nat): (r: Option<nat>)
    requires n <= |exps|
    ensures r.None? ==> forall e: nat :: e < n && exps[e].identity.name == name ==> e in used
    ensures r.Some? ==> r.value < n && r.value !in used && exps[r.value].identity.name == name
    ensures r.Some? ==> forall e: nat :: e < r.value && exps[e].identity.name == name ==> e in used
  {
    if n == 0 then None
    else
      var earlier := FirstUnused(exps, used, name, n - 1);
      if earlier.Some? then earlier
      else if n - 1 !in used && exps[n - 1].identity.name == name then Some(n - 1) else None
  }

  function Candidate(exps: seq<Expectation>, st: Channel, f: Finding): (r: Option<nat>)
    ensures r.Some? ==> r.value < |exps|
  {
    FirstUnused(exps, st.used, DetectionIdentity(f, st.nextIndex).name, |exps|)
  }

  /** Only a flow finding whose decision is not the one its candidate requires makes later order matter. */
  predicate Defers(exps: seq<Expectation>, packet: bool, st: Channel, f: Finding)
  {
    || st.pending != []
    || (!packet && Candidate(exps, st, f).Some? && f.decision != Required(exps[Candidate(exps, st, f).value].positive))
  }

  function Record(exps: seq<Expectation>, packet: bool, st: Channel, f: Finding): Channel
  {
    if Defers(exps, packet, st, f) then
      st.(pending := st.pending + [f], nextIndex := st.nextIndex + 1)
    else
      var e := Candidate(exps, st, f);
      Channel(if e.Some? then st.used + {e.value} else st.used, st.nextIndex + 1, [],
              st.emitted + [FindingEntry(f, st.nextIndex, exps, e)])
  }

  function RecordAll(exps: seq<Expectation>, packet: bool, fs: seq<Finding>): Channel
  {
    if fs == [] then FRESH else Record(exps, packet, RecordAll(exps, packet, fs[..|fs| - 1]), fs[|fs| - 1])
  }

  /** Everything emitted once the deferred suffix has been matched against what is left. */
  ghost function Finish(exps: seq<Expectation>, st: Channel): seq<Entry>
    requires NonContradictory(exps) && |st.pending| <= st.nextIndex
  {
    var first := st.nextIndex - |st.pending|;
    var m := MatchAll(Label(st.pending, first), exps, st.used);
    MatchAllIsGreedy(Label(st.pending, first), exps, st.used);
    st.emitted + FindingEntries(st.pending, first, exps, m.pairs, |st.pending|) + MissedEntries(exps, m.used, |exps|)
  }

  // ---------------------------------------------------------------- greedy assignments grow

  /** A finding that is not served before anyone already served extends a greedy assignment by itself. */
  lemma {:induction false} ExtendGreedy(ls: seq<Labelled>, l: Labelled, exps: seq<Expectation>, a: map<nat, nat>)
    requires NonContradictory(exps) && IsGreedy(ls, exps, {}, a)
    requires forall j :: j in a && ls[j].identity.name == l.identity.name
               ==> Rank(ls[j].decision, exps[a[j]].positive) <= Rank(l.decision, exps[a[j]].positive)
    ensures var e := FirstUnused(exps, a.Values, l.identity.name, |exps|);
            IsGreedy(ls + [l], exps, {}, if e.Some? then a[|ls| := e.value] else a)
  {
    var e := FirstUnused(exps, a.Values, l.identity.name, |exps|);
    var n, fs := |ls|, ls + [l];
    var b := if e.Some? then a[n := e.value] else a;
    ExtendMatches(ls, l, exps, a);
    if e.Some? { ValuesAfter(a, n, e.value); }
    forall i: nat, j: nat | i < |fs| && j in b ensures ServedInOrder(fs, exps, b, i, j) {
      ExtendServesInOrder(ls, l, exps, a, i, j);
    }
    forall j: nat, d: nat | j in b && d < |exps| ensures TakenInOrder(fs, exps, {}, b, j, d) {
      assert j == n || TakenInOrder(ls, exps, {}, a, j, d);
      assert j == n || SameName(fs, exps, j, d) == SameName(ls, exps, j, d);
    }
    forall i: nat, d: nat | i < |fs| && d < |exps| ensures NothingLeft(fs, exps, {}, b, i, d) {
      assert i == n || NothingLeft(ls, exps, {}, a, i, d);
      assert i == n || SameName(fs, exps, i, d) == SameName(ls, exps, i, d);
    }
  }

  lemma {:induction false} ExtendMatches(ls: seq<Labelled>, l: Labelled, exps: seq<Expectation>, a: map<nat, nat>)
    requires IsMatching(ls, exps, {}, a)
    ensures var e := FirstUnused(exps, a.Values, l.identity.name, |exps|);
            IsMatching(ls + [l], exps, {}, if e.Some? then a[|ls| := e.value] else a)
  {
    forall i | i in a ensures SameName(ls + [l], exps, i, a[i]) { assert SameName(ls, exps, i, a[i]); }
  }

  lemma {:induction false} ExtendServesInOrder(ls: seq<Labelled>, l: Labelled, exps: seq<Expectation>,
          a: map<nat, nat>, i: nat, j: nat)
    requires NonContradictory(exps) && IsGreedy(ls, exps, {}, a)
    requires forall j :: j in a && ls[j].identity.name == l.identity.name
               ==> Rank(ls[j].decision, exps[a[j]].positive) <= Rank(l.decision, exps[a[j]].positive)
    requires i <= |ls|
    requires var e := FirstUnused(exps, a.Values, l.identity.name, |exps|);
             j in if e.Some? then a[|ls| := e.value] else a
    ensures var e := FirstUnused(exps, a.Values, l.identity.name, |exps|);
            ServedInOrder(ls + [l], exps, if e.Some? then a[|ls| := e.value] else a, i, j)
  {
    var n, e := |ls|, FirstUnused(exps, a.Values, l.identity.name, |exps|);
    if i < n && j < n {
      assert ServedInOrder(ls, exps, a, i, j);
    } else if i < n && j == n && ls[i].identity.name == l.identity.name {
      assert SameName(ls, exps, i, e.value);
      assert NothingLeft(ls, exps, {}, a, i, e.value);
      if i in a {
        assert TakenInOrder(ls, exps, {}, a, i, e.value);
      }
    }
  }

  /** `a` on the first `n` positions, `b` shifted onto the `m` positions after them. */
  ghost function Join(a: map<nat, nat>, b: map<nat, nat>, n: nat, m: nat): map<nat, nat>
  {
    map i: nat | i < n + m && (if i < n then i in a else i - n in b) :: if i < n then a[i] else b[i - n]
  }

  lemma {:induction false} JoinValues(a: map<nat, nat>, b: map<nat, nat>, n: nat, m: nat)
    requires forall i :: i in a ==> i < n
    requires forall i :: i in b ==> i < m
    ensures Join(a, b, n, m).Values == a.Values + b.Values
  {
    var r := Join(a, b, n, m);
    forall v | v in a.Values ensures v in r.Values {
      var i: nat :| i in a && a[i] == v;
      assert i in r && r[i] == v;
    }
    forall v | v in b.Values ensures v in r.Values {
      var i: nat :| i in b && b[i] == v;
      var k := i + n;
      assert k in r && r[k] == v;
    }
  }

  /** A greedy prefix that served only required decisions, followed by a greedy suffix over what it left. */
  lemma {:induction false} CombineGreedy(ls: seq<Labelled>, rest: seq<Labelled>, exps: seq<Expectation>,
          a: map<nat, nat>, b: map<nat, nat>)
    requires NonContradictory(exps)
    requires IsGreedy(ls, exps, {}, a) && IsGreedy(rest, exps, a.Values, b)
    requires rest == [] || forall j :: j in a ==> Rank(ls[j].decision, exps[a[j]].positive) == 0
    ensures IsGreedy(ls + rest, exps, {}, Join(a, b, |ls|, |rest|))
  {
    var n, fs, r := |ls|, ls + rest, Join(a, b, |ls|, |rest|);
    CombineMatches(ls, rest, exps, a, b);
    forall i: nat, j: nat | i < |fs| && j in r ensures ServedInOrder(fs, exps, r, i, j) {
      CombineServesInOrder(ls, rest, exps, a, b, i, j);
    }
    forall j: nat, d: nat | j in r && d < |exps| ensures TakenInOrder(fs, exps, {}, r, j, d) {
      assert j < n || TakenInOrder(rest, exps, a.Values, b, j - n, d);
      CombineTakesInOrder(ls, rest, exps, a, b, j, d);
    }
    forall i: nat, d: nat | i < |fs| && d < |exps| ensures NothingLeft(fs, exps, {}, r, i, d) {
      assert i < n || NothingLeft(rest, exps, a.Values, b, i - n, d);
      CombineLeavesNothing(ls, rest, exps, a, b, i, d);
    }
  }

  lemma {:induction false} CombineMatches(ls: seq<Labelled>, rest: seq<Labelled>, exps: seq<Expectation>,
          a: map<nat, nat>, b: map<nat, nat>)
    requires IsMatching(ls, exps, {}, a) && IsMatching(rest, exps, a.Values, b)
    ensures IsMatching(ls + rest, exps, {}, Join(a, b, |ls|, |rest|))
  {
    var n, fs, r := |ls|, ls + rest, Join(a, b, |ls|, |rest|);
    forall i | i in r ensures i < |fs| && r[i] < |exps| && SameName(fs, exps, i, r[i]) {
      assert i < n ==> SameName(ls, exps, i, a[i]);
      assert n <= i ==> SameName(rest, exps, i - n, b[i - n]);
    }
  }

  lemma {:induction false} CombineTakesInOrder(ls: seq<Labelled>, rest: seq<Labelled>, exps: seq<Expectation>,
          a: map<nat, nat>, b: map<nat, nat>, j: nat, d: nat)
    requires (forall i :: i in a ==> i < |ls|) && (forall i :: i in b ==> i < |rest|)
    requires j in Join(a, b, |ls|, |rest|) && d < |exps|
    requires if j < |ls| then TakenInOrder(ls, exps, {}, a, j, d)
             else TakenInOrder(rest, exps, a.Values, b, j - |ls|, d)
    ensures TakenInOrder(ls + rest, exps, {}, Join(a, b, |ls|, |rest|), j, d)
  {
    var n := |ls|;
    JoinValues(a, b, n, |rest|);
    if j < n {
      assert SameName(ls + rest, exps, j, d) == SameName(ls, exps, j, d);
    } else {
      assert SameName(ls + rest, exps, j, d) == SameName(rest, exps, j - n, d);
    }
  }

  lemma {:induction false} CombineLeavesNothing(ls: seq<Labelled>, rest: seq<Labelled>, exps: seq<Expectation>,
          a: map<nat, nat>, b: map<nat, nat>, i: nat, d: nat)
    requires (forall k :: k in a ==> k < |ls|) && (forall k :: k in b ==> k < |rest|)
    requires i < |ls| + |rest| && d < |exps|
    requires if i < |ls| then NothingLeft(ls, exps, {}, a, i, d) else NothingLeft(rest, exps, a.Values, b, i - |ls|, d)
    ensures NothingLeft(ls + rest, exps, {}, Join(a, b, |ls|, |rest|), i, d)
  {
    var n := |ls|;
    JoinValues(a, b, n, |rest|);
    if i < n {
      assert SameName(ls + rest, exps, i, d) == SameName(ls, exps, i, d);
    } else {
      assert SameName(ls + rest, exps, i, d) == SameName(rest, exps, i - n, d);
    }
  }

  lemma {:induction false} CombineServesInOrder(ls: seq<Labelled>, rest: seq<Labelled>, exps: seq<Expectation>,
          a: map<nat, nat>, b: map<nat, nat>, i: nat, j: nat)
    requires NonContradictory(exps)
    requires IsGreedy(ls, exps, {}, a) && IsGreedy(rest, exps, a.Values, b)
    requires rest == [] || forall j :: j in a ==> Rank(ls[j].decision, exps[a[j]].positive) == 0
    requires i < |ls| + |rest| && j in Join(a, b, |ls|, |rest|) && j < |ls| + |rest|
             && Join(a, b, |ls|, |rest|)[j] < |exps|
    ensures ServedInOrder(ls + rest, exps, Join(a, b, |ls|, |rest|), i, j)
  {
    var n, fs := |ls|, ls + rest;
    if i < n && j < n {
      assert ServedInOrder(ls, exps, a, i, j);
    } else if n <= i && n <= j {
      assert ServedInOrder(rest, exps, b, i - n, j - n);
    } else if i < n && n <= j && fs[i].identity.name == fs[j].identity.name {
      var e := b[j - n];
      assert SameName(rest, exps, j - n, e);
      assert SameName(ls, exps, i, e);
      assert NothingLeft(ls, exps, {}, a, i, e);
      if i in a {
        assert TakenInOrder(ls, exps, {}, a, i, e);
      }
    }
  }

  // ---------------------------------------------------------------- incremental equals batch

  /** The findings `done` are settled: they form a greedy assignment `a` of their own. */
  ghost predicate Settled(exps: seq<Expectation>, packet: bool, done: seq<Finding>, st: Channel, a: map<nat, nat>)
  {
    && st.nextIndex == |done| + |st.pending|
    && (packet ==> st.pending == [])
    && (forall j :: j in a ==> j < |done| && a[j] < |exps|)
    && (!packet ==> forall j :: j in a ==> Rank(done[j].decision, exps[a[j]].positive) == 0)
    && IsGreedy(Label(done, 0), exps, {}, a)
    && st.used == a.Values
    && st.emitted == FindingEntries(done, 0, exps, a, |done|)
  }

  lemma {:induction false} EntriesOfPrefix(fs: seq<Finding>, more: seq<Finding>, first: nat, exps: seq<Expectation>,
          a: map<nat, nat>, b: map<nat, nat>, n: nat)
    requires n <= |fs| && Targets(a, exps) && Targets(b, exps)
    requires forall i: nat :: i < n ==> Lookup(a, i) == Lookup(b, i)
    ensures FindingEntries(fs, first, exps, a, n) == FindingEntries(fs + more, first, exps, b, n)
  {
    if n > 0 {
      EntriesOfPrefix(fs, more, first, exps, a, b, n - 1);
    }
  }

  lemma {:induction false} EntriesOfJoin(fs: seq<Finding>, more: seq<Finding>, exps: seq<Expectation>,
          a: map<nat, nat>, b: map<nat, nat>, n: nat)
    requires n <= |more| && Targets(a, exps) && Targets(b, exps)
    requires forall i :: i in a ==> i < |fs|
    requires Targets(Join(a, b, |fs|, |more|), exps)
    ensures FindingEntries(fs + more, 0, exps, Join(a, b, |fs|, |more|), |fs| + n)
         == FindingEntries(fs, 0, exps, a, |fs|) + FindingEntries(more, |fs|, exps, b, n)
  {
    if n == 0 {
      EntriesOfPrefix(fs, more, 0, exps, a, Join(a, b, |fs|, |more|), |fs|);
    } else {
      EntriesOfJoin(fs, more, exps, a, b, n - 1);
    }
  }

  lemma {:induction false} SettlingIsGreedy(exps: seq<Expectation>, packet: bool, fs: seq<Finding>, f: Finding,
          a: map<nat, nat>)
    requires NonContradictory(exps)
    requires (forall g :: g in fs ==> InChannel(g, packet)) && InChannel(f, packet)
    requires IsGreedy(Label(fs, 0), exps, {}, a)
    requires !packet ==> forall j :: j in a ==> Rank(fs[j].decision, exps[a[j]].positive) == 0
    ensures var e := FirstUnused(exps, a.Values, DetectionIdentity(f, |fs|).name, |exps|);
            IsGreedy(Label(fs + [f], 0), exps, {}, if e.Some? then a[|fs| := e.value] else a)
  {
    var ls, l := Label(fs, 0), Labelled(DetectionIdentity(f, |fs|), f.decision);
    assert Label(fs + [f], 0) == ls + [l];
    forall j | j in a && ls[j].identity.name == l.identity.name
      ensures Rank(ls[j].decision, exps[a[j]].positive) <= Rank(l.decision, exps[a[j]].positive)
    {
      assert fs[j] in fs;
      assert !packet;
    }
    ExtendGreedy(ls, l, exps, a);
  }

  lemma {:induction false} SettlingKeepsSettled(exps: seq<Expectation>, packet: bool, done: seq<Finding>, f: Finding,
          st: Channel, a: map<nat, nat>)
    requires NonContradictory(exps)
    requires (forall g :: g in done ==> InChannel(g, packet)) && InChannel(f, packet)
    requires Settled(exps, packet, done, st, a) && !Defers(exps, packet, st, f)
    ensures var e := Candidate(exps, st, f);
            Settled(exps, packet, done + [f], Record(exps, packet, st, f), if e.Some? then a[|done| := e.value] else a)
  {
    hide IsGreedy, NonContradictory, FindingEntry, Label, FirstUnused;
    var n, e := |done|, Candidate(exps, st, f);
    SettlingIsGreedy(exps, packet, done, f, a);
    if e.Some? { ValuesAfter(a, n, e.value); }
    EntriesOfPrefix(done, [f], 0, exps, a, if e.Some? then a[n := e.value] else a, n);
  }

  lemma {:induction false} RecordKeepsSettled(exps: seq<Expectation>, packet: bool, done: seq<Finding>, f: Finding,
          st: Channel, a: map<nat, nat>)
    returns (done': seq<Finding>, b: map<nat, nat>)
    requires NonContradictory(exps)
    requires (forall g :: g in done ==> InChannel(g, packet)) && InChannel(f, packet)
    requires Settled(exps, packet, done, st, a)
    ensures Settled(exps, packet, done', Record(exps, packet, st, f), b)
    ensures done' + Record(exps, packet, st, f).pending == done + st.pending + [f]
  {
    if Defers(exps, packet, st, f) {
      done', b := done, a;
    } else {
      SettlingKeepsSettled(exps, packet, done, f, st, a);
      var e := Candidate(exps, st, f);
      done', b := done + [f], if e.Some? then a[|done| := e.value] else a;
    }
  }

  lemma {:induction false} RunIsSettled(exps: seq<Expectation>, packet: bool, fs: seq<Finding>)
    returns (done: seq<Finding>, a: map<nat, nat>)
    requires NonContradictory(exps)
    requires forall f :: f in fs ==> InChannel(f, packet)
    ensures Settled(exps, packet, done, RecordAll(exps, packet, fs), a)
    ensures done + RecordAll(exps, packet, fs).pending == fs
  {
    if fs == [] {
      done, a := [], map[];
    } else {
      var prefix, f := fs[..|fs| - 1], fs[|fs| - 1];
      var st := RecordAll(exps, packet, prefix);
      done, a := RunIsSettled(exps, packet, prefix);
      forall g | g in done ensures InChannel(g, packet) { assert g in done + st.pending; }
      done, a := RecordKeepsSettled(exps, packet, done, f, st, a);
      assert prefix + [f] == fs;
    }
  }

  /**
   * Whatever is recorded, one finding at a time, finishing has emitted exactly
   * the batch evaluation of all of it: same entries, same order.
   */
  lemma {:induction false} IncrementalEqualsBatch(exps: seq<Expectation>, packet: bool, fs: seq<Finding>)
    requires NonContradictory(exps)
    requires forall f :: f in fs ==> InChannel(f, packet)
    ensures var st := RecordAll(exps, packet, fs);
            |st.pending| <= st.nextIndex && Finish(exps, st) == BatchEntries(fs, exps)
  {
    var done, a := RunIsSettled(exps, packet, fs);
    SettledFinishes(exps, packet, done, RecordAll(exps, packet, fs), a);
  }

  lemma {:induction false} SettledFinishes(exps: seq<Expectation>, packet: bool, done: seq<Finding>, st: Channel,
          a: map<nat, nat>)
    requires NonContradictory(exps) && Settled(exps, packet, done, st, a)
    ensures Finish(exps, st) == BatchEntries(done + st.pending, exps)
  {
    hide IsGreedy, NonContradictory, Finish, BatchEntries, FindingEntries;
    FinishIsBatch(exps, done, st.pending, a);
  }

  /** Matching the deferred suffix against what is left completes the one greedy assignment of all findings. */
  lemma {:induction false} SuffixCompletes(exps: seq<Expectation>, fs: seq<Finding>, pending: seq<Finding>,
          a: map<nat, nat>)
    requires NonContradictory(exps)
    requires IsGreedy(Label(fs, 0), exps, {}, a)
    requires pending == [] || forall j :: j in a ==> Rank(fs[j].decision, exps[a[j]].positive) == 0
    ensures var rest := MatchAll(Label(pending, |fs|), exps, a.Values);
            && (forall i :: i in rest.pairs ==> i < |pending| && rest.pairs[i] < |exps|)
            && rest.used == a.Values + rest.pairs.Values
            && Targets(Join(a, rest.pairs, |fs|, |pending|), exps)
            && MatchAll(Label(fs + pending, 0), exps, {}).pairs == Join(a, rest.pairs, |fs|, |pending|)
  {
    var ls, rest := Label(fs, 0), Label(pending, |fs|);
    var m := MatchAll(rest, exps, a.Values);
    MatchAllIsGreedy(rest, exps, a.Values);
    assert Label(fs + pending, 0) == ls + rest;
    CombineGreedy(ls, rest, exps, a, m.pairs);
    MatchAllIsGreedy(ls + rest, exps, {});
    GreedyIsUnique(ls + rest, exps, {}, Join(a, m.pairs, |fs|, |pending|), MatchAll(ls + rest, exps, {}).pairs);
  }

  lemma {:induction false} FinishIsBatch(exps: seq<Expectation>, fs: seq<Finding>, pending: seq<Finding>,
          a: map<nat, nat>)
    requires NonContradictory(exps)
    requires IsGreedy(Label(fs, 0), exps, {}, a)
    requires forall j :: j in a ==> j < |fs| && a[j] < |exps|
    requires pending == [] || forall j :: j in a ==> Rank(fs[j].decision, exps[a[j]].positive) == 0
    ensures Finish(exps, Channel(a.Values, |fs| + |pending|, pending, FindingEntries(fs, 0, exps, a, |fs|)))
         == BatchEntries(fs + pending, exps)
  {
    hide IsGreedy, NonContradictory, MatchAll, Join, FindingEntries, MissedEntries;
    SuffixCompletes(exps, fs, pending, a);
    var m := MatchAll(Label(pending, |fs|), exps, a.Values);
    JoinValues(a, m.pairs, |fs|, |pending|);
    MatchAllIsGreedy(Label(fs + pending, 0), exps, {});
    EntriesOfJoin(fs, pending, exps, a, m.pairs, |pending|);
    AppendAssociates(FindingEntries(fs, 0, exps, a, |fs|), FindingEntries(pending, |fs|, exps, m.pairs, |pending|),
                     MissedEntries(exps, m.used, |exps|));
    assert MatchAll(Label(fs + pending, 0), exps, {}).used == m.used;
  }

  lemma {:induction false} AppendAssociates(a: seq<Entry>, b: seq<Entry>, c: seq<Entry>)
    ensures a + b + c == (a + b) + c
  { }

  // ---------------------------------------------------------------- early entries are final

  lemma {:induction false} EmittedOnlyGrows(exps: seq<Expectation>, packet: bool, fs: seq<Finding>, more: seq<Finding>)
    ensures RecordAll(exps, packet, fs).emitted <= RecordAll(exps, packet, fs + more).emitted
    decreases |more|
  {
    if more == [] {
      assert fs + more == fs;
    } else {
      var less := more[..|more| - 1];
      EmittedOnlyGrows(exps, packet, fs, less);
      assert (fs + more)[..|fs + more| - 1] == fs + less;
    }
  }

  /** What has been emitted so far is how the batch result starts, whatever is recorded later. */
  lemma {:induction false} EmittedIsFinal(exps: seq<Expectation>, packet: bool, fs: seq<Finding>, more: seq<Finding>)
    requires NonContradictory(exps)
    requires forall f :: f in fs + more ==> InChannel(f, packet)
    ensures RecordAll(exps, packet, fs).emitted <= BatchEntries(fs + more, exps)
  {
    EmittedOnlyGrows(exps, packet, fs, more);
    IncrementalEqualsBatch(exps, packet, fs + more);
  }

  // ---------------------------------------------------------------- deferring is unavoidable

  /** A finding matched alone takes the first unused expectation of its identity, whatever it decided. */
  lemma {:induction false} AloneTakesFirstUnused(exps: seq<Expectation>, used: set<nat>, item: Labelled)
    requires NonContradictory(exps)
    ensures Lookup(MatchAll([item], exps, used).pairs, 0) == FirstUnused(exps, used, item.identity.name, |exps|)
  {
    var fs, e := [item], FirstUnused(exps, used, item.identity.name, |exps|);
    MatchAllIsGreedy(fs, exps, used);
    var pairs := MatchAll(fs, exps, used).pairs;
    if 0 in pairs {
      assert SameName(fs, exps, 0, pairs[0]);
      assert e.Some? ==> TakenInOrder(fs, exps, used, pairs, 0, e.value);
    } else {
      assert e.Some? ==> NothingLeft(fs, exps, used, pairs, 0, e.value);
    }
  }

  lemma {:induction false} EntryAt(fs: seq<Finding>, first: nat, exps: seq<Expectation>, pairs: map<nat, nat>, n: nat,
          i: nat)
    requires i < n <= |fs| && Targets(pairs, exps)
    ensures FindingEntries(fs, first, exps, pairs, n)[i] == FindingEntry(fs[i], first + i, exps, Lookup(pairs, i))
  {
    if i < n - 1 { EntryAt(fs, first, exps, pairs, n - 1, i); }
  }

  lemma {:induction false} BatchEntryAt(fs: seq<Finding>, exps: seq<Expectation>, i: nat)
    requires NonContradictory(exps) && i < |fs|
    ensures |BatchEntries(fs, exps)| > i
    ensures BatchEntries(fs, exps)[i].expectationIndex == Lookup(MatchAll(Label(fs, 0), exps, {}).pairs, i)
  {
    hide IsGreedy, MatchAll, FindingEntries, MissedEntries, Label, NonContradictory;
    MatchAllIsGreedy(Label(fs, 0), exps, {});
    GreedyTargets(Label(fs, 0), exps, {}, MatchAll(Label(fs, 0), exps, {}).pairs);
    EntryAt(fs, 0, exps, MatchAll(Label(fs, 0), exps, {}).pairs, |fs|, i);
  }

  lemma {:induction false} GreedyTargets(ls: seq<Labelled>, exps: seq<Expectation>, used: set<nat>, a: map<nat, nat>)
    requires IsGreedy(ls, exps, used, a)
    ensures Targets(a, exps)
  { }

  /** The entry of the first pending finding is decided by the pending findings alone. */
  lemma {:induction false} FirstPendingEntry(exps: seq<Expectation>, fs: seq<Finding>, pending: seq<Finding>,
          a: map<nat, nat>)
    requires NonContradictory(exps) && pending != []
    requires Settled(exps, false, fs, RecordAll(exps, false, fs), a) && RecordAll(exps, false, fs).pending == []
    ensures |BatchEntries(fs + pending, exps)| > |fs|
    ensures BatchEntries(fs + pending, exps)[|fs|].expectationIndex
         == Lookup(MatchAll(Label(pending, |fs|), exps, RecordAll(exps, false, fs).used).pairs, 0)
  {
    hide IsGreedy, MatchAll, BatchEntries, RecordAll, Label, NonContradictory, FindingEntries;
    SuffixCompletes(exps, fs, pending, a);
    BatchEntryAt(fs + pending, exps, |fs|);
  }

  /**
   * Deferring is never idle: the finding that starts it would be judged one
   * way if nothing followed and another way if a finding of the same identity
   * with the required decision followed.
   */
  lemma {:induction false} DeferralIsNeeded(exps: seq<Expectation>, fs: seq<Finding>, f: Finding) returns (g: Finding)
    requires NonContradictory(exps)
    requires forall h :: h in fs + [f] ==> InChannel(h, false)
    requires RecordAll(exps, false, fs).pending == [] && Defers(exps, false, RecordAll(exps, false, fs), f)
    ensures InChannel(g, false)
    ensures |BatchEntries(fs + [f], exps)| > |fs| && |BatchEntries(fs + [f, g], exps)| > |fs|
    ensures BatchEntries(fs + [f], exps)[|fs|].expectationIndex != BatchEntries(fs + [f, g],
              exps)[|fs|].expectationIndex
  {
    var st := RecordAll(exps, false, fs);
    forall h | h in fs ensures InChannel(h, false) { assert h in fs + [f]; }
    assert f in fs + [f];
    var done, a := RunIsSettled(exps, false, fs);
    assert done == fs;
    var e := Candidate(exps, st, f).value;
    g := Finding(Required(exps[e].positive), f.evidence);
    FirstPendingEntry(exps, fs, [f], a);
    FirstPendingEntry(exps, fs, [f, g], a);
    assert Label([f], |fs|) == [Labelled(DetectionIdentity(f, |fs|), f.decision)];
    AloneTakesFirstUnused(exps, st.used, Labelled(DetectionIdentity(f, |fs|), f.decision));
    LaterRequiredWins(exps, st.used, Label([f, g], |fs|), e);
  }

  lemma {:induction false} LaterRequiredWins(exps: seq<Expectation>, used: set<nat>, ls: seq<Labelled>, e: nat)
    requires NonContradictory(exps) && |ls| == 2 && e < |exps|
    requires ls[0].identity.name == ls[1].identity.name
    requires FirstUnused(exps, used, ls[0].identity.name, |exps|) == Some(e)
    requires ls[0].decision != Required(exps[e].positive) && ls[1].decision == Required(exps[e].positive)
    ensures Lookup(MatchAll(ls, exps, used).pairs, 0) != Some(e)
  {
    MatchAllIsGreedy(ls, exps, used);
    var pairs := MatchAll(ls, exps, used).pairs;
    assert 0 in pairs ==> ServedInOrder(ls, exps, pairs, 1, 0);
    assert 0 in pairs && 1 in pairs ==> SameName(ls, exps, 1, pairs[1]);
  }
}
