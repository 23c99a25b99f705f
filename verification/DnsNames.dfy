/** The query-name aggregate: lengths, label counts and byte classes of every name asked for. */
module DnsNames {
  import opened Common
  import opened Tally
  import N = DnsName
  import D = Dns
  import M = DnsMeaning
  import C = DnsCorrelation
  import S = DnsStatistics

  type Labels = seq<Bytes>

  const CLASSES := 4

  /** Digit, hyphen, underscore and beyond ASCII. */
  predicate InClass(c: nat, b: Byte)
  {
    if c == 0 then 48 <= b <= 57 else if c == 1 then b == 45 else if c == 2 then b == 95 else b >= 128
  }

  ghost predicate LabelHas(l: Bytes, c: nat) { exists j :: 0 <= j < |l| && InClass(c, l[j]) }

  ghost predicate NameHas(labels: Labels, c: nat) { exists i :: 0 <= i < |labels| && LabelHas(labels[i], c) }

  ghost predicate FitLabels(labels: Labels)
  {
    (forall l :: l in labels ==> 1 <= |l| <= N.MAX_LABEL_BYTES) && 1 + N.Octets(labels) <= N.MAX_NAME_BYTES
  }

  /** `count` names of `least` to `most` labels, at least one each, can have `total` labels. */
  predicate Average(least: Option<nat>, most: Option<nat>, count: int, total: int)
  {
    least.Some? && most.Some? && 1 <= least.value <= most.value && least.value * count <= total <= most.value * count
  }

  predicate AtMost(counts: seq<nat>, n: int) { forall c :: 0 <= c < |counts| ==> counts[c] <= n }

  datatype Names = Names(
    names: nat, labels: nat, nameLength: Span, labelLength: Span, mostLabels: Option<nat>, leastLabels: Option<nat>,
    roots: nat, classes: seq<nat>)
  {
    function NonRoot(): int { names - roots }

    ghost predicate Valid()
    {
      && |classes| == CLASSES && roots <= names && AtMost(classes, NonRoot())
      && nameLength.total == labelLength.total + labels + names
      && Bounds(nameLength, names) && Within(nameLength, 1, N.MAX_NAME_BYTES)
      && Bounds(labelLength, labels) && Within(labelLength, 1, N.MAX_LABEL_BYTES)
      && (if names == 0 then mostLabels.None? else mostLabels.Some? && mostLabels.value <= (N.MAX_NAME_BYTES - 1) / 2)
      && (if NonRoot() == 0 then labels == 0 && leastLabels.None? && (names > 0 ==> mostLabels == Some(0))
          else Average(leastLabels, mostLabels, NonRoot(), labels))
      && (roots > 0 ==> nameLength.low == Some(1))
      && (NonRoot() > 0 && nameLength.low == Some(1) ==> roots > 0)
    }
  }

  function NoNames(): Names { Names(0, 0, NOTHING, NOTHING, None, None, 0, seq(CLASSES, _ => 0)) }

  ghost function ObserveLabels(s: Span, labels: Labels): Span
  {
    if labels == [] then s else Observe(ObserveLabels(s, labels[..|labels| - 1]), |labels[|labels| - 1]|)
  }

  function Least(a: Option<nat>, b: nat): Option<nat> { Some(if a.None? then b else Min(a.value, b)) }

  function Most(a: Option<nat>, b: nat): Option<nat> { Some(if a.None? then b else Max(a.value, b)) }

  ghost function AddName(s: Names, labels: Labels): (r: Names)
    requires |s.classes| == CLASSES
    ensures |r.classes| == CLASSES
  {
    var count := |labels|;
    Names(s.names + 1, s.labels + count, Observe(s.nameLength, 1 + N.Octets(labels)),
          ObserveLabels(s.labelLength, labels),
          Most(s.mostLabels, count), if count > 0 then Least(s.leastLabels, count) else s.leastLabels,
          s.roots + if count == 0 then 1 else 0,
          seq(CLASSES, c requires 0 <= c < CLASSES => s.classes[c] + if NameHas(labels, c) then 1 else 0))
  }

  ghost function AddNames(s: Names, all: seq<Labels>): (r: Names)
    requires |s.classes| == CLASSES
    ensures |r.classes| == CLASSES
  {
    if all == [] then s else AddName(AddNames(s, all[..|all| - 1]), all[|all| - 1])
  }

  // ---------------------------------------------------------------- the program's loops

  lemma {:induction false} LabelHasNext(l: Bytes, j: nat, c: nat)
    requires j < |l|
    ensures LabelHas(l[..j + 1], c) <==> LabelHas(l[..j], c) || InClass(c, l[j])
  {
    var more, less := l[..j + 1], l[..j];
    if LabelHas(more, c) && !InClass(c, l[j]) {
      var k :| 0 <= k < |more| && InClass(c, more[k]);
      assert less[k] == more[k];
    }
    if LabelHas(less, c) {
      var k :| 0 <= k < |less| && InClass(c, less[k]);
      assert more[k] == less[k];
    }
    assert more[j] == l[j];
  }

  lemma {:induction false} NameHasNext(labels: Labels, i: nat, c: nat)
    requires i < |labels|
    ensures NameHas(labels[..i + 1], c) <==> NameHas(labels[..i], c) || LabelHas(labels[i], c)
  {
    hide LabelHas;
    var more, less := labels[..i + 1], labels[..i];
    if NameHas(more, c) && !LabelHas(labels[i], c) {
      var k :| 0 <= k < |more| && LabelHas(more[k], c);
      assert less[k] == more[k];
    }
    if NameHas(less, c) {
      var k :| 0 <= k < |less| && LabelHas(less[k], c);
      assert more[k] == less[k];
    }
    assert more[i] == labels[i];
  }

  /** The classes of the bytes of one label, on top of those already seen. */
  method LookAtBytes(l: Bytes, digit0: bool, hyphen0: bool, underscore0: bool, beyond0: bool)
    returns (digit: bool, hyphen: bool, underscore: bool, beyond: bool)
    ensures digit == (digit0 || LabelHas(l, 0)) && hyphen == (hyphen0 || LabelHas(l, 1))
    ensures underscore == (underscore0 || LabelHas(l, 2)) && beyond == (beyond0 || LabelHas(l, 3))
  {
    digit, hyphen, underscore, beyond := digit0, hyphen0, underscore0, beyond0;
    for j := 0 to |l|
      invariant digit == (digit0 || LabelHas(l[..j], 0)) && hyphen == (hyphen0 || LabelHas(l[..j], 1))
      invariant underscore == (underscore0 || LabelHas(l[..j], 2)) && beyond == (beyond0 || LabelHas(l[..j], 3))
    {
      LabelHasNext(l, j, 0);
      LabelHasNext(l, j, 1);
      LabelHasNext(l, j, 2);
      LabelHasNext(l, j, 3);
      hide LabelHas;
      digit := digit || 48 <= l[j] <= 57;
      hyphen := hyphen || l[j] == 45;
      underscore := underscore || l[j] == 95;
      beyond := beyond || l[j] >= 128;
    }
    assert l[..|l|] == l;
  }

  /** One name. */
  method CountName(s: Names, labels: Labels) returns (r: Names)
    requires |s.classes| == CLASSES
    ensures r == AddName(s, labels)
  {
    var count, length, labelLength := |labels|, 1, s.labelLength;
    var digit, hyphen, underscore, beyond := false, false, false, false;
    hide NameHas;
    NothingHas();
    for i := 0 to |labels|
      invariant length == 1 + N.Octets(labels[..i]) && labelLength == ObserveLabels(s.labelLength, labels[..i])
      invariant digit == NameHas(labels[..i], 0) && hyphen == NameHas(labels[..i], 1)
      invariant underscore == NameHas(labels[..i], 2) && beyond == NameHas(labels[..i], 3)
    {
      var l := labels[i];
      NameHasNext(labels, i, 0);
      NameHasNext(labels, i, 1);
      NameHasNext(labels, i, 2);
      NameHasNext(labels, i, 3);
      assert labels[..i + 1][..i] == labels[..i];
      length := length + 1 + |l|;
      labelLength := Observe(labelLength, |l|);
      digit, hyphen, underscore, beyond := LookAtBytes(l, digit, hyphen, underscore, beyond);
    }
    assert labels[..|labels|] == labels;
    r := Names(s.names + 1, s.labels + count, Observe(s.nameLength, length), labelLength,
               Most(s.mostLabels, count), if count > 0 then Least(s.leastLabels, count) else s.leastLabels,
               s.roots + if count == 0 then 1 else 0,
               [s.classes[0] + if digit then 1 else 0, s.classes[1] + if hyphen then 1 else 0,
                s.classes[2] + if underscore then 1 else 0, s.classes[3] + if beyond then 1 else 0]);
    assert r.classes == AddName(s, labels).classes;
  }

  lemma {:induction false} NothingHas()
    ensures forall c: nat :: !NameHas([], c)
  { }

  /** The names a message asks for, in order. */
  function Asked(m: D.Message): (r: seq<Labels>)
    requires |m.sections| > 0
    ensures |r| == |m.sections[0]| && forall i :: 0 <= i < |r| ==> r[i] == m.sections[0][i].name.labels
  {
    seq(|m.sections[0]|, i requires 0 <= i < |m.sections[0]| => m.sections[0][i].name.labels)
  }

  ghost function AllAsked(ms: seq<D.Message>): seq<Labels>
    requires forall m :: m in ms ==> |m.sections| > 0
  {
    if ms == [] then [] else AllAsked(ms[..|ms| - 1]) + Asked(ms[|ms| - 1])
  }

  lemma {:induction false} NothingAsked()
    ensures AllAsked([]) == []
  { }

  lemma {:induction false} AddNamesConcat(s: Names, a: seq<Labels>, b: seq<Labels>)
    requires |s.classes| == CLASSES
    ensures AddNames(s, a + b) == AddNames(AddNames(s, a), b)
  {
    hide AddName;
    if b == [] {
      assert a + b == a;
    } else {
      assert (a + b)[..|a + b| - 1] == a + b[..|b| - 1];
      AddNamesConcat(s, a, b[..|b| - 1]);
    }
  }

  lemma {:induction false} AddNothing(s: Names)
    requires |s.classes| == CLASSES
    ensures AddNames(s, []) == s
  { }

  /** The questions of one message. */
  method CountQuestions(s0: Names, m: D.Message) returns (s: Names)
    requires |s0.classes| == CLASSES && |m.sections| > 0
    ensures s == AddNames(s0, Asked(m))
  {
    s := s0;
    for q := 0 to |m.sections[0]|
      invariant |s.classes| == CLASSES && s == AddNames(s0, Asked(m)[..q])
    {
      assert Asked(m)[..q + 1][..q] == Asked(m)[..q];
      s := CountName(s, m.sections[0][q].name.labels);
    }
    assert Asked(m)[..|m.sections[0]|] == Asked(m);
  }

  lemma {:induction false} ValidShape(s: Names)
    requires s.Valid()
    ensures |s.classes| == CLASSES
  { }

  lemma {:induction false} EmptyIsValid(n: Names)
    requires n.names == 0 && n.labels == 0 && n.roots == 0 && n.nameLength == NOTHING && n.labelLength == NOTHING
    requires n.mostLabels.None? && n.leastLabels.None? && |n.classes| == CLASSES && AtMost(n.classes, 0)
    ensures n.Valid()
  {
    NothingObserved();
    hide Bounds, AtMost;
  }

  lemma {:induction false} NoNamesIsValid()
    ensures NoNames().Valid()
  {
    hide Names.Valid;
    EmptyIsValid(NoNames());
  }

  method CountMessages(s0: Names, messages: seq<D.Message>) returns (s: Names)
    requires |s0.classes| == CLASSES && forall m :: m in messages ==> |m.sections| > 0
    ensures s == AddNames(s0, AllAsked(messages))
  {
    hide AddNames, Asked;
    s := s0;
    AddNothing(s0);
    for i := 0 to |messages|
      invariant |s.classes| == CLASSES && s == AddNames(s0, AllAsked(messages[..i]))
    {
      AddNamesConcat(s0, AllAsked(messages[..i]), Asked(messages[i]));
      assert messages[..i + 1][..i] == messages[..i];
      s := CountQuestions(s, messages[i]);
    }
    assert messages[..|messages|] == messages;
  }

  /** `update_dns_query_name_statistics`. */
  method Update(current: Option<Names>, t: C.Transaction) returns (r: Result<Names, S.StatisticsError>)
    requires (current.Some? ==> current.value.Valid()) && (t.status != C.Pending ==> C.Settled(t))
    ensures r.Err? <==> t.status == C.Pending
    ensures r.Ok? ==>
              && (forall m :: m in C.Contribution(t) ==> |m.sections| > 0)
              && r.value.Valid()
              && r.value == AddNames(if current.Some? then current.value else NoNames(), AllAsked(C.Contribution(t)))
  {
    hide C.Settled, C.Contribution, C.Valid, AddNames, Names.Valid;
    if t.status == C.Pending { return Err(S.NotTerminal); }
    var s := if current.Some? then current.value else NoNames();
    NoNamesIsValid();
    ValidShape(s);
    S.SettledHeaders(t);
    AskedFit(C.Contribution(t));
    AddNamesKeepsValid(s, AllAsked(C.Contribution(t)));
    var counted := CountMessages(s, C.Contribution(t));
    r := Ok(counted);
  }

  // ---------------------------------------------------------------- the constructor's check always passes

  lemma {:induction false} AskedFit(ms: seq<D.Message>)
    requires forall m :: m in ms ==> C.Valid(m)
    ensures (forall m :: m in ms ==> |m.sections| > 0) && forall n :: n in AllAsked(ms) ==> FitLabels(n)
  {
    if ms != [] {
      AskedFit(ms[..|ms| - 1]);
      var m := ms[|ms| - 1];
      assert C.Valid(m);
      forall i | 0 <= i < |m.sections[0]| ensures FitLabels(m.sections[0][i].name.labels) {
        assert M.Fits(m.sections[0][i]);
      }
    }
  }

  lemma {:induction false} LabelSpans(s: Span, count: nat, labels: Labels)
    requires Bounds(s, count) && Within(s, 1, N.MAX_LABEL_BYTES)
             && forall l :: l in labels ==> 1 <= |l| <= N.MAX_LABEL_BYTES
    ensures var r := ObserveLabels(s, labels);
            && Bounds(r, count + |labels|) && Within(r, 1, N.MAX_LABEL_BYTES)
            && r.total + |labels| == s.total + N.Octets(labels) && 2 * |labels| <= N.Octets(labels)
  {
    hide Bounds;
    if labels != [] {
      LabelSpans(s, count, labels[..|labels| - 1]);
      ObserveKeepsBounds(ObserveLabels(s, labels[..|labels| - 1]), count + |labels| - 1, |labels[|labels| - 1]|);
    }
  }

  lemma {:induction false} RootHasNoBytes(labels: Labels, c: nat)
    ensures labels == [] ==> !NameHas(labels, c) && N.Octets(labels) == 0
  { }

  lemma {:induction false} AddNameKeepsValid(s: Names, labels: Labels)
    requires s.Valid() && FitLabels(labels)
    ensures AddName(s, labels).Valid()
  {
    hide Bounds, N.Octets, NameHas, ObserveLabels;
    LabelSpans(s.labelLength, s.labels, labels);
    ObserveKeepsBounds(s.nameLength, s.names, 1 + N.Octets(labels));
    forall c: nat | c < CLASSES ensures labels == [] ==> !NameHas(labels, c) && N.Octets(labels) == 0 {
      RootHasNoBytes(labels, c);
    }
    NameBoundsAbsent(s.nameLength, s.names);
    LabelBounds(s, labels);
    RootHasNoBytes(labels, 0);
  }

  lemma {:induction false} NameBoundsAbsent(s: Span, count: nat)
    requires Bounds(s, count)
    ensures s.low.None? <==> count == 0
  { }

  lemma {:induction false} AverageStep(least: Option<nat>, most: Option<nat>, count: nat, total: nat, v: nat)
    requires v >= 1 && if count == 0 then total == 0 && least.None? else Average(least, most, count, total)
    ensures Average(Least(least, v), Most(most, v), count + 1, total + v)
  {
    if count > 0 {
      Monotone(Least(least, v).value, least.value, count);
      Monotone(most.value, Most(most, v).value, count);
    }
  }

  lemma {:induction false} LabelBounds(s: Names, labels: Labels)
    requires s.Valid()
    ensures var r := AddName(s, labels);
            r.NonRoot() > 0 ==> Average(r.leastLabels, r.mostLabels, r.NonRoot(), r.labels)
  {
    hide Bounds, N.Octets, NameHas, ObserveLabels, Average;
    if labels != [] {
      AverageStep(s.leastLabels, s.mostLabels, s.NonRoot(), s.labels, |labels|);
    } else if s.NonRoot() > 0 {
      RootMost(s.leastLabels, s.mostLabels, s.NonRoot(), s.labels);
    }
  }

  lemma {:induction false} RootMost(least: Option<nat>, most: Option<nat>, count: nat, total: nat)
    requires Average(least, most, count, total)
    ensures Most(most, 0) == most
  { }

  lemma {:induction false} AddNamesKeepsValid(s: Names, all: seq<Labels>)
    requires s.Valid() && forall n :: n in all ==> FitLabels(n)
    ensures AddNames(s, all).Valid()
  {
    hide AddName, FitLabels, Bounds;
    if all != [] {
      AddNamesKeepsValid(s, all[..|all| - 1]);
      AddNameKeepsValid(AddNames(s, all[..|all| - 1]), all[|all| - 1]);
    }
  }

  // ---------------------------------------------------------------- what the numbers are

  ghost function LabelCount(): Labels -> int { (n: Labels) => |n| }

  ghost function ExpandedLength(): Labels -> int { (n: Labels) => 1 + N.Octets(n) }

  ghost function IsRoot(): Labels -> int { (n: Labels) => if n == [] then 1 else 0 }

  ghost function ClassIs(c: nat): Labels -> int { (n: Labels) => if NameHas(n, c) then 1 else 0 }

  /** Totals and counts over these names. */
  ghost predicate Counted(s: Names, all: seq<Labels>)
  {
    && s.names == |all| && s.labels == SumOver(all, LabelCount())
       && s.nameLength.total == SumOver(all, ExpandedLength())
    && s.roots == SumOver(all, IsRoot()) && |s.classes| == CLASSES
    && (forall c :: 0 <= c < CLASSES ==> s.classes[c] == SumOver(all, ClassIs(c)))
  }

  ghost function LabelsIn(): Labels -> seq<Bytes> { (n: Labels) => n }

  ghost function ByteCount(): Bytes -> int { (l: Bytes) => |l| }

  ghost function UnlessRoot(): Labels -> seq<Labels> { (n: Labels) => if n == [] then [] else [n] }

  /**
   * The least and greatest of the lengths and label counts: names and labels all count,
   * the root has no least number of labels.
   */
  ghost predicate Extremes(s: Names, all: seq<Labels>)
  {
    && SpanOf(s.nameLength, all, ExpandedLength())
    && SpanOf(s.labelLength, Gather(all, LabelsIn()), ByteCount())
    && GreatestOf(s.mostLabels, all, LabelCount())
    && LeastOf(s.leastLabels, Gather(all, UnlessRoot()), LabelCount())
  }

  lemma {:induction false} NamesAreCounted(all: seq<Labels>)
    ensures Counted(AddNames(NoNames(), all), all)
  {
    hide SumOver, NameHas, N.Octets;
    if all == [] {
      forall f: Labels -> int ensures SumOver([], f) == 0 { SumOverNothing(f); }
    } else {
      var before, n := all[..|all| - 1], all[|all| - 1];
      NamesAreCounted(before);
      assert all == before + [n];
      SumOverAppend(before, n, LabelCount());
      SumOverAppend(before, n, ExpandedLength());
      SumOverAppend(before, n, IsRoot());
      forall c | 0 <= c < CLASSES ensures SumOver(all, ClassIs(c)) == SumOver(before, ClassIs(c)) + ClassIs(c)(n) {
        SumOverAppend(before, n, ClassIs(c));
      }
    }
  }

  lemma {:induction false} LabelsAreObserved(s: Span, seen: seq<Bytes>, labels: Labels)
    requires SpanOf(s, seen, ByteCount())
    ensures SpanOf(ObserveLabels(s, labels), seen + labels, ByteCount())
  {
    hide SpanOf;
    if labels == [] {
      assert seen + labels == seen;
    } else {
      var init, l := labels[..|labels| - 1], labels[|labels| - 1];
      LabelsAreObserved(s, seen, init);
      SpanOfAppend(ObserveLabels(s, init), seen + init, l, ByteCount());
      assert seen + labels == seen + init + [l];
    }
  }

  lemma {:induction false} ExtremesAppend(s: Names, all: seq<Labels>, n: Labels)
    requires |s.classes| == CLASSES && Extremes(s, all)
    ensures Extremes(AddName(s, n), all + [n])
  {
    hide SpanOf, LeastOf, GreatestOf, N.Octets, NameHas, ObserveLabels;
    SpanOfAppend(s.nameLength, all, n, ExpandedLength());
    GatherAppend(all, n, LabelsIn());
    LabelsAreObserved(s.labelLength, Gather(all, LabelsIn()), n);
    GreatestOfAppend(s.mostLabels, all, n, LabelCount());
    GatherAppend(all, n, UnlessRoot());
    if n == [] {
      assert Gather(all, UnlessRoot()) + [] == Gather(all, UnlessRoot());
    } else {
      LeastOfAppend(s.leastLabels, Gather(all, UnlessRoot()), n, LabelCount());
    }
  }

  /** Shortest and longest name and label, and fewest and most labels of a name, are those of the names asked for. */
  lemma {:induction false} ExtremesAreAttained(all: seq<Labels>)
    ensures Extremes(AddNames(NoNames(), all), all)
  {
    hide Extremes, AddName;
    if all == [] {
      NoExtremes();
    } else {
      var before, n := all[..|all| - 1], all[|all| - 1];
      ExtremesAreAttained(before);
      ExtremesAppend(AddNames(NoNames(), before), before, n);
      assert all == before + [n];
    }
  }

  lemma {:induction false} NoExtremes()
    ensures Extremes(NoNames(), [])
  { }

  // ---------------------------------------------------------------- the order of names

  lemma {:induction false} CountedPermuted(s: Names, a: seq<Labels>, b: seq<Labels>)
    requires multiset(a) == multiset(b) && Counted(s, a)
    ensures Counted(s, b)
  {
    hide SumOver, NameHas, N.Octets;
    SameMembers(a, b);
    forall f: Labels -> int ensures SumOver(a, f) == SumOver(b, f) { SumOverPermuted(a, b, f); }
  }

  lemma {:induction false} ExtremesPermute(s: Names, a: seq<Labels>, b: seq<Labels>)
    requires multiset(a) == multiset(b) && Extremes(s, a)
    ensures Extremes(s, b)
  {
    hide SpanOf, LeastOf, GreatestOf;
    SpanOfPermuted(s.nameLength, a, b, ExpandedLength());
    GatherPermuted(a, b, LabelsIn());
    SpanOfPermuted(s.labelLength, Gather(a, LabelsIn()), Gather(b, LabelsIn()), ByteCount());
    ExtremesPermuted(s.mostLabels, a, b, LabelCount());
    GatherPermuted(a, b, UnlessRoot());
    ExtremesPermuted(s.leastLabels, Gather(a, UnlessRoot()), Gather(b, UnlessRoot()), LabelCount());
  }

  /** The counts and extremes of the names leave nothing of the aggregate open. */
  lemma {:induction false} NumbersDetermine(s: Names, t: Names, all: seq<Labels>)
    requires Counted(s, all) && Counted(t, all) && Extremes(s, all) && Extremes(t, all)
    ensures s == t
  {
    hide LeastOf, GreatestOf, SumOver;
    ExtremesDetermined(s.nameLength.low, t.nameLength.low, all, ExpandedLength());
    ExtremesDetermined(s.nameLength.high, t.nameLength.high, all, ExpandedLength());
    ExtremesDetermined(s.labelLength.low, t.labelLength.low, Gather(all, LabelsIn()), ByteCount());
    ExtremesDetermined(s.labelLength.high, t.labelLength.high, Gather(all, LabelsIn()), ByteCount());
    ExtremesDetermined(s.mostLabels, t.mostLabels, all, LabelCount());
    ExtremesDetermined(s.leastLabels, t.leastLabels, Gather(all, UnlessRoot()), LabelCount());
    assert s.classes == t.classes;
  }

  /** The order in which names are added does not show. */
  lemma {:induction false} AddNamesPermuted(a: seq<Labels>, b: seq<Labels>)
    requires multiset(a) == multiset(b)
    ensures AddNames(NoNames(), a) == AddNames(NoNames(), b)
  {
    hide Counted, Extremes, AddNames;
    NamesAreCounted(a);
    NamesAreCounted(b);
    ExtremesAreAttained(a);
    ExtremesAreAttained(b);
    CountedPermuted(AddNames(NoNames(), a), a, b);
    ExtremesPermute(AddNames(NoNames(), a), a, b);
    NumbersDetermine(AddNames(NoNames(), a), AddNames(NoNames(), b), b);
  }

  ghost function AskedOf(): D.Message -> seq<Labels> { (m: D.Message) => if |m.sections| > 0 then Asked(m) else [] }

  lemma {:induction false} AllAskedGathers(ms: seq<D.Message>)
    requires forall m :: m in ms ==> |m.sections| > 0
    ensures AllAsked(ms) == Gather(ms, AskedOf())
  {
    hide Asked;
    if ms != [] { AllAskedGathers(ms[..|ms| - 1]); }
  }

  /** Nor does the order of the messages. */
  lemma {:induction false} MessagesPermuted(a: seq<D.Message>, b: seq<D.Message>)
    requires multiset(a) == multiset(b) && forall m :: m in a ==> |m.sections| > 0
    ensures (forall m :: m in b ==> |m.sections| > 0) && multiset(AllAsked(a)) == multiset(AllAsked(b))
    ensures AddNames(NoNames(), AllAsked(a)) == AddNames(NoNames(), AllAsked(b))
  {
    hide AddNames, AllAsked;
    SameMembers(a, b);
    AllAskedGathers(a);
    AllAskedGathers(b);
    GatherPermuted(a, b, AskedOf());
    AddNamesPermuted(AllAsked(a), AllAsked(b));
  }

  /** As many names as the messages declare questions. */
  lemma {:induction false} NamesAreQuestions(ms: seq<D.Message>)
    requires forall m :: m in ms ==> C.Valid(m)
    ensures (forall m :: m in ms ==> |m.sections| > 0) && |AllAsked(ms)| == SumOver(ms, S.DeclaredIn(0))
  {
    if ms != [] {
      NamesAreQuestions(ms[..|ms| - 1]);
      assert C.Valid(ms[|ms| - 1]);
    }
  }

  lemma {:induction false} AllAskedConcat(a: seq<D.Message>, b: seq<D.Message>)
    requires forall m :: m in a + b ==> |m.sections| > 0
    ensures (forall m :: m in a ==> |m.sections| > 0) && (forall m :: m in b ==> |m.sections| > 0)
    ensures AllAsked(a + b) == AllAsked(a) + AllAsked(b)
  {
    assert forall m :: m in a ==> m in a + b;
    assert forall m :: m in b ==> m in a + b;
    if b == [] {
      assert a + b == a;
      assert AllAsked(a) + [] == AllAsked(a);
    } else {
      var init := b[..|b| - 1];
      assert (a + b)[..|a + b| - 1] == a + init;
      AllAskedConcat(a, init);
      assert AllAsked(a) + (AllAsked(init) + Asked(b[|b| - 1])) == AllAsked(a) + AllAsked(init) + Asked(b[|b| - 1]);
    }
  }
}
