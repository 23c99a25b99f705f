/**
 * The histogram of IPv6 flow labels: exact sorted counts of up to 256 distinct
 * values, and for ever after one more value nothing but the number of packets.
 */
module FlowLabel {
  import opened Common
  import opened Tally

  const VALUES := 1048576
  const MAX_BINS := 256

  datatype Bin = Bin(value: nat, count: nat)

  datatype Statistics = Statistics(bins: seq<Bin>, saturated: nat)
  {
    /** `__post_init__`. */
    ghost predicate Valid()
    {
      && |bins| <= MAX_BINS && Sorted(bins)
      && (saturated > 0 ==> bins == [] && saturated > MAX_BINS)
    }

    ghost function Packets(): int { SumOver(bins, CountIn()) + saturated }
  }

  ghost predicate Sorted(bins: seq<Bin>)
  {
    && (forall i :: 0 <= i < |bins| ==> bins[i].value < VALUES && bins[i].count > 0)
    && (forall i, j :: 0 <= i < j < |bins| ==> bins[i].value < bins[j].value)
  }

  ghost function CountIn(): Bin -> int { (b: Bin) => b.count }

  /** How often a value was counted. */
  ghost function CountOf(bins: seq<Bin>, v: nat): nat
  {
    if bins == [] then 0 else if bins[|bins| - 1].value == v then bins[|bins| - 1].count
       else CountOf(bins[..|bins| - 1], v)
  }

  lemma {:induction false} CountAt(bins: seq<Bin>, i: nat)
    requires Sorted(bins) && i < |bins|
    ensures CountOf(bins, bins[i].value) == bins[i].count
  {
    if i < |bins| - 1 { CountAt(bins[..|bins| - 1], i); }
  }

  lemma {:induction false} CountAbsent(bins: seq<Bin>, v: nat)
    requires forall i :: 0 <= i < |bins| ==> bins[i].value != v
    ensures CountOf(bins, v) == 0
  {
    if bins != [] { CountAbsent(bins[..|bins| - 1], v); }
  }

  lemma {:induction false} CountPresent(bins: seq<Bin>, v: nat) returns (i: nat)
    requires CountOf(bins, v) > 0
    ensures i < |bins| && bins[i].value == v
  {
    if bins[|bins| - 1].value == v { i := |bins| - 1; } else { i := CountPresent(bins[..|bins| - 1], v); }
  }

  // ---------------------------------------------------------------- one packet

  /** What counting one more packet may do, and all it may do. */
  ghost predicate Counts(s: Statistics, v: nat, r: Statistics)
  {
    && r.Valid() && r.Packets() == s.Packets() + 1
    && (r.saturated > 0 <==> s.saturated > 0 || (|s.bins| == MAX_BINS && CountOf(s.bins, v) == 0))
    && (r.saturated == 0 ==> forall w :: CountOf(r.bins, w) == CountOf(s.bins, w) + if w == v then 1 else 0)
  }

  /** `packet_count` of exact bins. */
  method PacketCount(bins: seq<Bin>) returns (total: nat)
    requires Sorted(bins)
    ensures total == SumOver(bins, CountIn()) >= |bins|
  {
    total := 0;
    for i := 0 to |bins|
      invariant total == SumOver(bins[..i], CountIn()) >= i
    {
      SumOverAppend(bins[..i], bins[i], CountIn());
      assert bins[..i + 1] == bins[..i] + [bins[i]];
      total := total + bins[i].count;
    }
    assert bins[..|bins|] == bins;
  }

  /** `_increment`: looks for the value, or for its place. */
  method Increment(current: Statistics, value: nat) returns (r: Statistics)
    requires current.Valid() && value < VALUES
    ensures Counts(current, value, r)
  {
    hide Counts, CountOf, SumOver;
    if current.saturated > 0 {
      StaysSaturated(current, value);
      return Statistics([], current.saturated + 1);
    }
    var bins := current.bins;
    var index := 0;
    while index < |bins|
      invariant 0 <= index <= |bins|
      invariant forall i :: 0 <= i < index ==> bins[i].value < value
    {
      var existing, count := bins[index].value, bins[index].count;
      if existing == value {
        BinGrows(bins, index);
        return Statistics(bins[..index] + [Bin(value, count + 1)] + bins[index + 1..], 0);
      }
      if existing > value { break; }
      index := index + 1;
    }
    if |bins| == MAX_BINS {
      var total := PacketCount(bins);
      Saturates(bins, index, value);
      return Statistics([], total + 1);
    }
    BinAppears(bins, index, value);
    r := Statistics(bins[..index] + [Bin(value, 1)] + bins[index..], 0);
  }

  lemma {:induction false} StaysSaturated(s: Statistics, v: nat)
    requires s.Valid() && s.saturated > 0
    ensures Counts(s, v, Statistics([], s.saturated + 1))
  { }

  lemma {:induction false} Saturates(bins: seq<Bin>, i: nat, v: nat)
    requires |bins| == MAX_BINS && Sorted(bins) && i <= |bins| && SumOver(bins, CountIn()) >= MAX_BINS
    requires (forall k :: 0 <= k < i ==> bins[k].value < v) && (i < |bins| ==> v < bins[i].value)
    ensures Counts(Statistics(bins, 0), v, Statistics([], SumOver(bins, CountIn()) + 1))
  {
    hide CountOf;
    CountAbsent(bins, v);
    SumOverNothing(CountIn());
  }

  lemma {:induction false} BinGrows(bins: seq<Bin>, i: nat)
    requires |bins| <= MAX_BINS && Sorted(bins) && i < |bins|
    ensures var b := bins[i];
            Counts(Statistics(bins, 0), b.value, Statistics(bins[..i] + [Bin(b.value, b.count + 1)] + bins[i + 1..], 0))
  {
    var b, f := bins[i], CountIn();
    var grown := Bin(b.value, b.count + 1);
    var after := bins[..i] + [grown] + bins[i + 1..];
    assert after == bins[i := grown];
    SumOverUpdate(bins, i, grown, f);
    CountAt(bins, i);
    CountAt(after, i);
    forall w ensures CountOf(after, w) == CountOf(bins, w) + if w == b.value then 1 else 0 {
      if w != b.value {
        if k :| 0 <= k < |bins| && bins[k].value == w {
          CountAt(bins, k);
          CountAt(after, k);
        } else {
          CountAbsent(bins, w);
          CountAbsent(after, w);
        }
      }
    }
  }

  function Inserted(bins: seq<Bin>, i: nat, b: Bin): (r: seq<Bin>)
    requires i <= |bins|
    ensures |r| == |bins| + 1 && forall k ::
            0 <= k < |r| ==> r[k] == if k < i then bins[k] else if k == i then b else bins[k - 1]
  {
    bins[..i] + [b] + bins[i..]
  }

  lemma {:induction false} InsertedIsSorted(bins: seq<Bin>, i: nat, v: nat)
    requires Sorted(bins) && i <= |bins| && v < VALUES
    requires (forall k :: 0 <= k < i ==> bins[k].value < v) && (i < |bins| ==> v < bins[i].value)
    ensures Sorted(Inserted(bins, i, Bin(v, 1))) && forall k :: 0 <= k < |bins| ==> bins[k].value != v
  { }

  lemma {:induction false} InsertedCounts(bins: seq<Bin>, i: nat, b: Bin, w: nat)
    requires i <= |bins| && Sorted(bins) && Sorted(Inserted(bins, i, b))
             && forall k :: 0 <= k < |bins| ==> bins[k].value != b.value
    ensures CountOf(Inserted(bins, i, b), w) == CountOf(bins, w) + if w == b.value then b.count else 0
  {
    hide CountOf, Sorted;
    var after := Inserted(bins, i, b);
    if w == b.value {
      CountAt(after, i);
      CountAbsent(bins, w);
    } else if k :| 0 <= k < |bins| && bins[k].value == w {
      CountAt(bins, k);
      CountAt(after, if k < i then k else k + 1);
    } else {
      CountAbsent(bins, w);
      CountAbsent(after, w);
    }
  }

  lemma {:induction false} InsertedPackets(bins: seq<Bin>, i: nat, b: Bin)
    requires i <= |bins|
    ensures SumOver(Inserted(bins, i, b), CountIn()) == SumOver(bins, CountIn()) + b.count
  {
    hide SumOver;
    var f := CountIn();
    SumOverConcat(bins[..i] + [b], bins[i..], f);
    SumOverAppend(bins[..i], b, f);
    SumOverConcat(bins[..i], bins[i..], f);
    assert bins == bins[..i] + bins[i..];
  }

  lemma {:induction false} BinAppears(bins: seq<Bin>, i: nat, v: nat)
    requires |bins| < MAX_BINS && Sorted(bins) && i <= |bins| && v < VALUES
    requires (forall k :: 0 <= k < i ==> bins[k].value < v) && (i < |bins| ==> v < bins[i].value)
    ensures Counts(Statistics(bins, 0), v, Statistics(Inserted(bins, i, Bin(v, 1)), 0))
  {
    hide CountOf, Sorted, SumOver, Inserted;
    var b := Bin(v, 1);
    InsertedIsSorted(bins, i, v);
    InsertedPackets(bins, i, b);
    CountAbsent(bins, v);
    forall w ensures CountOf(Inserted(bins, i, b), w) == CountOf(bins, w) + if w == v then 1 else 0 {
      InsertedCounts(bins, i, b, w);
    }
  }

  // ---------------------------------------------------------------- whole runs

  ghost function Distinct(labels: seq<nat>): set<nat> { set v | v in labels }

  /** The histogram of these labels: exact as long as few enough are distinct. */
  ghost predicate Represents(s: Statistics, labels: seq<nat>)
  {
    && s.Valid() && s.Packets() == |labels|
    && (s.saturated > 0 <==> |Distinct(labels)| > MAX_BINS)
    && (s.saturated == 0 ==> forall v :: CountOf(s.bins, v) == multiset(labels)[v])
  }

  ghost function ValuesOf(bins: seq<Bin>): set<nat>
  {
    if bins == [] then {} else ValuesOf(bins[..|bins| - 1]) + {bins[|bins| - 1].value}
  }

  lemma {:induction false} ValuesAre(bins: seq<Bin>)
    requires Sorted(bins)
    ensures |ValuesOf(bins)| == |bins|
    ensures forall v :: v in ValuesOf(bins) <==> CountOf(bins, v) > 0
    ensures bins != [] ==> forall v :: v in ValuesOf(bins) ==> v <= bins[|bins| - 1].value
  {
    if bins != [] {
      var init := bins[..|bins| - 1];
      ValuesAre(init);
      assert bins[|bins| - 1].value !in ValuesOf(init);
    }
  }

  lemma {:induction false} BinsAreDistinct(s: Statistics, labels: seq<nat>)
    requires Represents(s, labels) && s.saturated == 0
    ensures |s.bins| == |Distinct(labels)|
  {
    ValuesAre(s.bins);
    forall v ensures v in ValuesOf(s.bins) <==> v in Distinct(labels) {
      assert CountOf(s.bins, v) == multiset(labels)[v];
    }
    assert ValuesOf(s.bins) == Distinct(labels);
  }

  lemma {:induction false} CountsRepresent(s: Statistics, labels: seq<nat>, v: nat, r: Statistics)
    requires Represents(s, labels) && Counts(s, v, r)
    ensures Represents(r, labels + [v])
  {
    var more := labels + [v];
    assert Distinct(more) == Distinct(labels) + {v};
    if s.saturated == 0 {
      BinsAreDistinct(s, labels);
      assert CountOf(s.bins, v) == multiset(labels)[v];
      assert v in Distinct(labels) <==> CountOf(s.bins, v) > 0;
    } else {
      assert |Distinct(labels)| <= |Distinct(more)| by {
        if v in Distinct(labels) { assert Distinct(more) == Distinct(labels); }
      }
    }
  }

  /** Packets counted one after the other, from the empty histogram. */
  ghost predicate Run(labels: seq<nat>, states: seq<Statistics>)
  {
    && |states| == |labels| + 1 && states[0] == Statistics([], 0)
    && forall i :: 0 <= i < |labels| ==> Counts(states[i], labels[i], states[i + 1])
  }

  lemma {:induction false} RunRepresents(labels: seq<nat>, states: seq<Statistics>)
    requires Run(labels, states)
    ensures Represents(states[|labels|], labels)
  {
    if labels == [] {
      assert Distinct(labels) == {};
    } else {
      var n := |labels| - 1;
      assert Run(labels[..n], states[..n + 1]);
      RunRepresents(labels[..n], states[..n + 1]);
      CountsRepresent(states[n], labels[..n], labels[n], states[n + 1]);
      assert labels == labels[..n] + [labels[n]];
    }
  }

  /** Sorted bins are determined by their counts. */
  lemma {:induction false} SortedIsUnique(a: seq<Bin>, b: seq<Bin>)
    requires Sorted(a) && Sorted(b) && forall v :: CountOf(a, v) == CountOf(b, v)
    ensures a == b
  {
    assert b != [] ==> CountOf(b, b[|b| - 1].value) > 0;
    if a != [] {
      var x := a[|a| - 1];
      assert CountOf(a, x.value) == x.count > 0;
      var j := CountPresent(b, x.value);
      var y := b[|b| - 1];
      assert CountOf(b, y.value) == y.count > 0;
      var k := CountPresent(a, y.value);
      assert x == y;
      var c, d := a[..|a| - 1], b[..|b| - 1];
      forall v ensures CountOf(c, v) == CountOf(d, v) {
        if v == x.value {
          CountAbsent(c, v);
          CountAbsent(d, v);
        } else {
          assert CountOf(a, v) == CountOf(b, v);
        }
      }
      SortedIsUnique(c, d);
      assert a == c + [x] && b == d + [y];
    }
  }

  /** The histogram depends on which packets were counted, not on their order. */
  lemma {:induction false} OrderDoesNotMatter(a: seq<nat>, s: seq<Statistics>, b: seq<nat>, t: seq<Statistics>)
    requires Run(a, s) && Run(b, t) && multiset(a) == multiset(b)
    ensures s[|a|] == t[|b|]
  {
    RunRepresents(a, s);
    RunRepresents(b, t);
    assert |a| == |multiset(a)| == |multiset(b)| == |b|;
    assert Distinct(a) == Distinct(b) by {
      forall v ensures v in Distinct(a) <==> v in Distinct(b) { assert v in multiset(a) <==> v in multiset(b); }
    }
    var x, y := s[|a|], t[|b|];
    if x.saturated == 0 { SortedIsUnique(x.bins, y.bins); }
  }
}
