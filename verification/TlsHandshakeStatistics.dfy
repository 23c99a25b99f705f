/**
 * The aggregate of complete TLS handshake messages. Its constructor's check is
 * exact: it accepts a value if and only if some messages add up to it.
 */
module TlsHandshakeStatistics {
  import opened Common
  import opened Tally
  import H = TlsHandshake

  const TYPES := 256

  const MAX_LENGTH := H.HANDSHAKE.limit

  datatype Statistics = Statistics(count: nat, zeros: nat, lengths: Span, types: seq<nat>)
  {
    /** The least and greatest total that `count` lengths with these extrema and this many zeros can have. */
    function Lower(): int requires lengths.low.Some? && lengths.high.Some?
    {
      lengths.high.value + (count - zeros - 1) * if zeros > 0 then 1 else lengths.low.value
    }

    function Upper(): int requires lengths.low.Some? && lengths.high.Some?
    {
      if zeros > 0 then (count - zeros) * lengths.high.value
         else lengths.low.value + (count - zeros - 1) * lengths.high.value
    }

    /** `__post_init__`. */
    ghost predicate Valid()
    {
      && |types| == TYPES && Sum(types) == count && zeros <= count && lengths.total >= 0
      && if count == 0 then lengths == NOTHING
         else
           && lengths.low.Some? && lengths.high.Some?
           && 0 <= lengths.low.value <= lengths.high.value <= MAX_LENGTH
           && (lengths.low.value == 0 <==> zeros > 0)
           && if zeros == count then lengths.high.value == 0 && lengths.total == 0
              else lengths.high.value != 0 && Lower() <= lengths.total <= Upper()
    }
  }

  /** A complete message: its type, and its declared and actual length. */
  datatype Message = Message(kind: nat, length: nat)

  predicate InBounds(m: Message) { m.kind < TYPES && m.length <= MAX_LENGTH }

  function Empty(): Statistics { Statistics(0, 0, NOTHING, seq(TYPES, _ => 0)) }

  /** `_reduce`. */
  function Reduce(s: Statistics, m: Message): (r: Statistics)
    requires |s.types| == TYPES && InBounds(m)
    ensures |r.types| == TYPES
  {
    Statistics(s.count + 1, s.zeros + if m.length == 0 then 1 else 0, Observe(s.lengths, m.length),
               s.types[m.kind := s.types[m.kind] + 1])
  }

  ghost function Fold(ms: seq<Message>): (r: Statistics)
    requires forall i :: 0 <= i < |ms| ==> InBounds(ms[i])
    ensures |r.types| == TYPES
  {
    if ms == [] then Empty() else Reduce(Fold(ms[..|ms| - 1]), ms[|ms| - 1])
  }

  // ---------------------------------------------------------------- the check never refuses a reduction

  lemma {:induction false} EmptyIsValid()
    ensures Empty().Valid()
  {
    SumOfZeros(TYPES);
  }

  function LowerOf(zeros: nat, n: nat, low: int, high: int): int { high + (n - 1) * if zeros > 0 then 1 else low }

  function UpperOf(zeros: nat, n: nat, low: int, high: int): int
  {
    if zeros > 0 then n * high else low + (n - 1) * high
  }

  /** One more empty message leaves the total where it was, within wider bounds. */
  lemma {:induction false} ZeroKeepsBounds(zeros: nat, n: nat, low: int, high: int, total: int)
    requires n > 0 && 0 <= low <= high && (low == 0 <==> zeros > 0)
             && LowerOf(zeros, n, low, high) <= total <= UpperOf(zeros, n, low, high)
    ensures LowerOf(zeros + 1, n, 0, high) <= total <= UpperOf(zeros + 1, n, 0, high)
  {
    if zeros == 0 { Monotone(1, low, n - 1); }
    assert n * high == (n - 1) * high + high;
  }

  /** One more length moves the bounds no further than the total. */
  lemma {:induction false} PositiveKeepsBounds(zeros: nat, n: nat, low: int, high: int, total: int, v: int)
    requires n > 0 && 0 <= low <= high && (low == 0 <==> zeros > 0) && high > 0 && v > 0
    requires LowerOf(zeros, n, low, high) <= total <= UpperOf(zeros, n, low, high)
    ensures LowerOf(zeros, n + 1, Min(low, v), Max(high, v)) <= total
            + v <= UpperOf(zeros, n + 1, Min(low, v), Max(high, v))
  {
    var low', high' := Min(low, v), Max(high, v);
    Monotone(high, high', n - 1);
    Monotone(low', low, n - 1);
    Distributes(n, low');
    Distributes(n, high');
    Distributes(n, high);
    assert (n + 1) * high' == n * high' + high';
  }

  lemma {:induction false} Distributes(n: nat, x: int)
    ensures n * x == (n - 1) * x + x
  { }

  lemma {:induction false} ReduceKeepsValid(s: Statistics, m: Message)
    requires s.Valid() && InBounds(m)
    ensures Reduce(s, m).Valid()
  {
    hide Sum;
    SumUpdate(s.types, m.kind, s.types[m.kind] + 1);
    var r := Reduce(s, m);
    hide LowerOf, UpperOf;
    if s.count > 0 && s.zeros < s.count {
      var low, high, n := s.lengths.low.value, s.lengths.high.value, s.count - s.zeros;
      BoundsAre(s);
      BoundsAre(r);
      if m.length == 0 {
        ZeroKeepsBounds(s.zeros, n, low, high, s.lengths.total);
      } else {
        PositiveKeepsBounds(s.zeros, n, low, high, s.lengths.total, m.length);
      }
    } else if m.length > 0 {
      FirstBounds(r);
    }
  }

  lemma {:induction false} BoundsAre(s: Statistics)
    requires s.lengths.low.Some? && s.lengths.high.Some? && s.zeros <= s.count
    ensures s.Lower() == LowerOf(s.zeros, s.count - s.zeros, s.lengths.low.value, s.lengths.high.value)
    ensures s.Upper() == UpperOf(s.zeros, s.count - s.zeros, s.lengths.low.value, s.lengths.high.value)
  { }

  lemma {:induction false} FirstBounds(s: Statistics)
    requires s.lengths.low.Some? && s.lengths.high.Some? && s.count == s.zeros + 1
    ensures s.Lower() == s.lengths.high.value
    ensures s.Upper() == if s.zeros > 0 then s.lengths.high.value else s.lengths.low.value
  { }

  /** Whatever the messages, their aggregate passes the check. */
  lemma {:induction false} FoldIsValid(ms: seq<Message>)
    requires forall i :: 0 <= i < |ms| ==> InBounds(ms[i])
    ensures Fold(ms).Valid()
  {
    if ms == [] {
      EmptyIsValid();
    } else {
      FoldIsValid(ms[..|ms| - 1]);
      ReduceKeepsValid(Fold(ms[..|ms| - 1]), ms[|ms| - 1]);
    }
  }

  // ---------------------------------------------------------------- every accepted value is attained

  /** `n` lengths between `low` and `high` with a given sum. */
  ghost function Spread(n: nat, low: nat, high: nat, total: int): seq<nat>
    requires low <= high && n * low <= total <= n * high
    decreases n
  {
    if n == 0 then []
    else
      var v := Min(high, total - (n - 1) * low);
      SpreadStep(n, low, high, total);
      Spread(n - 1, low, high, total - v) + [v]
  }

  lemma {:induction false} SpreadStep(n: nat, low: nat, high: nat, total: int)
    requires n > 0 && low <= high && n * low <= total <= n * high
    ensures var v := Min(high, total - (n - 1) * low);
            low <= v <= high && (n - 1) * low <= total - v <= (n - 1) * high
  {
    Distributes(n, low);
    Distributes(n, high);
    Monotone(low, high, n - 1);
  }

  lemma {:induction false} SpreadIs(n: nat, low: nat, high: nat, total: int)
    requires low <= high && n * low <= total <= n * high
    ensures var r := Spread(n, low, high, total);
            |r| == n && Sum(r) == total && forall i :: 0 <= i < n ==> low <= r[i] <= high
    decreases n
  {
    if n > 0 {
      SpreadStep(n, low, high, total);
      var m, v := n - 1, Min(high, total - (n - 1) * low);
      SpreadIs(m, low, high, total - v);
      var r, rest := Spread(n, low, high, total), Spread(m, low, high, total - v);
      assert r == rest + [v];
      assert r[..m] == rest;
    }
  }

  /** What a list of lengths amounts to. */
  ghost predicate Amounts(lengths: seq<nat>, zeros: nat, span: Span)
  {
    && Sum(lengths) == span.total && SumOver<int>(lengths, IsZero()) == zeros
    && if lengths == [] then span == NOTHING
       else
         && span.low.Some? && span.high.Some? && span.low.value in lengths && span.high.value in lengths
         && forall v :: v in lengths ==> span.low.value <= v <= span.high.value
  }

  ghost function IsZero(): int -> int { (v: int) => if v == 0 then 1 else 0 }

  lemma {:induction false} ZerosAmount(n: nat)
    ensures var r := seq(n, _ => 0); Sum(r) == 0 && SumOver<int>(r, IsZero()) == n
  {
    if n > 0 {
      ZerosAmount(n - 1);
      assert seq(n, _ => 0)[..n - 1] == seq(n - 1, _ => 0);
    }
  }

  lemma {:induction false} NoZeros(s: seq<nat>)
    requires forall i :: 0 <= i < |s| ==> s[i] > 0
    ensures SumOver<int>(s, IsZero()) == 0
  {
    if s != [] { NoZeros(s[..|s| - 1]); }
  }

  /** Lengths that amount to what an accepted value says. */
  lemma {:induction false} LengthsFor(s: Statistics) returns (lengths: seq<nat>)
    requires s.Valid()
    ensures |lengths| == s.count && Amounts(lengths, s.zeros, s.lengths)
            && forall i :: 0 <= i < |lengths| ==> lengths[i] <= MAX_LENGTH
  {
    if s.count == 0 {
      lengths := [];
    } else {
      var low, high, n := s.lengths.low.value, s.lengths.high.value, s.count - s.zeros;
      var zeros, rest := seq(s.zeros, _ => 0), [];
      ZerosAmount(s.zeros);
      if n > 0 { rest := PositivesFor(s); }
      lengths := zeros + rest;
      SumConcat(zeros, rest);
      SumOverConcat<int>(zeros, rest, IsZero());
      NoZeros(rest);
      if s.zeros > 0 { assert lengths[0] == 0; }
      if n > 0 {
        var j :| 0 <= j < |rest| && rest[j] == high;
        assert lengths[s.zeros + j] == high;
        if s.zeros == 0 {
          assert lengths == rest;
        }
      } else {
        assert lengths == zeros;
      }
    }
  }

  /** Positive lengths with a given greatest one. */
  lemma {:induction false} PositivesUpTo(n: nat, high: nat, total: int) returns (rest: seq<nat>)
    requires n > 0 && high > 0 && high + (n - 1) <= total <= n * high
    ensures |rest| == n && Sum(rest) == total && high in rest && forall i :: 0 <= i < n ==> 0 < rest[i] <= high
  {
    hide Sum, Spread;
    Distributes(n, high);
    var others := Spread(n - 1, 1, high, total - high);
    SpreadIs(n - 1, 1, high, total - high);
    rest := others + [high];
    SumConcat(others, [high]);
    SumOne(high);
    assert rest[n - 1] == high;
  }

  /** Lengths with given extremes. */
  lemma {:induction false} LengthsBetween(n: nat, low: nat, high: nat, total: int) returns (rest: seq<nat>)
    requires n > 0 && 0 < low <= high && high + (n - 1) * low <= total <= low + (n - 1) * high
    ensures |rest| == n && Sum(rest) == total && high in rest && low in rest
            && forall i :: 0 <= i < n ==> low <= rest[i] <= high
  {
    hide Sum, Spread;
    SumOne(low);
    SumOne(high);
    if n == 1 {
      rest := [high];
      assert rest[0] == high;
    } else {
      Distributes(n - 1, low);
      Distributes(n - 1, high);
      var middle := Spread(n - 2, low, high, total - low - high);
      SpreadIs(n - 2, low, high, total - low - high);
      rest := middle + [low] + [high];
      SumConcat(middle, [low]);
      SumConcat(middle + [low], [high]);
      assert rest[n - 2] == low && rest[n - 1] == high;
    }
  }

  /** The lengths other than zero, the greatest and, without empty messages, the least among them. */
  lemma {:induction false} PositivesFor(s: Statistics) returns (rest: seq<nat>)
    requires s.Valid() && s.zeros < s.count
    ensures |rest| == s.count - s.zeros && Sum(rest) == s.lengths.total && s.lengths.high.value in rest
    ensures s.zeros == 0 ==> s.lengths.low.value in rest
    ensures forall i :: 0 <= i < |rest| ==> 0 < rest[i] <= s.lengths.high.value && s.lengths.low.value <= rest[i]
  {
    hide Sum;
    BoundsAre(s);
    var low, high, n, total := s.lengths.low.value, s.lengths.high.value, s.count - s.zeros, s.lengths.total;
    if s.zeros > 0 { rest := PositivesUpTo(n, high, total); } else { rest := LengthsBetween(n, low, high, total); }
  }

  /** The types in order, each as often as its bin says. */
  ghost function KindsOf(types: seq<nat>): seq<nat>
  {
    if types == [] then [] else KindsOf(types[..|types| - 1]) + seq(types[|types| - 1], _ => |types| - 1)
  }

  ghost function KindIs(k: nat): int -> int { (v: int) => if v == k then 1 else 0 }

  lemma {:induction false} RepeatCounts(n: nat, v: nat, k: nat)
    ensures SumOver<int>(seq(n, _ => v), KindIs(k)) == if v == k then n else 0
  {
    if n > 0 {
      assert seq(n, _ => v)[..n - 1] == seq(n - 1, _ => v);
      RepeatCounts(n - 1, v, k);
    }
  }

  lemma {:induction false} KindsAre(types: seq<nat>, k: nat)
    ensures var r := KindsOf(types);
            && |r| == Sum(types) && (forall i :: 0 <= i < |r| ==> r[i] < |types|)
            && SumOver<int>(r, KindIs(k)) == if k < |types| then types[k] else 0
  {
    if types != [] {
      var last := |types| - 1;
      KindsAre(types[..last], k);
      RepeatCounts(types[last], last, k);
      SumOverConcat<int>(KindsOf(types[..last]), seq(types[last], _ => last), KindIs(k));
    }
  }

  ghost function Lengths(ms: seq<Message>): (r: seq<nat>)
    ensures |r| == |ms| && forall i :: 0 <= i < |ms| ==> r[i] == ms[i].length
  {
    seq(|ms|, i requires 0 <= i < |ms| => ms[i].length)
  }

  ghost function Kinds(ms: seq<Message>): (r: seq<nat>)
    ensures |r| == |ms| && forall i :: 0 <= i < |ms| ==> r[i] == ms[i].kind
  {
    seq(|ms|, i requires 0 <= i < |ms| => ms[i].kind)
  }

  /** What messages add up to: their number, the lengths, and how many there are of each type. */
  lemma {:induction false} FoldMeans(ms: seq<Message>, k: nat)
    requires k < TYPES && forall i :: 0 <= i < |ms| ==> InBounds(ms[i])
    ensures var r := Fold(ms);
            r.count == |ms| && Amounts(Lengths(ms), r.zeros, r.lengths)
              && r.types[k] == SumOver<int>(Kinds(ms), KindIs(k))
  {
    hide Amounts, SumOver;
    if ms == [] {
      NothingAmounts(k);
    } else {
      var init, m, all := ms[..|ms| - 1], ms[|ms| - 1], Lengths(ms);
      FoldMeans(init, k);
      assert all == Lengths(init) + [m.length] && Kinds(ms) == Kinds(init) + [m.kind];
      SumOverAppend<int>(Kinds(init), m.kind, KindIs(k));
      AmountsAppend(Lengths(init), Fold(init).zeros, Fold(init).lengths, m.length);
    }
  }

  lemma {:induction false} NothingAmounts(k: nat)
    ensures Amounts([], 0, NOTHING) && SumOver<int>([], KindIs(k)) == 0
  { }

  lemma {:induction false} AmountsAppend(lengths: seq<nat>, zeros: nat, span: Span, v: nat)
    requires Amounts(lengths, zeros, span)
    ensures Amounts(lengths + [v], zeros + if v == 0 then 1 else 0, Observe(span, v))
  {
    var all := lengths + [v];
    SumConcat(lengths, [v]);
    SumOne(v);
    SumOverAppend<int>(lengths, v, IsZero());
    hide Sum, SumOver;
    assert all[|lengths|] == v;
    assert forall u :: u in lengths ==> u in all;
  }

  lemma {:induction false} AmountsUnique(lengths: seq<nat>, zeros: nat, span: Span, zeros': nat, span': Span)
    requires Amounts(lengths, zeros, span) && Amounts(lengths, zeros', span')
    ensures zeros == zeros' && span == span'
  { }

  /** Every value the check accepts is the aggregate of some messages. */
  lemma {:induction false} EveryValidIsAttained(s: Statistics) returns (ms: seq<Message>)
    requires s.Valid()
    ensures (forall i :: 0 <= i < |ms| ==> InBounds(ms[i])) && Fold(ms) == s
  {
    var lengths := LengthsFor(s);
    var kinds := KindsOf(s.types);
    KindsAre(s.types, 0);
    ms := seq(s.count, i requires 0 <= i < s.count => Message(kinds[i], lengths[i]));
    assert Lengths(ms) == lengths && Kinds(ms) == kinds;
    hide Amounts, Fold, KindsOf, SumOver, Sum;
    var r := Fold(ms);
    FoldMeans(ms, 0);
    AmountsUnique(lengths, r.zeros, r.lengths, s.zeros, s.lengths);
    forall k: nat | k < TYPES ensures r.types[k] == s.types[k] {
      FoldMeans(ms, k);
      KindsAre(s.types, k);
    }
    assert r.types == s.types;
  }

  /** The check is exact. */
  lemma {:induction false} ValidIffAttainable(s: Statistics)
    ensures s.Valid() <==> exists ms :: (forall i :: 0 <= i < |ms| ==> InBounds(ms[i])) && Fold(ms) == s
  {
    hide Statistics.Valid, Fold;
    if s.Valid() {
      var ms := EveryValidIsAttained(s);
    }
    forall ms | (forall i :: 0 <= i < |ms| ==> InBounds(ms[i])) && Fold(ms) == s ensures s.Valid() {
      FoldIsValid(ms);
    }
  }
}
