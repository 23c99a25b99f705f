/** Sums over lists, and a running total with its least and greatest member: the shape of every aggregate. */
module Tally {
  import opened Common

  ghost function Sum(s: seq<int>): int { if s == [] then 0 else Sum(s[..|s| - 1]) + s[|s| - 1] }

  ghost function SumOver<T>(s: seq<T>, f: T -> int): int
  {
    if s == [] then 0 else SumOver(s[..|s| - 1], f) + f(s[|s| - 1])
  }

  lemma {:induction false} SumConcat(a: seq<int>, b: seq<int>)
    ensures Sum(a + b) == Sum(a) + Sum(b)
  {
    if b == [] {
      assert a + b == a;
    } else {
      assert (a + b)[..|a + b| - 1] == a + b[..|b| - 1];
      SumConcat(a, b[..|b| - 1]);
    }
  }

  lemma {:induction false} SumOne(x: int)
    ensures Sum([x]) == x
  {
    assert [x][..0] == [];
  }

  /** Counting one more in a bin counts one more in all. */
  lemma {:induction false} SumUpdate(s: seq<int>, i: nat, x: int)
    requires i < |s|
    ensures Sum(s[i := x]) == Sum(s) - s[i] + x
  {
    var t := s[i := x];
    assert s == s[..i] + [s[i]] + s[i + 1..] && t == s[..i] + [x] + s[i + 1..];
    SumConcat(s[..i] + [s[i]], s[i + 1..]);
    SumConcat(s[..i], [s[i]]);
    SumConcat(s[..i] + [x], s[i + 1..]);
    SumConcat(s[..i], [x]);
    SumOne(x);
    SumOne(s[i]);
  }

  lemma {:induction false} SumOfZeros(n: nat)
    ensures Sum(seq(n, _ => 0)) == 0
  {
    if n > 0 {
      assert seq(n, _ => 0)[..n - 1] == seq(n - 1, _ => 0);
      SumOfZeros(n - 1);
    }
  }

  lemma {:induction false} SumOverConcat<T>(a: seq<T>, b: seq<T>, f: T -> int)
    ensures SumOver(a + b, f) == SumOver(a, f) + SumOver(b, f)
  {
    if b == [] {
      assert a + b == a;
    } else {
      assert (a + b)[..|a + b| - 1] == a + b[..|b| - 1];
      SumOverConcat(a, b[..|b| - 1], f);
    }
  }

  lemma {:induction false} SumOverNothing<T>(f: T -> int)
    ensures SumOver([], f) == 0
  { }

  lemma {:induction false} SumOverOne<T>(x: T, f: T -> int)
    ensures SumOver([x], f) == f(x)
  {
    assert [x][..0] == [];
  }

  lemma {:induction false} SumOverAppend<T>(s: seq<T>, x: T, f: T -> int)
    ensures SumOver(s + [x], f) == SumOver(s, f) + f(x)
  {
    assert (s + [x])[..|s|] == s;
  }

  lemma {:induction false} SumOverUpdate<T>(s: seq<T>, i: nat, x: T, f: T -> int)
    requires i < |s|
    ensures SumOver(s[i := x], f) == SumOver(s, f) - f(s[i]) + f(x)
  {
    var t := s[i := x];
    assert s == s[..i] + [s[i]] + s[i + 1..] && t == s[..i] + [x] + s[i + 1..];
    SumOverConcat(s[..i] + [s[i]], s[i + 1..], f);
    SumOverConcat(s[..i] + [x], s[i + 1..], f);
    SumOverAppend(s[..i], s[i], f);
    SumOverAppend(s[..i], x, f);
  }

  lemma {:induction false} SumOverRemove<T>(s: seq<T>, i: nat, f: T -> int)
    requires i < |s|
    ensures SumOver(s[..i] + s[i + 1..], f) == SumOver(s, f) - f(s[i])
  {
    assert s == s[..i] + [s[i]] + s[i + 1..];
    SumOverConcat(s[..i] + [s[i]], s[i + 1..], f);
    SumOverConcat(s[..i], s[i + 1..], f);
    SumOverAppend(s[..i], s[i], f);
  }

  lemma {:induction false} Cancel<T>(a: multiset<T>, b: multiset<T>, x: T)
    requires a + multiset{x} == b + multiset{x}
    ensures a == b
  {
    assert a == (a + multiset{x}) - multiset{x};
    assert b == (b + multiset{x}) - multiset{x};
  }

  /** A sum does not depend on the order. */
  lemma {:induction false} SumOverPermuted<T>(a: seq<T>, b: seq<T>, f: T -> int)
    requires multiset(a) == multiset(b)
    ensures SumOver(a, f) == SumOver(b, f)
    decreases |a|
  {
    if a == [] {
      assert |multiset(b)| == 0;
    } else {
      var x, before := a[|a| - 1], a[..|a| - 1];
      assert a == before + [x];
      assert x in multiset(b);
      var i :| 0 <= i < |b| && b[i] == x;
      var rest := b[..i] + b[i + 1..];
      assert b == b[..i] + [x] + b[i + 1..];
      assert multiset(b) == multiset(rest) + multiset{x};
      Cancel(multiset(rest), multiset(before), x);
      SumOverPermuted(before, rest, f);
      SumOverConcat(b[..i] + [x], b[i + 1..], f);
      SumOverAppend(b[..i], x, f);
      SumOverConcat(b[..i], b[i + 1..], f);
    }
  }

  // ---------------------------------------------------------------- bins

  /** One more in a bin. */
  function Bump(bins: seq<nat>, i: nat): (r: seq<nat>)
    requires i < |bins|
    ensures |r| == |bins| && forall k :: 0 <= k < |bins| ==> r[k] == bins[k] + if k == i then 1 else 0
  {
    bins[i := bins[i] + 1]
  }

  lemma {:induction false} BumpSum(bins: seq<nat>, i: nat)
    requires i < |bins|
    ensures Sum(Bump(bins, i)) == Sum(bins) + 1
  {
    SumUpdate(bins, i, bins[i] + 1);
  }

  // ---------------------------------------------------------------- lists of lists

  /** What each member contributes, one after another. */
  ghost function Gather<T, U>(s: seq<T>, f: T -> seq<U>): seq<U>
  {
    if s == [] then [] else Gather(s[..|s| - 1], f) + f(s[|s| - 1])
  }

  lemma {:induction false} GatherAppend<T, U>(s: seq<T>, x: T, f: T -> seq<U>)
    ensures Gather(s + [x], f) == Gather(s, f) + f(x)
  {
    assert (s + [x])[..|s|] == s;
  }

  lemma {:induction false} GatherConcat<T, U>(a: seq<T>, b: seq<T>, f: T -> seq<U>)
    ensures Gather(a + b, f) == Gather(a, f) + Gather(b, f)
  {
    if b == [] {
      assert a + b == a;
      assert Gather(a, f) + [] == Gather(a, f);
    } else {
      var init, x := b[..|b| - 1], b[|b| - 1];
      assert a + b == (a + init) + [x];
      GatherAppend(a + init, x, f);
      GatherConcat(a, init, f);
      assert Gather(a, f) + Gather(init, f) + f(x) == Gather(a, f) + (Gather(init, f) + f(x));
    }
  }

  /** Reordering the members only reorders what they contribute. */
  lemma {:induction false} GatherPermuted<T, U>(a: seq<T>, b: seq<T>, f: T -> seq<U>)
    requires multiset(a) == multiset(b)
    ensures multiset(Gather(a, f)) == multiset(Gather(b, f))
    decreases |a|
  {
    if a == [] {
      assert |multiset(b)| == 0;
    } else {
      var x, before := a[|a| - 1], a[..|a| - 1];
      assert a == before + [x];
      assert x in multiset(b);
      var i :| 0 <= i < |b| && b[i] == x;
      var left, right := b[..i], b[i + 1..];
      assert b == left + [x] + right;
      assert multiset(b) == multiset(left + right) + multiset{x};
      Cancel(multiset(left + right), multiset(before), x);
      GatherPermuted(before, left + right, f);
      GatherConcat(left, right, f);
      GatherConcat(left + [x], right, f);
      GatherAppend(left, x, f);
    }
  }

  // ---------------------------------------------------------------- totals and extrema

  /** A running total with the least and greatest value seen, both absent before the first. */
  datatype Span = Span(total: int, low: Option<int>, high: Option<int>)

  const NOTHING := Span(0, None, None)

  function Observe(s: Span, v: int): Span
  {
    Span(s.total + v, Some(if s.low.None? then v else Min(s.low.value, v)),
         Some(if s.high.None? then v else Max(s.high.value, v)))
  }

  /** `count` values between `low` and `high` can have this total. */
  predicate Bounds(s: Span, count: nat)
  {
    if count == 0 then s == NOTHING
    else
      && s.low.Some? && s.high.Some? && s.low.value <= s.high.value
      && s.low.value * count <= s.total <= s.high.value * count
  }

  predicate Natural(s: Span)
  {
    s.total >= 0 && (s.low.Some? ==> 0 <= s.low.value) && (s.high.Some? ==> 0 <= s.high.value)
  }

  predicate Within(s: Span, lower: int, upper: int)
  {
    (s.low.Some? ==> lower <= s.low.value) && (s.high.Some? ==> s.high.value <= upper)
  }

  lemma {:induction false} NothingObserved()
    ensures Bounds(NOTHING, 0)
  { }

  lemma {:induction false} ObserveKeepsBounds(s: Span, count: nat, v: int)
    requires Bounds(s, count)
    ensures Bounds(Observe(s, v), count + 1)
  {
    if count > 0 {
      var o := Observe(s, v);
      Monotone(o.low.value, s.low.value, count);
      Monotone(s.high.value, o.high.value, count);
    }
  }

  lemma {:induction false} Monotone(a: int, b: int, n: nat)
    requires a <= b
    ensures a * n <= b * n
  { }

  /** The least of some values, absent if there are none. */
  ghost predicate LeastOf<T>(low: Option<int>, all: seq<T>, f: T -> int)
  {
    if all == [] then low.None?
    else low.Some? && (exists x :: x in all && f(x) == low.value) && forall x :: x in all ==> low.value <= f(x)
  }

  ghost predicate GreatestOf<T>(high: Option<int>, all: seq<T>, f: T -> int)
  {
    if all == [] then high.None?
    else high.Some? && (exists x :: x in all && f(x) == high.value) && forall x :: x in all ==> f(x) <= high.value
  }

  /** The sum, the least and the greatest of some values. */
  ghost predicate SpanOf<T>(s: Span, all: seq<T>, f: T -> int)
  {
    s.total == SumOver(all, f) && LeastOf(s.low, all, f) && GreatestOf(s.high, all, f)
  }

  lemma {:induction false} SpanOfNothing<T>(f: T -> int)
    ensures SpanOf(NOTHING, [], f)
  { }

  lemma {:induction false} LeastOfAppend<T>(low: Option<int>, all: seq<T>, x: T, f: T -> int)
    requires LeastOf(low, all, f)
    ensures LeastOf(Some(if low.None? then f(x) else Min(low.value, f(x))), all + [x], f)
  {
    assert x in all + [x] && forall y :: y in all ==> y in all + [x];
  }

  lemma {:induction false} GreatestOfAppend<T>(high: Option<int>, all: seq<T>, x: T, f: T -> int)
    requires GreatestOf(high, all, f)
    ensures GreatestOf(Some(if high.None? then f(x) else Max(high.value, f(x))), all + [x], f)
  {
    assert x in all + [x] && forall y :: y in all ==> y in all + [x];
  }

  lemma {:induction false} SpanOfAppend<T>(s: Span, all: seq<T>, x: T, f: T -> int)
    requires SpanOf(s, all, f)
    ensures SpanOf(Observe(s, f(x)), all + [x], f)
  {
    hide LeastOf, GreatestOf, SumOver;
    SumOverAppend(all, x, f);
    LeastOfAppend(s.low, all, x, f);
    GreatestOfAppend(s.high, all, x, f);
  }

  lemma {:induction false} SameMembers<T>(a: seq<T>, b: seq<T>)
    requires multiset(a) == multiset(b)
    ensures |a| == |b| && forall x :: x in a <==> x in b
  {
    assert |multiset(a)| == |multiset(b)|;
    assert forall x :: x in a <==> x in multiset(a);
    assert forall x :: x in b <==> x in multiset(b);
  }

  lemma {:induction false} ExtremesPermuted<T>(low: Option<int>, a: seq<T>, b: seq<T>, f: T -> int)
    requires multiset(a) == multiset(b)
    ensures LeastOf(low, a, f) == LeastOf(low, b, f) && GreatestOf(low, a, f) == GreatestOf(low, b, f)
  {
    SameMembers(a, b);
  }

  lemma {:induction false} SpanOfPermuted<T>(s: Span, a: seq<T>, b: seq<T>, f: T -> int)
    requires multiset(a) == multiset(b) && SpanOf(s, a, f)
    ensures SpanOf(s, b, f)
  {
    hide LeastOf, GreatestOf, SumOver;
    SumOverPermuted(a, b, f);
    ExtremesPermuted(s.low, a, b, f);
    ExtremesPermuted(s.high, a, b, f);
  }

  /** There is one least and one greatest value. */
  lemma {:induction false} ExtremesDetermined<T>(x: Option<int>, y: Option<int>, all: seq<T>, f: T -> int)
    ensures LeastOf(x, all, f) && LeastOf(y, all, f) ==> x == y
    ensures GreatestOf(x, all, f) && GreatestOf(y, all, f) ==> x == y
  { }
}
