/** Small datatypes and sequence facts shared by the whole model. */
module Common {

  datatype Option<+T> = None | Some(value: T)

  /** A Python call either returns or raises; `error` names the raise. */
  datatype Result<+T, +E> = Ok(value: T) | Err(error: E)

  datatype Direction = Forward | Reverse

  function Opposite(d: Direction): (r: Direction)
    ensures r != d
  {
    if d == Forward then Reverse else Forward
  }

  type Byte = b: int | 0 <= b < 256

  type Bytes = seq<Byte>

  function Min(a: int, b: int): int { if a <= b then a else b }

  function Max(a: int, b: int): int { if a <= b then b else a }

  /** `int.from_bytes(b, 'big')`. */
  function BigEndian(b: Bytes): nat
  {
    if b == [] then 0 else BigEndian(b[..|b| - 1]) * 256 + b[|b| - 1]
  }

  function Power(n: nat): nat { if n == 0 then 1 else 256 * Power(n - 1) }

  /** A number written in `n` octets, most significant first. */
  function Digits(v: nat, n: nat): (b: Bytes)
    ensures |b| == n
  {
    if n == 0 then [] else Digits(v / 256, n - 1) + [(v % 256) as Byte]
  }

  lemma {:induction false} DigitsRead(v: nat, n: nat)
    requires v < Power(n)
    ensures BigEndian(Digits(v, n)) == v
  {
    if n > 0 {
      DigitsRead(v / 256, n - 1);
      assert Digits(v, n)[..n - 1] == Digits(v / 256, n - 1);
    }
  }

  lemma {:induction false} DigitsWritten(b: Bytes)
    ensures BigEndian(b) < Power(|b|) && Digits(BigEndian(b), |b|) == b
  {
    if b != [] {
      DigitsWritten(b[..|b| - 1]);
      assert b == b[..|b| - 1] + [b[|b| - 1]];
    }
  }

  /** The 16-bit field at a position, in network order. */
  function Word(payload: Bytes, position: nat): (r: nat)
    requires position + 2 <= |payload|
    ensures r < 65536
  {
    (payload[position] as int) * 256 + payload[position + 1] as int
  }

  /** A 16-bit field in network order. */
  function TwoBytes(w: nat): (b: Bytes)
    requires w < 65536
    ensures |b| == 2
  {
    [(w / 256) as Byte, (w % 256) as Byte]
  }

  /** A set of naturals below `n` has at most `n` members, and all of them only if it has `n`. */
  lemma {:induction false} BoundedSet(s: set<nat>, n: nat)
    requires forall x :: x in s ==> x < n
    ensures |s| <= n
    ensures |s| == n ==> forall x: nat :: x < n ==> x in s
  {
    if n == 0 {
      assert forall x :: x !in s;
    } else {
      var t := s - {n - 1};
      BoundedSet(t, n - 1);
      if n - 1 in s {
        assert s == t + {n - 1};
      } else {
        assert s == t;
      }
    }
  }

  /** Injecting a finite set into another one bounds its size. */
  lemma {:induction false} InjectionBound(s: set<nat>, t: set<nat>, f: map<nat, nat>)
    requires s <= f.Keys
    requires forall x :: x in s ==> f[x] in t
    requires forall x, y :: x in s && y in s && f[x] == f[y] ==> x == y
    ensures |s| <= |t|
    decreases s
  {
    if s != {} {
      var x :| x in s;
      InjectionBound(s - {x}, t - {f[x]}, f);
    }
  }

  /** A slice of a slice is a slice. */
  lemma {:induction false} SliceOfSlice<T>(s: seq<T>, lo: nat, hi: nat, i: nat, j: nat)
    requires lo <= hi <= |s| && i <= j <= hi - lo
    ensures s[lo..hi][i..j] == s[lo + i..lo + j]
  {
    var a, b := s[lo..hi][i..j], s[lo + i..lo + j];
    forall n | 0 <= n < j - i ensures a[n] == b[n] {
      assert a[n] == s[lo..hi][i + n];
    }
  }
}
