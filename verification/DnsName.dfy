/**
 * Domain names in DNS messages (section 4.1.4 of RFC 1035): labels, the root,
 * and compression pointers that may only reach back to names already read.
 */
module DnsName {
  import opened Common

  const MAX_POINTER_HOPS := 32
  const MAX_LABEL_BYTES := 63
  const MAX_NAME_BYTES := 255
  const HEADER_BYTES := 12

  datatype Status = Complete | Incomplete | Malformed | Unsupported

  datatype Reason =
    | Truncated | PointerLoop | OutsideNameArea | NotBackwards | IntoOpaqueData | NotABoundary | TraversalLimit
    | ExtendedLabel | ReservedLabel | NameTooLong
    | OptionBytes | OptionCount | OptionHeader | OptionData
    | MessageSize | EntryLimit | OptSection | OptOwner | MultipleOpt | TrailingBytes

  datatype ParseError = ParseError(status: Status, reason: Reason, offset: nat, limitReached: bool)

  datatype Name = Name(offset: nat, encodedLength: nat, labels: seq<Bytes>, pointerHops: nat)

  /** A byte range of record data, which compression must not point into. */
  datatype Range = Range(lower: nat, upper: nat)

  function Require(payload: Bytes, position: nat, count: nat): Option<ParseError>
  {
    if position + count > |payload| then Some(ParseError(Incomplete, Truncated, position, false)) else None
  }

  predicate IsPointer(b: Byte) { b >= 0xC0 }

  /** The fourteen low bits of a compression pointer. */
  function Target(payload: Bytes, position: nat): (r: nat)
    requires position + 2 <= |payload| && IsPointer(payload[position])
  {
    (payload[position] as int - 0xC0) * 256 + payload[position + 1] as int
  }

  predicate InOpaque(ranges: seq<Range>, target: nat)
  {
    exists i :: 0 <= i < |ranges| && ranges[i].lower <= target < ranges[i].upper
  }

  /** The variables of the name loop. */
  datatype Walk = Walk(position: nat, end: Option<nat>, expanded: nat, hops: nat, labels: seq<Bytes>,
          visited: set<nat>, boundaries: set<nat>)

  ghost predicate InBounds(w: Walk) { w.hops <= MAX_POINTER_HOPS && w.expanded <= MAX_NAME_BYTES }

  /** Why a pointer is refused, if it is. */
  function PointerError(payload: Bytes, ranges: seq<Range>, w: Walk): Option<ParseError>
    requires w.position + 2 <= |payload| && IsPointer(payload[w.position])
  {
    var target := Target(payload, w.position);
    if target in w.visited + {w.position} then Some(ParseError(Malformed, PointerLoop, w.position, false))
    else if target < HEADER_BYTES || target >= |payload|
            then Some(ParseError(Malformed, OutsideNameArea, w.position, false))
    else if target >= w.position then Some(ParseError(Malformed, NotBackwards, w.position, false))
    else if target !in w.boundaries then
      Some(if InOpaque(ranges, target) then ParseError(Unsupported, IntoOpaqueData, w.position, false)
           else ParseError(Malformed, NotABoundary, w.position, false))
    else if w.hops == MAX_POINTER_HOPS then Some(ParseError(Unsupported, TraversalLimit, w.position, true))
    else None
  }

  datatype StepResult = Done(name: Name, boundaries: set<nat>) | Next(walk: Walk) | Failed(error: ParseError)

  /** One round of the name loop; `start` is where the name began. */
  function Step(payload: Bytes, ranges: seq<Range>, start: nat, w: Walk): StepResult
  {
    var p := w.position;
    if p >= |payload| then Failed(ParseError(Incomplete, Truncated, p, false))
    else if p in w.visited then Failed(ParseError(Malformed, PointerLoop, p, false))
    else
      var length := payload[p];
      if length == 0 then
        var end := if w.end.Some? then w.end.value else p + 1;
        Done(Name(start, if end >= start then end - start else 0, w.labels, w.hops), w.boundaries + {p})
      else if IsPointer(length) then
        if p + 2 > |payload| then Failed(ParseError(Incomplete, Truncated, p, false))
        else if PointerError(payload, ranges, w).Some? then Failed(PointerError(payload, ranges, w).value)
        else Next(w.(boundaries := w.boundaries + {p}, visited := w.visited + {p}, hops := w.hops + 1,
                     end := if w.end.Some? then w.end else Some(p + 2), position := Target(payload, p)))
      else if 0x40 <= length < 0x80 then Failed(ParseError(Unsupported, ExtendedLabel, p, false))
      else if length > MAX_LABEL_BYTES then Failed(ParseError(Malformed, ReservedLabel, p, false))
      else if p + 1 + length > |payload| then Failed(ParseError(Incomplete, Truncated, p + 1, false))
      else if w.expanded + length + 1 > MAX_NAME_BYTES then Failed(ParseError(Malformed, NameTooLong, p, false))
      else Next(w.(expanded := w.expanded + length + 1, boundaries := w.boundaries + {p}, visited := w.visited + {p},
                   labels := w.labels + [payload[p + 1..p + 1 + length]], position := p + 1 + length))
  }

  type NameResult = Result<(Name, set<nat>), ParseError>

  /** The loop's outcome: every round uses up hops or name bytes, so it ends. */
  ghost function NameFrom(payload: Bytes, ranges: seq<Range>, start: nat, w: Walk): NameResult
    requires InBounds(w)
    decreases MAX_POINTER_HOPS - w.hops + MAX_NAME_BYTES - w.expanded
  {
    match Step(payload, ranges, start, w)
    case Done(name, boundaries) => Ok((name, boundaries))
    case Failed(error) => Err(error)
    case Next(walk) => NameFrom(payload, ranges, start, walk)
  }

  lemma {:induction false} StepDecides(payload: Bytes, ranges: seq<Range>, start: nat, w: Walk)
    requires InBounds(w)
    ensures var step, n := Step(payload, ranges, start, w), NameFrom(payload, ranges, start, w);
            && (step.Done? ==> n == Ok((step.name, step.boundaries))) && (step.Failed? ==> n == Err(step.error))
            && (step.Next? ==> InBounds(step.walk) && n == NameFrom(payload, ranges, start, step.walk))
  { }

  function Begin(start: nat, boundaries: set<nat>): Walk { Walk(start, None, 1, 0, [], {}, boundaries) }

  /** `_name`. The boundaries come back extended; on an error the whole message is abandoned. */
  method ReadName(payload: Bytes, start: nat, boundaries0: set<nat>, ranges: seq<Range>)
    returns (r: Result<Name, ParseError>, boundaries: set<nat>)
    ensures var n := NameFrom(payload, ranges, start, Begin(start, boundaries0));
            if n.Ok? then r == Ok(n.value.0) && boundaries == n.value.1 else r == Err(n.error)
  {
    boundaries := boundaries0;
    hide InOpaque, Target, Word, IsPointer, NameFrom;
    ghost var all := NameFrom(payload, ranges, start, Begin(start, boundaries0));
    var position: nat, end: Option<nat>, expanded: nat, hops: nat := start, None, 1, 0;
    var labels: seq<Bytes>, visited: set<nat> := [], {};
    while true
      invariant hops <= MAX_POINTER_HOPS && expanded <= MAX_NAME_BYTES
      invariant NameFrom(payload, ranges, start, Walk(position, end, expanded, hops, labels, visited, boundaries))
             == all
      invariant end.Some? ==> end.value >= start
      invariant end.None? ==> position >= start
      decreases MAX_POINTER_HOPS - hops + MAX_NAME_BYTES - expanded
    {
      var w := Walk(position, end, expanded, hops, labels, visited, boundaries);
      StepDecides(payload, ranges, start, w);
      var short := Require(payload, position, 1);
      if short.Some? { return Err(short.value), boundaries; }
      if position in visited { return Err(ParseError(Malformed, PointerLoop, position, false)), boundaries; }
      visited := visited + {position};
      var length := payload[position];
      if length == 0 {
        boundaries := boundaries + {position};
        if end.None? { end := Some(position + 1); }
        return Ok(Name(start, end.value - start, labels, hops)), boundaries;
      }
      if IsPointer(length) {
        short := Require(payload, position, 2);
        if short.Some? { return Err(short.value), boundaries; }
        var refused := PointerError(payload, ranges, w);
        if refused.Some? { return Err(refused.value), boundaries; }
        boundaries := boundaries + {position};
        hops := hops + 1;
        if end.None? { end := Some(position + 2); }
        position := Target(payload, position);
        continue;
      }
      if 0x40 <= length < 0x80 { return Err(ParseError(Unsupported, ExtendedLabel, position, false)), boundaries; }
      if length > MAX_LABEL_BYTES { return Err(ParseError(Malformed, ReservedLabel, position, false)), boundaries; }
      short := Require(payload, position + 1, length);
      if short.Some? { return Err(short.value), boundaries; }
      expanded := expanded + length + 1;
      if expanded > MAX_NAME_BYTES { return Err(ParseError(Malformed, NameTooLong, position, false)), boundaries; }
      boundaries := boundaries + {position};
      labels := labels + [payload[position + 1..position + 1 + length]];
      position := position + length + 1;
    }
  }

  // ---------------------------------------------------------------- what a name means

  /** The labels found by following a name without any limit but `fuel` steps. */
  ghost function Expand(payload: Bytes, position: nat, fuel: nat): Option<seq<Bytes>>
    decreases fuel
  {
    if fuel == 0 || position >= |payload| then None
    else
      var length := payload[position];
      if length == 0 then Some([])
      else if IsPointer(length) then
        if position + 2 > |payload| then None else Expand(payload, Target(payload, position), fuel - 1)
      else if length > MAX_LABEL_BYTES || position + 1 + length > |payload| then None
      else
        var rest := Expand(payload, position + 1 + length, fuel - 1);
        if rest.None? then None else Some([payload[position + 1..position + 1 + length]] + rest.value)
  }

  ghost predicate Means(payload: Bytes, position: nat, labels: seq<Bytes>)
  {
    exists fuel: nat :: Expand(payload, position, fuel) == Some(labels)
  }

  /** More fuel never changes an expansion. */
  lemma {:induction false} FuelIsEnough(payload: Bytes, position: nat, fuel: nat, more: nat)
    requires Expand(payload, position, fuel).Some? && fuel <= more
    ensures Expand(payload, position, more) == Expand(payload, position, fuel)
    decreases fuel
  {
    var length := payload[position];
    if length != 0 {
      if IsPointer(length) {
        FuelIsEnough(payload, Target(payload, position), fuel - 1, more - 1);
      } else {
        FuelIsEnough(payload, position + 1 + length, fuel - 1, more - 1);
      }
    }
  }

  /** A name means one list of labels. */
  lemma {:induction false} MeaningIsUnique(payload: Bytes, position: nat, a: seq<Bytes>, b: seq<Bytes>)
    requires Means(payload, position, a) && Means(payload, position, b)
    ensures a == b
  {
    var f: nat :| Expand(payload, position, f) == Some(a);
    var g: nat :| Expand(payload, position, g) == Some(b);
    if f <= g { FuelIsEnough(payload, position, f, g); } else { FuelIsEnough(payload, position, g, f); }
  }

  ghost function Octets(labels: seq<Bytes>): nat
  {
    if labels == [] then 0 else Octets(labels[..|labels| - 1]) + 1 + |labels[|labels| - 1]|
  }

  ghost predicate HasMeaning(payload: Bytes, position: nat)
  {
    exists labels :: Means(payload, position, labels)
  }

  lemma {:induction false} StepMeans(payload: Bytes, ranges: seq<Range>, start: nat, w: Walk, rest: seq<Bytes>)
    requires Step(payload, ranges, start, w).Next?
    requires Means(payload, Step(payload, ranges, start, w).walk.position, rest)
    ensures var next := Step(payload, ranges, start, w).walk;
            Means(payload, w.position, next.labels[|w.labels|..] + rest) && HasMeaning(payload, w.position)
  {
    var next := Step(payload, ranges, start, w).walk;
    var fuel: nat :| Expand(payload, next.position, fuel) == Some(rest);
    var more := fuel + 1;
    if IsPointer(payload[w.position]) {
      assert next.labels[|w.labels|..] + rest == rest;
    }
    var all := next.labels[|w.labels|..] + rest;
    assert Expand(payload, w.position, more) == Some(all);
    assert Means(payload, w.position, all);
  }

  /**
   * A decoded name has exactly the labels its encoding means, within the
   * limits, and every boundary it adds is itself the start of a name.
   */
  lemma {:induction false} WalkMeans(payload: Bytes, ranges: seq<Range>, start: nat, w: Walk) returns (rest: seq<Bytes>)
    requires InBounds(w) && NameFrom(payload, ranges, start, w).Ok?
    requires w.expanded == 1 + Octets(w.labels)
    ensures var (name, boundaries) := NameFrom(payload, ranges, start, w).value;
            && name.labels == w.labels + rest && Means(payload, w.position, rest)
            && 1 + Octets(name.labels) <= MAX_NAME_BYTES && w.hops <= name.pointerHops <= MAX_POINTER_HOPS
            && name.offset == start
            && w.boundaries <= boundaries
            && (forall b :: b in boundaries && b !in w.boundaries ==> HasMeaning(payload, b))
    decreases MAX_POINTER_HOPS - w.hops + MAX_NAME_BYTES - w.expanded
  {
    hide Step, Octets;
    match Step(payload, ranges, start, w)
    case Done(name, boundaries) =>
      rest := [];
      DoneMeans(payload, ranges, start, w);
      assert w.labels + [] == w.labels;
    case Next(walk) =>
      StepAddsOctets(payload, ranges, start, w);
      var later := WalkMeans(payload, ranges, start, walk);
      StepMeans(payload, ranges, start, w, later);
      rest := walk.labels[|w.labels|..] + later;
      assert walk.labels + later == w.labels + rest;
  }

  lemma {:induction false} DoneMeans(payload: Bytes, ranges: seq<Range>, start: nat, w: Walk)
    requires Step(payload, ranges, start, w).Done?
    ensures Means(payload, w.position, []) && HasMeaning(payload, w.position)
    ensures var r := Step(payload, ranges, start, w);
            && r.name.labels == w.labels && r.name.pointerHops == w.hops && r.name.offset == start
            && r.boundaries == w.boundaries + {w.position}
  {
    var none: seq<Bytes> := [];
    assert Expand(payload, w.position, 1) == Some(none);
    assert Means(payload, w.position, none);
  }

  lemma {:induction false} StepAddsOctets(payload: Bytes, ranges: seq<Range>, start: nat, w: Walk)
    requires InBounds(w) && Step(payload, ranges, start, w).Next? && w.expanded == 1 + Octets(w.labels)
    ensures var next := Step(payload, ranges, start, w).walk;
            && InBounds(next) && next.hops >= w.hops && next.hops + next.expanded > w.hops + w.expanded
            && next.expanded == 1 + Octets(next.labels) && w.labels <= next.labels
            && next.boundaries == w.boundaries + {w.position}
  {
    var next := Step(payload, ranges, start, w).walk;
    if !IsPointer(payload[w.position]) {
      assert next.labels[..|next.labels| - 1] == w.labels;
    }
  }

  /** Every accepted pointer leads strictly back, to a boundary of a name read before this one began. */
  lemma {:induction false} PointersReachBack(payload: Bytes, ranges: seq<Range>, start: nat, w: Walk, before: set<nat>)
    requires InBounds(w) && NameFrom(payload, ranges, start, w).Ok?
    requires w.boundaries <= before + w.visited && before <= w.boundaries
    ensures var boundaries := NameFrom(payload, ranges, start, w).value.1;
            forall b :: b in boundaries && b !in w.boundaries ==>
              b < |payload| && (IsPointer(payload[b])
                                ==> b + 2 <= |payload| && Target(payload, b) in before && Target(payload, b) < b)
    decreases MAX_POINTER_HOPS - w.hops + MAX_NAME_BYTES - w.expanded
  {
    match Step(payload, ranges, start, w)
    case Done(name, boundaries) =>
    case Next(walk) => PointersReachBack(payload, ranges, start, walk, before);
  }

  /** The bytes a name takes up where it stands: up to its root or its first pointer. */
  function Span(payload: Bytes, position: nat): nat
    decreases |payload| - position
  {
    if position >= |payload| || payload[position] == 0 then 1
    else if IsPointer(payload[position]) then 2
    else 1 + payload[position] + Span(payload, position + 1 + payload[position])
  }

  lemma {:induction false} WalkSpans(payload: Bytes, ranges: seq<Range>, start: nat, w: Walk)
    requires InBounds(w) && NameFrom(payload, ranges, start, w).Ok?
    requires if w.end.Some? then w.end.value >= start else w.position >= start
    ensures var name := NameFrom(payload, ranges, start, w).value.0;
            start + name.encodedLength == if w.end.Some? then w.end.value else w.position + Span(payload, w.position)
    ensures w.end.None? ==> w.position + Span(payload, w.position) <= |payload|
    decreases MAX_POINTER_HOPS - w.hops + MAX_NAME_BYTES - w.expanded
  {
    match Step(payload, ranges, start, w)
    case Done(name, boundaries) =>
    case Next(walk) => WalkSpans(payload, ranges, start, walk);
  }

  /** All that a decoded name promises its message. */
  ghost predicate Decoded(payload: Bytes, start: nat, before: set<nat>, name: Name, after: set<nat>)
  {
    && name.offset == start && Means(payload, start, name.labels)
    && 1 + Octets(name.labels) <= MAX_NAME_BYTES && name.pointerHops <= MAX_POINTER_HOPS
    && name.encodedLength == Span(payload, start) && start + name.encodedLength <= |payload|
    && before <= after
    && (forall b :: b in after && b !in before ==>
          && HasMeaning(payload, b) && b < |payload|
          && (IsPointer(payload[b]) ==> b + 2 <= |payload| && Target(payload, b) in before && Target(payload, b) < b))
  }

  lemma {:induction false} NameIsDecoded(payload: Bytes, ranges: seq<Range>, start: nat, before: set<nat>)
    requires NameFrom(payload, ranges, start, Begin(start, before)).Ok?
    ensures var (name, after) := NameFrom(payload, ranges, start, Begin(start, before)).value;
            Decoded(payload, start, before, name, after)
  {
    hide NameFrom, Span;
    var w := Begin(start, before);
    var rest := WalkMeans(payload, ranges, start, w);
    assert w.labels + rest == rest;
    PointersReachBack(payload, ranges, start, w, before);
    WalkSpans(payload, ranges, start, w);
  }

  // ---------------------------------------------------------------- which names decode

  /** How a name is written: labels, then the root or a pointer to where its rest is written. */
  datatype Spelling = Root | Label(text: Bytes, rest: Spelling) | Pointer(target: nat, rest: Spelling)
  {
    function Labels(): seq<Bytes>
    {
      match this
      case Root => []
      case Label(text, rest) => [text] + rest.Labels()
      case Pointer(_, rest) => rest.Labels()
    }

    function Hops(): nat
    {
      match this
      case Root => 0
      case Label(_, rest) => rest.Hops()
      case Pointer(_, rest) => 1 + rest.Hops()
    }

    /** What the labels take up when nothing is compressed, without the root. */
    function Length(): nat
    {
      match this
      case Root => 0
      case Label(text, rest) => 1 + |text| + rest.Length()
      case Pointer(_, rest) => rest.Length()
    }

    function Depth(): nat
    {
      match this
      case Root => 0
      case Label(_, rest) => 1 + rest.Depth()
      case Pointer(_, rest) => 1 + rest.Depth()
    }

    /** What stands at the place of the name itself. */
    function Size(): nat
    {
      match this
      case Root => 1
      case Label(text, rest) => 1 + |text| + rest.Size()
      case Pointer(_, _) => 2
    }

    /** Where the name and its suffixes stand, when it begins at `p`. */
    function Places(p: nat): map<nat, Spelling>
    {
      match this
      case Root => map[p := this]
      case Label(text, rest) => rest.Places(p + 1 + |text|)[p := this]
      case Pointer(_, _) => map[p := this]
    }
  }

  /**
   * These bytes spell this name: labels of 1 to 63 bytes behind their lengths, the root
   * as a zero, and a pointer as two bytes that lead back to a name read before.
   */
  ghost predicate Spelled(payload: Bytes, p: nat, before: set<nat>, s: Spelling)
    decreases s
  {
    match s
    case Root => p < |payload| && payload[p] == 0
    case Label(text, rest) =>
      && 1 <= |text| <= 63 && p + 1 + |text| <= |payload| && payload[p] as int == |text|
      && payload[p + 1..p + 1 + |text|] == text && Spelled(payload, p + 1 + |text|, before, rest)
    case Pointer(target, rest) =>
      && p + 2 <= |payload| && 12 <= target < p && target < 0x4000 && target in before
      && payload[p] as int == 192 + target / 256 && payload[p + 1] as int == target % 256
      && Spelled(payload, target, before, rest)
  }

  /** The limits of section 2.3.4 of RFC 1035, and the program's own on pointers. */
  predicate Fits(s: Spelling) { 1 + s.Length() <= 255 && s.Hops() <= 32 }

  lemma {:induction false} SpelledGrows(payload: Bytes, p: nat, before: set<nat>, more: set<nat>, s: Spelling)
    requires Spelled(payload, p, before, s) && before <= more
    ensures Spelled(payload, p, more, s)
    decreases s
  {
    match s
    case Root =>
    case Label(text, rest) => SpelledGrows(payload, p + 1 + |text|, before, more, rest);
    case Pointer(target, rest) => SpelledGrows(payload, target, before, more, rest);
  }

  /** Bytes spell one name only. */
  lemma {:induction false} SpelledOnce(payload: Bytes, p: nat, before: set<nat>, a: Spelling, b: Spelling)
    requires Spelled(payload, p, before, a) && Spelled(payload, p, before, b)
    ensures a == b
    decreases a
  {
    match a
    case Root =>
    case Label(text, rest) => SpelledOnce(payload, p + 1 + |text|, before, rest, b.rest);
    case Pointer(target, rest) => SpelledOnce(payload, target, before, rest, b.rest);
  }

  lemma {:induction false} OctetsFirst(l: Bytes, rest: seq<Bytes>)
    ensures Octets([l] + rest) == 1 + |l| + Octets(rest)
  {
    var all := [l] + rest;
    if rest == [] {
      assert all[..0] == [];
    } else {
      OctetsFirst(l, rest[..|rest| - 1]);
      assert all[..|all| - 1] == [l] + rest[..|rest| - 1];
    }
  }

  lemma {:induction false} LengthIsOctets(s: Spelling)
    ensures s.Length() == Octets(s.Labels())
  {
    match s
    case Root =>
    case Label(text, rest) =>
      LengthIsOctets(rest);
      OctetsFirst(text, rest.Labels());
    case Pointer(_, rest) => LengthIsOctets(rest);
  }

  /** Every visited place spells a name that the one at hand is a part of. */
  ghost predicate Contains(payload: Bytes, before: set<nat>, visited: set<nat>, depth: nat)
  {
    forall v :: v in visited ==> Deeper(payload, before, v, depth)
  }

  ghost predicate Deeper(payload: Bytes, before: set<nat>, v: nat, depth: nat)
  {
    exists s: Spelling :: Spelled(payload, v, before, s) && s.Depth() > depth
  }

  lemma {:induction false} NotVisited(payload: Bytes, before: set<nat>, visited: set<nat>, p: nat, s: Spelling)
    requires Spelled(payload, p, before, s) && Contains(payload, before, visited, s.Depth())
    ensures p !in visited
  {
    hide Spelled;
    if p in visited {
      assert Deeper(payload, before, p, s.Depth());
      var t: Spelling :| Spelled(payload, p, before, t) && t.Depth() > s.Depth();
      SpelledOnce(payload, p, before, s, t);
    }
  }

  lemma {:induction false} ContainsMore(payload: Bytes, before: set<nat>, visited: set<nat>, p: nat, s: Spelling)
    requires s.Label? || s.Pointer?
    requires Spelled(payload, p, before, s) && Contains(payload, before, visited, s.Depth())
    ensures Contains(payload, before, visited + {p}, s.rest.Depth())
  {
    hide Spelled;
    var depth := s.rest.Depth();
    assert s.Depth() == depth + 1;
    forall v | v in visited + {p} ensures Deeper(payload, before, v, depth) {
      if v in visited {
        assert Deeper(payload, before, v, s.Depth());
        var t: Spelling :| Spelled(payload, v, before, t) && t.Depth() > s.Depth();
        assert t.Depth() > depth;
      }
    }
  }

  /** What reading a spelled name from one point of the walk on gives. */
  ghost predicate Reads(payload: Bytes, start: nat, w: Walk, s: Spelling, n: NameResult)
  {
    && n.Ok? && n.value.0.offset == start && n.value.0.labels == w.labels + s.Labels()
    && n.value.0.pointerHops == w.hops + s.Hops()
    && start + n.value.0.encodedLength == (if w.end.Some? then w.end.value else w.position + s.Size())
    && w.boundaries + s.Places(w.position).Keys <= n.value.1
  }

  /** A spelled name within the limits is read. */
  lemma {:induction false} WalkReads(payload: Bytes, ranges: seq<Range>, start: nat, w: Walk, before: set<nat>,
          s: Spelling)
    requires InBounds(w) && Spelled(payload, w.position, before, s) && before <= w.boundaries
    requires w.expanded + s.Length() <= MAX_NAME_BYTES && w.hops + s.Hops() <= MAX_POINTER_HOPS
    requires Contains(payload, before, w.visited, s.Depth())
    requires if w.end.Some? then w.end.value >= start else w.position >= start
    ensures Reads(payload, start, w, s, NameFrom(payload, ranges, start, w))
    decreases s
  {
    hide Step, Contains, NameFrom, Spelled, Reads;
    NotVisited(payload, before, w.visited, w.position, s);
    StepDecides(payload, ranges, start, w);
    match s
    case Root =>
      RootStep(payload, ranges, start, w, before);
      RootReads(payload, start, w, NameFrom(payload, ranges, start, w));
    case Label(text, rest) =>
      LabelStep(payload, ranges, start, w, before, s);
      ContainsMore(payload, before, w.visited, w.position, s);
      var next := Step(payload, ranges, start, w).walk;
      WalkReads(payload, ranges, start, next, before, rest);
      LabelReads(payload, start, w, s, next, NameFrom(payload, ranges, start, next));
    case Pointer(target, rest) =>
      ContainsMore(payload, before, w.visited, w.position, s);
      TargetNotVisited(payload, before, w, s);
      PointerStep(payload, ranges, start, w, before, s);
      var next := Step(payload, ranges, start, w).walk;
      WalkReads(payload, ranges, start, next, before, rest);
      PointerReads(payload, start, w, s, next, NameFrom(payload, ranges, start, next));
  }

  lemma {:induction false} TargetNotVisited(payload: Bytes, before: set<nat>, w: Walk, s: Spelling)
    requires s.Pointer? && Spelled(payload, w.position, before, s)
    requires Contains(payload, before, w.visited + {w.position}, s.rest.Depth())
    ensures s.target !in w.visited + {w.position}
  {
    NotVisited(payload, before, w.visited + {w.position}, s.target, s.rest);
  }

  lemma {:induction false} RootStep(payload: Bytes, ranges: seq<Range>, start: nat, w: Walk, before: set<nat>)
    requires Spelled(payload, w.position, before, Root) && w.position !in w.visited
    requires if w.end.Some? then w.end.value >= start else w.position >= start
    ensures Step(payload, ranges, start, w)
         == Done(Name(start, (if w.end.Some? then w.end.value else w.position + 1) - start, w.labels, w.hops),
                 w.boundaries + {w.position})
  { }

  lemma {:induction false} RootReads(payload: Bytes, start: nat, w: Walk, n: NameResult)
    requires if w.end.Some? then w.end.value >= start else w.position >= start
    requires n == Ok((Name(start, (if w.end.Some? then w.end.value else w.position + 1) - start, w.labels, w.hops),
                      w.boundaries + {w.position}))
    ensures Reads(payload, start, w, Root, n)
  {
    assert w.labels + Root.Labels() == w.labels;
  }

  lemma {:induction false} LabelStep(payload: Bytes, ranges: seq<Range>, start: nat, w: Walk, before: set<nat>,
          s: Spelling)
    requires s.Label? && Spelled(payload, w.position, before, s) && w.position !in w.visited
    requires w.expanded + s.Length() <= MAX_NAME_BYTES
    ensures Step(payload, ranges, start, w)
         == Next(w.(expanded := w.expanded + |s.text| + 1, boundaries := w.boundaries + {w.position},
                    visited := w.visited + {w.position},
                    labels := w.labels + [s.text], position := w.position + 1 + |s.text|))
    ensures Spelled(payload, w.position + 1 + |s.text|, before, s.rest)
  { }

  lemma {:induction false} LabelReads(payload: Bytes, start: nat, w: Walk, s: Spelling, next: Walk, n: NameResult)
    requires s.Label? && Reads(payload, start, next, s.rest, n)
    requires next == w.(expanded := w.expanded + |s.text| + 1, boundaries := w.boundaries + {w.position},
                        visited := w.visited + {w.position},
                        labels := w.labels + [s.text], position := w.position + 1 + |s.text|)
    ensures Reads(payload, start, w, s, n)
  {
    assert w.labels + [s.text] + s.rest.Labels() == w.labels + s.Labels();
  }

  lemma {:induction false} PointerStep(payload: Bytes, ranges: seq<Range>, start: nat, w: Walk, before: set<nat>,
          s: Spelling)
    requires s.Pointer? && Spelled(payload, w.position, before, s) && before <= w.boundaries
    requires w.position !in w.visited && s.target !in w.visited + {w.position} && w.hops < MAX_POINTER_HOPS
    ensures Step(payload, ranges, start, w)
         == Next(w.(boundaries := w.boundaries + {w.position}, visited := w.visited + {w.position}, hops := w.hops + 1,
                    end := if w.end.Some? then w.end else Some(w.position + 2), position := s.target))
    ensures Spelled(payload, s.target, before, s.rest)
  { }

  lemma {:induction false} PointerReads(payload: Bytes, start: nat, w: Walk, s: Spelling, next: Walk, n: NameResult)
    requires s.Pointer? && Reads(payload, start, next, s.rest, n)
    requires next == w.(boundaries := w.boundaries + {w.position}, visited := w.visited + {w.position},
                        hops := w.hops + 1,
                        end := if w.end.Some? then w.end else Some(w.position + 2), position := s.target)
    ensures Reads(payload, start, w, s, n)
  { }

  /** A name that was read is spelled. */
  lemma {:induction false} ReadWasSpelled(payload: Bytes, ranges: seq<Range>, start: nat, w: Walk, before: set<nat>)
    returns (s: Spelling)
    requires InBounds(w) && NameFrom(payload, ranges, start, w).Ok?
    requires w.boundaries <= before + w.visited
    ensures Spelled(payload, w.position, before, s)
    ensures w.expanded + s.Length() <= MAX_NAME_BYTES && w.hops + s.Hops() <= MAX_POINTER_HOPS
    decreases MAX_POINTER_HOPS - w.hops + MAX_NAME_BYTES - w.expanded
  {
    hide NameFrom, Step, Spelled;
    StepDecides(payload, ranges, start, w);
    StepShrinks(payload, ranges, start, w);
    match Step(payload, ranges, start, w)
    case Done(_, _) =>
      s := Root;
      DoneSpells(payload, ranges, start, w, before);
    case Next(walk) =>
      var rest := ReadWasSpelled(payload, ranges, start, walk, before);
      s := NextSpells(payload, ranges, start, w, before, rest);
  }

  lemma {:induction false} StepShrinks(payload: Bytes, ranges: seq<Range>, start: nat, w: Walk)
    requires InBounds(w)
    ensures var step := Step(payload, ranges, start, w);
            step.Next? ==>
              && InBounds(step.walk) && step.walk.hops + step.walk.expanded > w.hops + w.expanded
              && step.walk.boundaries == w.boundaries + {w.position} && step.walk.visited == w.visited + {w.position}
  { }

  lemma {:induction false} DoneSpells(payload: Bytes, ranges: seq<Range>, start: nat, w: Walk, before: set<nat>)
    requires Step(payload, ranges, start, w).Done?
    ensures Spelled(payload, w.position, before, Root)
  { }

  lemma {:induction false} NextSpells(payload: Bytes, ranges: seq<Range>, start: nat, w: Walk, before: set<nat>,
          rest: Spelling) returns (s: Spelling)
    requires InBounds(w) && Step(payload, ranges, start, w).Next? && w.boundaries <= before + w.visited
    requires var next := Step(payload, ranges, start, w).walk;
             && Spelled(payload, next.position, before, rest)
             && next.expanded + rest.Length() <= MAX_NAME_BYTES && next.hops + rest.Hops() <= MAX_POINTER_HOPS
    ensures Spelled(payload, w.position, before, s)
    ensures w.expanded + s.Length() <= MAX_NAME_BYTES && w.hops + s.Hops() <= MAX_POINTER_HOPS
  {
    var p := w.position;
    var length := payload[p];
    s := if IsPointer(length) then Pointer(Target(payload, p), rest) else Label(payload[p + 1..p + 1 + length], rest);
  }

  /**
   * A name decodes if and only if its bytes spell one within the limits: at most 255
   * bytes uncompressed and 32 pointers, each of them back to a name read before. It then
   * has the labels and pointers of that spelling, and takes up what stands at its place.
   */
  lemma {:induction false} NameDecodesExactly(payload: Bytes, ranges: seq<Range>, start: nat, before: set<nat>)
    ensures NameFrom(payload, ranges, start, Begin(start, before)).Ok?
       <==> exists s :: Spelled(payload, start, before, s) && Fits(s)
    ensures forall s :: Spelled(payload, start, before, s) && Fits(s) ==>
              var n := NameFrom(payload, ranges, start, Begin(start, before));
              && n.Ok? && n.value.0 == Name(start, s.Size(), s.Labels(), s.Hops())
              && before + s.Places(start).Keys <= n.value.1
  {
    hide NameFrom, Spelled;
    if NameFrom(payload, ranges, start, Begin(start, before)).Ok? {
      var s := ReadWasSpelled(payload, ranges, start, Begin(start, before), before);
    }
    forall s | Spelled(payload, start, before, s) && Fits(s)
      ensures var n := NameFrom(payload, ranges, start, Begin(start, before));
              && n.Ok? && n.value.0 == Name(start, s.Size(), s.Labels(), s.Hops())
              && before + s.Places(start).Keys <= n.value.1
    {
      SpelledIsRead(payload, ranges, start, before, s);
    }
  }

  lemma {:induction false} SpelledIsRead(payload: Bytes, ranges: seq<Range>, start: nat, before: set<nat>, s: Spelling)
    requires Spelled(payload, start, before, s) && Fits(s)
    ensures var n := NameFrom(payload, ranges, start, Begin(start, before));
            && n.Ok? && n.value.0 == Name(start, s.Size(), s.Labels(), s.Hops())
            && before + s.Places(start).Keys <= n.value.1
  {
    hide NameFrom, Spelled;
    WalkReads(payload, ranges, start, Begin(start, before), before, s);
    assert [] + s.Labels() == s.Labels();
  }
}
