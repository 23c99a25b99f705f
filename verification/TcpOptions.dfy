/**
 * TCP options: the envelope check that every decoded segment passes, the
 * second walk that relies on it, and the aggregate over packets.
 */
module TcpOptions {
  import opened Common
  import opened Tally

  const MAX_BYTES := 40
  const KINDS := 256
  const MSS_VALUES := 65536
  const MAX_SACK_BLOCKS := 4

  // ---------------------------------------------------------------- the envelope

  datatype EnvelopeError = PaddingNotZero | LengthMissing | LengthTooSmall | LengthExceeds

  ghost predicate Zeros(b: Bytes) { forall i :: 0 <= i < |b| ==> b[i] == 0 }

  /** What is wrong with the options from an offset on, if anything. */
  ghost function EnvelopeFrom(options: Bytes, offset: nat): Option<EnvelopeError>
    decreases |options| - offset
  {
    if offset >= |options| then None
    else if options[offset] == 0 then if Zeros(options[offset + 1..]) then None else Some(PaddingNotZero)
    else if options[offset] == 1 then EnvelopeFrom(options, offset + 1)
    else if offset + 1 >= |options| then Some(LengthMissing)
    else if options[offset + 1] < 2 then Some(LengthTooSmall)
    else if offset + options[offset + 1] > |options| then Some(LengthExceeds)
    else EnvelopeFrom(options, offset + options[offset + 1])
  }

  /** `_validate_option_envelope`. */
  method ValidateEnvelope(options: Bytes) returns (error: Option<EnvelopeError>)
    ensures error == EnvelopeFrom(options, 0)
  {
    var offset: nat := 0;
    while offset < |options|
      invariant EnvelopeFrom(options, offset) == EnvelopeFrom(options, 0)
      decreases |options| - offset
    {
      var kind := options[offset];
      if kind == 0 {
        var padding := offset + 1;
        while padding < |options|
          invariant offset + 1 <= padding <= |options| && forall i :: offset + 1 <= i < padding ==> options[i] == 0
        {
          if options[padding] != 0 {
            assert options[offset + 1..][padding - offset - 1] != 0;
            return Some(PaddingNotZero);
          }
          padding := padding + 1;
        }
        return None;
      }
      if kind == 1 {
        offset := offset + 1;
        continue;
      }
      if offset + 1 >= |options| { return Some(LengthMissing); }
      var length := options[offset + 1];
      if length < 2 { return Some(LengthTooSmall); }
      if offset + length > |options| { return Some(LengthExceeds); }
      offset := offset + length;
    }
    return None;
  }

  // ---------------------------------------------------------------- one packet's options

  datatype Summary = Summary(kinds: seq<nat>, mss: seq<nat>, scales: seq<nat>, duplicates: nat, blocks: nat)
  {
    predicate Shaped() { |kinds| == KINDS && |mss| == MSS_VALUES && |scales| == KINDS }
  }

  function NoOptions(): Summary { Summary(seq(KINDS, _ => 0), seq(MSS_VALUES, _ => 0), seq(KINDS, _ => 0), 0, 0) }

  function LengthAt(options: Bytes, offset: nat): nat
    requires offset < |options| && (options[offset] > 1 ==> offset + 1 < |options|)
  {
    if options[offset] <= 1 then 1 else options[offset + 1]
  }

  /** The one length a kind may have. */
  function FixedLength(kind: nat): Option<nat>
  {
    if kind == 2 then Some(4) else if kind == 3 then Some(3) else if kind == 4 then Some(2)
       else if kind == 8 then Some(10) else None
  }

  predicate Acceptable(kind: nat, length: nat)
  {
    && (FixedLength(kind).Some? ==> length == FixedLength(kind).value)
    && (kind == 5 ==> length >= 10 && (length - 2) % 8 == 0)
  }

  /** One acceptable option counted. */
  function CountOption(s: Summary, options: Bytes, offset: nat): (r: Summary)
    requires s.Shaped() && offset < |options| && (options[offset] > 1 ==> offset + 1 < |options|)
    requires offset + LengthAt(options, offset) <= |options| && Acceptable(options[offset], LengthAt(options, offset))
    ensures r.Shaped()
  {
    var kind, length := options[offset], LengthAt(options, offset);
    Summary(Bump(s.kinds, kind),
            if kind == 2 then Bump(s.mss, Word(options, offset + 2)) else s.mss,
            if kind == 3 then Bump(s.scales, options[offset + 2]) else s.scales,
            s.duplicates + if kind > 1 && s.kinds[kind] > 0 then 1 else 0,
            s.blocks + if kind == 5 then (length - 2) / 8 else 0)
  }

  ghost function SummaryFrom(options: Bytes, offset: nat, s: Summary): (r: Option<Summary>)
    requires s.Shaped() && EnvelopeFrom(options, offset).None?
    ensures r.Some? ==> r.value.Shaped()
    decreases |options| - offset
  {
    if offset >= |options| then Some(s)
    else
      var kind, length := options[offset], LengthAt(options, offset);
      if !Acceptable(kind, length) then None
      else if kind == 0 then Some(CountOption(s, options, offset))
      else SummaryFrom(options, offset + length, CountOption(s, options, offset))
  }

  lemma {:induction false} SummaryEnd(options: Bytes)
    ensures EnvelopeFrom(options, |options|).None?
    ensures forall s: Summary, offset: nat ::
            s.Shaped() && offset >= |options| && EnvelopeFrom(options, offset).None?
            ==> SummaryFrom(options, offset, s) == Some(s)
  { }

  /** What a good envelope promises at each option, and what the walk does there. */
  lemma {:induction false} SummaryStep(options: Bytes, offset: nat, s: Summary)
    requires s.Shaped() && offset < |options| && EnvelopeFrom(options, offset).None?
    ensures options[offset] > 1 ==> offset + 1 < |options|
    ensures var kind, length := options[offset], LengthAt(options, offset);
            && 1 <= length && (kind > 1 ==> 2 <= length) && offset + length <= |options|
            && (kind > 0 ==> EnvelopeFrom(options, offset + length).None?)
            && SummaryFrom(options, offset, s) ==
               if !Acceptable(kind, length) then None
               else if kind == 0 then Some(CountOption(s, options, offset))
               else SummaryFrom(options, offset + length, CountOption(s, options, offset))
  { }

  /** The counters of one option. */
  method Count(s: Summary, options: Bytes, offset: nat, kind: nat, length: nat) returns (r: Summary)
    requires s.Shaped() && offset < |options| && (options[offset] > 1 ==> offset + 1 < |options|)
    requires kind == options[offset] && length == LengthAt(options, offset)
    requires offset + length <= |options| && Acceptable(kind, length)
    ensures r == CountOption(s, options, offset)
  {
    hide Bump, Word;
    var kinds, mss, scales := s.kinds, s.mss, s.scales;
    var duplicates: nat, blocks: nat := s.duplicates, s.blocks;
    if kind == 5 { blocks := blocks + (length - 2) / 8; }
    if kind > 1 && kinds[kind] > 0 { duplicates := duplicates + 1; }
    kinds := Bump(kinds, kind);
    if kind == 2 {
      mss := Bump(mss, Word(options, offset + 2));
    } else if kind == 3 {
      scales := Bump(scales, options[offset + 2]);
    }
    r := Summary(kinds, mss, scales, duplicates, blocks);
  }

  /** `_summarize_options`: no index it uses can fail once the envelope is known to be good. */
  method SummarizeOptions(options: Bytes) returns (r: Result<Option<Summary>, EnvelopeError>)
    ensures r.Err? <==> EnvelopeFrom(options, 0).Some?
    ensures r.Err? ==> r.error == EnvelopeFrom(options, 0).value
    ensures r.Ok? ==> r.value == SummaryFrom(options, 0, NoOptions())
  {
    var error := ValidateEnvelope(options);
    if error.Some? { return Err(error.value); }
    var s := NoOptions();
    SummaryEnd(options);
    ghost var all := SummaryFrom(options, 0, s);
    var offset: nat := 0;
    hide NoOptions, SummaryFrom, EnvelopeFrom, CountOption;
    while offset < |options|
      invariant s.Shaped() && EnvelopeFrom(options, offset).None?
      invariant SummaryFrom(options, offset, s) == all
      decreases |options| - offset
    {
      var kind := options[offset];
      SummaryStep(options, offset, s);
      var length: nat := if kind <= 1 then 1 else options[offset + 1];
      if FixedLength(kind).Some? && length != FixedLength(kind).value { return Ok(None); }
      if kind == 5 && (length < 10 || (length - 2) % 8 != 0) { return Ok(None); }
      s := Count(s, options, offset, kind, length);
      offset := offset + length;
      if kind == 0 { return Ok(Some(s)); }
    }
    r := Ok(Some(s));
  }

  // ---------------------------------------------------------------- option areas as lists

  /** An option after the end-of-list: a one-byte NOP, or kind, length and data (section 3.1 of RFC 9293). */
  datatype TcpOption = TcpOption(kind: nat, data: Bytes)
  {
    predicate Legal() { 1 <= kind < KINDS && |data| <= 253 && (kind == 1 ==> data == []) }

    function Length(): nat { if kind == 1 then 1 else |data| + 2 }

    function Encoded(): (r: Bytes)
      requires Legal()
      ensures |r| == Length() && r[0] == kind && (kind > 1 ==> r[1] == Length() && r[2..] == data)
    {
      if kind == 1 then [1] else [kind, |data| + 2] + data
    }
  }

  ghost predicate AllLegal(list: seq<TcpOption>) { forall o :: o in list ==> o.Legal() }

  ghost function EncodeAll(list: seq<TcpOption>): Bytes
    requires AllLegal(list)
  {
    if list == [] then [] else list[0].Encoded() + EncodeAll(list[1..])
  }

  /** Nothing, or the end of the list and zeros. */
  ghost predicate Ends(tail: Bytes) { Zeros(tail) }

  /** An area passes the envelope only if it is a list of options and such an end. */
  lemma {:induction false} PassingIsList(options: Bytes, offset: nat) returns (list: seq<TcpOption>, tail: Bytes)
    requires offset <= |options| && EnvelopeFrom(options, offset).None?
    ensures AllLegal(list) && Ends(tail) && options[offset..] == EncodeAll(list) + tail
    decreases |options| - offset
  {
    hide EncodeAll;
    list, tail := [], options[offset..];
    EncodeNothing();
    if offset < |options| && options[offset] != 0 {
      var length := LengthAt(options, offset);
      var o := TcpOption(options[offset], if options[offset] == 1 then [] else options[offset + 2..offset + length]);
      assert options[offset..offset + length] == o.Encoded();
      assert options[offset..] == o.Encoded() + options[offset + length..];
      var rest;
      rest, tail := PassingIsList(options, offset + length);
      EncodeMore(o, rest);
      assert o.Encoded() + (EncodeAll(rest) + tail) == o.Encoded() + EncodeAll(rest) + tail;
      list := [o] + rest;
    } else if offset < |options| {
      assert forall i :: offset < i < |options| ==> options[i] == options[offset + 1..][i - offset - 1];
    }
  }

  lemma {:induction false} EncodeNothing()
    ensures EncodeAll([]) == []
  { }

  lemma {:induction false} EncodeMore(o: TcpOption, rest: seq<TcpOption>)
    requires o.Legal() && AllLegal(rest)
    ensures AllLegal([o] + rest) && EncodeAll([o] + rest) == o.Encoded() + EncodeAll(rest)
  {
    assert ([o] + rest)[1..] == rest;
  }

  /** What stands at the offset of an option. */
  lemma {:induction false} OptionAt(prefix: Bytes, o: TcpOption, more: Bytes)
    requires o.Legal()
    ensures var options, offset := prefix + o.Encoded() + more, |prefix|;
            && offset + o.Length() <= |options| && options[offset] == o.kind
            && (o.kind > 1 ==> offset + 1 < |options| && options[offset + 1] == o.Length())
            && LengthAt(options, offset) == o.Length()
            && (o.kind > 1 ==> options[offset + 2..offset + o.Length()] == o.data)
  {
    var options, offset := prefix + o.Encoded() + more, |prefix|;
    assert options[offset..offset + o.Length()] == o.Encoded();
    assert options[offset] == o.Encoded()[0];
    if o.kind > 1 {
      assert options[offset + 1] == o.Encoded()[1];
      assert options[offset + 2..offset + o.Length()] == o.Encoded()[2..];
    }
  }

  lemma {:induction false} EndPasses(prefix: Bytes, tail: Bytes)
    requires Ends(tail)
    ensures EnvelopeFrom(prefix + tail, |prefix|).None?
  {
    var options := prefix + tail;
    if tail != [] {
      assert options[|prefix|] == tail[0];
      assert options[|prefix| + 1..] == tail[1..];
    }
  }

  lemma {:induction false} Regroup(a: Bytes, b: Bytes, c: Bytes, d: Bytes)
    ensures a + (b + c) + d == a + b + (c + d) && a + (b + c) + d == a + b + c + d
  { }

  /** A list that stands behind some bytes is its first option there, and the others behind that. */
  lemma {:induction false} FirstStands(prefix: Bytes, list: seq<TcpOption>, tail: Bytes)
    requires AllLegal(list) && list != []
    ensures list[0].Legal() && AllLegal(list[1..])
    ensures var o, rest := list[0], list[1..];
            && prefix + EncodeAll(list) + tail == prefix + o.Encoded() + (EncodeAll(rest) + tail)
            && prefix + EncodeAll(list) + tail == prefix + o.Encoded() + EncodeAll(rest) + tail
            && |prefix + o.Encoded()| == |prefix| + o.Length()
  {
    var o, rest := list[0], list[1..];
    assert o in list && forall p :: p in rest ==> p in list;
    assert EncodeAll(list) == o.Encoded() + EncodeAll(rest);
    Regroup(prefix, o.Encoded(), EncodeAll(rest), tail);
  }

  lemma {:induction false} EnvelopeStep(prefix: Bytes, o: TcpOption, more: Bytes)
    requires o.Legal()
    ensures var options := prefix + o.Encoded() + more;
            EnvelopeFrom(options, |prefix|) == EnvelopeFrom(options, |prefix| + o.Length())
  {
    OptionAt(prefix, o, more);
    hide TcpOption.Encoded, LengthAt;
  }

  /** And every such list passes, wherever it stands. */
  lemma {:induction false} ListPasses(prefix: Bytes, list: seq<TcpOption>, tail: Bytes)
    requires AllLegal(list) && Ends(tail)
    ensures EnvelopeFrom(prefix + EncodeAll(list) + tail, |prefix|).None?
    decreases |list|
  {
    hide Ends, EnvelopeFrom, TcpOption.Encoded, TcpOption.Legal, TcpOption.Length, EncodeAll;
    if list == [] {
      EncodeNothing();
      assert prefix + EncodeAll(list) + tail == prefix + tail;
      EndPasses(prefix, tail);
    } else {
      FirstStands(prefix, list, tail);
      EnvelopeStep(prefix, list[0], EncodeAll(list[1..]) + tail);
      ListPasses(prefix + list[0].Encoded(), list[1..], tail);
    }
  }

  ghost predicate IsList(options: Bytes, list: seq<TcpOption>, tail: Bytes)
  {
    AllLegal(list) && Ends(tail) && options == EncodeAll(list) + tail
  }

  /** `_validate_tcp_options` accepts exactly the option lists followed by nothing or by zeros. */
  lemma {:induction false} EnvelopePassesExactly(options: Bytes)
    ensures EnvelopeFrom(options, 0).None? <==> exists list: seq<TcpOption>, tail: Bytes :: IsList(options, list, tail)
  {
    hide EnvelopeFrom, EncodeAll;
    if EnvelopeFrom(options, 0).None? {
      var list, tail := PassingIsList(options, 0);
      assert options[0..] == options;
      assert IsList(options, list, tail);
    }
    if list: seq<TcpOption>, tail: Bytes :| IsList(options, list, tail) {
      ListPasses([], list, tail);
      assert [] + EncodeAll(list) + tail == options;
    }
  }

  ghost function KindIs(k: nat): TcpOption -> int { (o: TcpOption) => if o.kind == k then 1 else 0 }

  ghost function MssIs(v: nat): TcpOption -> int
  {
    (o: TcpOption) => if o.kind == 2 && |o.data| == 2 && Word(o.data, 0) == v then 1 else 0
  }

  ghost function ScaleIs(v: nat): TcpOption -> int
  {
    (o: TcpOption) => if o.kind == 3 && |o.data| == 1 && o.data[0] == v then 1 else 0
  }

  ghost function SackBlocks(): TcpOption -> int { (o: TcpOption) => if o.kind == 5 then |o.data| / 8 else 0 }

  /** The counters are those of the options in the list, an end of list counting as kind zero. */
  ghost predicate Tallies(s: Summary, list: seq<TcpOption>, tail: Bytes, r: Summary)
    requires s.Shaped() && r.Shaped()
  {
    && (forall k :: 0 <= k < KINDS
                    ==> r.kinds[k] == s.kinds[k] + SumOver(list, KindIs(k)) + if k == 0 && tail != [] then 1 else 0)
    && (forall v :: 0 <= v < MSS_VALUES ==> r.mss[v] == s.mss[v] + SumOver(list, MssIs(v)))
    && (forall v :: 0 <= v < KINDS ==> r.scales[v] == s.scales[v] + SumOver(list, ScaleIs(v)))
    && r.blocks == s.blocks + SumOver(list, SackBlocks())
  }

  ghost predicate AllAcceptable(list: seq<TcpOption>) { forall o :: o in list ==> Acceptable(o.kind, o.Length()) }

  /**
   * The data an option may carry: two bytes of segment size (section 3.7.1 of RFC 9293),
   * one of scale and two timestamps (sections 2.2 and 3.2 of RFC 7323), nothing or one to
   * four pairs of edges (sections 2 and 3 of RFC 2018).
   */
  lemma {:induction false} AcceptableData(o: TcpOption)
    requires o.Legal() && o.Length() <= 40
    ensures Acceptable(o.kind, o.Length()) <==>
              && (o.kind == 2 ==> |o.data| == 2) && (o.kind == 3 ==> |o.data| == 1) && (o.kind == 4 ==> |o.data| == 0)
              && (o.kind == 8 ==> |o.data| == 8) && (o.kind == 5 ==> |o.data| in {8, 16, 24, 32})
  { }

  /** One option in front of the others. */
  lemma {:induction false} TalliesMore(s: Summary, o: TcpOption, rest: seq<TcpOption>, tail: Bytes, t: Summary,
          r: Summary)
    requires s.Shaped() && t.Shaped() && r.Shaped() && Tallies(s, [o], [], t) && Tallies(t, rest, tail, r)
    ensures Tallies(s, [o] + rest, tail, r)
  {
    hide SumOver, KindIs, MssIs, ScaleIs, SackBlocks;
    forall f: TcpOption -> int ensures SumOver([o] + rest, f) == SumOver([o], f) + SumOver(rest, f) {
      SumOverConcat([o], rest, f);
    }
  }

  lemma {:induction false} CountTallies(s: Summary, prefix: Bytes, o: TcpOption, more: Bytes)
    requires s.Shaped() && o.Legal() && Acceptable(o.kind, o.Length())
    ensures var options, offset := prefix + o.Encoded() + more, |prefix|;
            && offset + o.Length() <= |options| && options[offset] == o.kind
            && (o.kind > 1 ==> offset + 1 < |options|) && LengthAt(options, offset) == o.Length()
            && Tallies(s, [o], [], CountOption(s, options, offset))
  {
    hide SumOver, LengthAt, TcpOption.Encoded;
    var options, offset := prefix + o.Encoded() + more, |prefix|;
    OptionAt(prefix, o, more);
    SumsOfOne(o);
    if o.kind == 2 || o.kind == 3 { DataAt(options, offset + 2, o); }
  }

  lemma {:induction false} SumsOfOne(o: TcpOption)
    ensures forall k :: 0 <= k < KINDS
                        ==> SumOver([o], KindIs(k)) == KindIs(k)(o) && SumOver([o], ScaleIs(k)) == ScaleIs(k)(o)
    ensures forall v :: 0 <= v < MSS_VALUES ==> SumOver([o], MssIs(v)) == MssIs(v)(o)
    ensures SumOver([o], SackBlocks()) == SackBlocks()(o)
  {
    hide SumOver, KindIs, MssIs, ScaleIs, SackBlocks;
    forall f: TcpOption -> int ensures SumOver([o], f) == f(o) { SumOverOne(o, f); }
  }

  lemma {:induction false} DataAt(options: Bytes, at: nat, o: TcpOption)
    requires at + |o.data| <= |options| && options[at..at + |o.data|] == o.data
    ensures |o.data| == 2 ==> Word(options, at) == Word(o.data, 0)
    ensures |o.data| == 1 ==> options[at] == o.data[0]
  {
    var data := options[at..at + |o.data|];
    assert forall k :: 0 <= k < |data| ==> data[k] == options[at + k];
  }

  lemma {:induction false} EndTallies(prefix: Bytes, tail: Bytes, s: Summary)
    requires s.Shaped() && Ends(tail)
    ensures EnvelopeFrom(prefix + tail, |prefix|).None?
    ensures var r := SummaryFrom(prefix + tail, |prefix|, s); r.Some? && Tallies(s, [], tail, r.value)
  {
    hide SumOver;
    EndPasses(prefix, tail);
    forall f: TcpOption -> int ensures SumOver([], f) == 0 { SumOverNothing(f); }
    if tail != [] { assert (prefix + tail)[|prefix|] == tail[0]; }
  }

  /** The counters after one acceptable option. */
  ghost function AfterOption(s: Summary, prefix: Bytes, o: TcpOption, more: Bytes): (t: Summary)
    requires s.Shaped() && o.Legal() && Acceptable(o.kind, o.Length())
    ensures t.Shaped() && Tallies(s, [o], [], t)
  {
    OptionAt(prefix, o, more);
    CountTallies(s, prefix, o, more);
    CountOption(s, prefix + o.Encoded() + more, |prefix|)
  }

  lemma {:induction false} WalkStep(s: Summary, prefix: Bytes, o: TcpOption, more: Bytes)
    requires s.Shaped() && o.Legal() && EnvelopeFrom(prefix + o.Encoded() + more, |prefix|).None?
    ensures var options, next := prefix + o.Encoded() + more, |prefix| + o.Length();
            && EnvelopeFrom(options, next).None?
            && SummaryFrom(options, |prefix|, s) ==
               if Acceptable(o.kind, o.Length()) then SummaryFrom(options, next, AfterOption(s, prefix, o, more))
                  else None
  {
    hide SummaryFrom, EnvelopeFrom, CountOption, Acceptable, TcpOption.Encoded, Tallies;
    OptionAt(prefix, o, more);
    SummaryStep(prefix + o.Encoded() + more, |prefix|, s);
    EnvelopeStep(prefix, o, more);
  }

  /** The walk over a list counts its options, or stops at the first that has a wrong length for its kind. */
  lemma {:induction false} WalkTallies(prefix: Bytes, list: seq<TcpOption>, tail: Bytes, s: Summary)
    requires s.Shaped() && AllLegal(list) && Ends(tail)
    ensures EnvelopeFrom(prefix + EncodeAll(list) + tail, |prefix|).None?
    ensures var r := SummaryFrom(prefix + EncodeAll(list) + tail, |prefix|, s);
            && (r.Some? <==> AllAcceptable(list))
            && (r.Some? ==> Tallies(s, list, tail, r.value))
    decreases |list|
  {
    hide Tallies, CountOption, Acceptable, SummaryFrom, EnvelopeFrom, Ends, LengthAt, EncodeAll;
    hide TcpOption.Encoded, TcpOption.Legal, TcpOption.Length;
    ListPasses(prefix, list, tail);
    if list == [] {
      EncodeNothing();
      assert prefix + EncodeAll(list) + tail == prefix + tail;
      EndTallies(prefix, tail, s);
    } else {
      var o, rest, more := list[0], list[1..], EncodeAll(list[1..]) + tail;
      FirstStands(prefix, list, tail);
      WalkStep(s, prefix, o, more);
      assert list == [o] + rest;
      assert AllAcceptable(list) <==> Acceptable(o.kind, o.Length()) && AllAcceptable(rest);
      if Acceptable(o.kind, o.Length()) {
        var t := AfterOption(s, prefix, o, more);
        WalkTallies(prefix + o.Encoded(), rest, tail, t);
        var r := SummaryFrom(prefix + EncodeAll(list) + tail, |prefix|, s);
        if r.Some? { TalliesMore(s, o, rest, tail, t, r.value); }
      }
    }
  }

  /**
   * `_summarize_options` of a list: refused if some option has a wrong length for its
   * kind, else the counts of its options.
   */
  lemma {:induction false} SummaryCounts(options: Bytes, list: seq<TcpOption>, tail: Bytes)
    requires IsList(options, list, tail)
    ensures EnvelopeFrom(options, 0).None?
    ensures var r := SummaryFrom(options, 0, NoOptions());
            && (r.Some? <==> AllAcceptable(list))
            && (r.Some? ==> Tallies(NoOptions(), list, tail, r.value))
  {
    hide Tallies, SummaryFrom, EnvelopeFrom, EncodeAll, NoOptions;
    NoOptionsShaped();
    WalkTallies([], list, tail, NoOptions());
    assert [] + EncodeAll(list) + tail == options;
  }

  lemma {:induction false} NoOptionsShaped()
    ensures NoOptions().Shaped()
  { }

  // ---------------------------------------------------------------- measures of a distribution

  /** The sum over all values of a measure of the value and its count. */
  ghost function Over(bins: seq<nat>, g: (nat, nat) -> int): int
  {
    if bins == [] then 0 else Over(bins[..|bins| - 1], g) + g(|bins| - 1, bins[|bins| - 1])
  }

  /** The fewest bytes an option of this kind takes. */
  function LeastLength(kind: nat): nat
  {
    if kind <= 1 then 1 else if FixedLength(kind).Some? then FixedLength(kind).value else 2
  }

  ghost function ByteMeasure(): (nat, nat) -> int { (kind: nat, count: nat) => count * LeastLength(kind) }

  ghost function OptionMeasure(): (nat, nat) -> int { (kind: nat, count: nat) => if kind > 1 then count else 0 }

  ghost function KindMeasure(): (nat, nat) -> int { (kind: nat, count: nat) => if kind > 1 && count > 0 then 1 else 0 }

  lemma {:induction false} OverUpdate(bins: seq<nat>, i: nat, x: nat, g: (nat, nat) -> int)
    requires i < |bins|
    ensures Over(bins[i := x], g) == Over(bins, g) - g(i, bins[i]) + g(i, x)
  {
    var changed, k := bins[i := x], |bins| - 1;
    if i == k {
      assert changed[..k] == bins[..k];
    } else {
      assert changed[..k] == bins[..k][i := x];
      OverUpdate(bins[..k], i, x, g);
    }
  }

  lemma {:induction false} OverZeros(n: nat, g: (nat, nat) -> int)
    requires forall k: nat :: g(k, 0) == 0
    ensures Over(seq(n, _ => 0), g) == 0
  {
    if n > 0 {
      assert seq(n, _ => 0)[..n - 1] == seq(n - 1, _ => 0);
      OverZeros(n - 1, g);
    }
  }

  function Merge(a: seq<nat>, b: seq<nat>): (r: seq<nat>)
    requires |a| == |b|
    ensures |r| == |a| && forall i :: 0 <= i < |a| ==> r[i] == a[i] + b[i]
  {
    seq(|a|, i requires 0 <= i < |a| => a[i] + b[i])
  }

  lemma {:induction false} MergeInit(a: seq<nat>, b: seq<nat>)
    requires |a| == |b| > 0
    ensures Merge(a, b)[..|a| - 1] == Merge(a[..|a| - 1], b[..|b| - 1])
  { }

  lemma {:induction false} OverMerge(a: seq<nat>, b: seq<nat>, g: (nat, nat) -> int)
    requires |a| == |b| && forall k: nat, x: nat, y: nat :: g(k, x + y) == g(k, x) + g(k, y)
    ensures Over(Merge(a, b), g) == Over(a, g) + Over(b, g)
  {
    if a != [] {
      MergeInit(a, b);
      OverMerge(a[..|a| - 1], b[..|b| - 1], g);
    }
  }

  lemma {:induction false} SumMerge(a: seq<nat>, b: seq<nat>)
    requires |a| == |b|
    ensures Sum(Merge(a, b)) == Sum(a) + Sum(b)
  {
    if a != [] {
      MergeInit(a, b);
      SumMerge(a[..|a| - 1], b[..|b| - 1]);
    }
  }

  /** Merging distributions adds kinds, but not more than both have. */
  lemma {:induction false} KindsMerge(a: seq<nat>, b: seq<nat>)
    requires |a| == |b|
    ensures Over(Merge(a, b), KindMeasure()) <= Over(a, KindMeasure()) + Over(b, KindMeasure())
  {
    if a != [] {
      MergeInit(a, b);
      KindsMerge(a[..|a| - 1], b[..|b| - 1]);
    }
  }

  lemma {:induction false} KindsAtMostOptions(a: seq<nat>)
    ensures 0 <= Over(a, KindMeasure()) <= Over(a, OptionMeasure())
  {
    if a != [] { KindsAtMostOptions(a[..|a| - 1]); }
  }

  lemma {:induction false} WeightsMerge(a: seq<nat>, b: seq<nat>)
    requires |a| == |b|
    ensures Over(Merge(a, b), ByteMeasure()) == Over(a, ByteMeasure()) + Over(b, ByteMeasure())
  {
    if a != [] {
      MergeInit(a, b);
      WeightsMerge(a[..|a| - 1], b[..|b| - 1]);
      var k := |a| - 1;
      assert (a[k] + b[k]) * LeastLength(k) == a[k] * LeastLength(k) + b[k] * LeastLength(k);
    }
  }

  lemma {:induction false} OptionsMerge(a: seq<nat>, b: seq<nat>)
    requires |a| == |b|
    ensures Over(Merge(a, b), OptionMeasure()) == Over(a, OptionMeasure()) + Over(b, OptionMeasure())
  {
    OverMerge(a, b, OptionMeasure());
  }

  // ---------------------------------------------------------------- what one packet contributes

  /** After `used` bytes of options: what has been counted fits in them, and every repetition is a duplicate. */
  ghost predicate Fits(s: Summary, used: nat)
  {
    && s.Shaped() && 0 <= Sum(s.kinds) <= used && (used > 0 ==> Sum(s.kinds) > 0) && s.kinds[0] <= 1
       && s.kinds[0] <= used
    && Sum(s.mss) == s.kinds[2] && Sum(s.scales) == s.kinds[3]
    && s.kinds[5] <= s.blocks <= MAX_SACK_BLOCKS * s.kinds[5]
    && s.duplicates + Over(s.kinds, KindMeasure()) == Over(s.kinds, OptionMeasure())
    && Over(s.kinds, ByteMeasure()) + 8 * s.blocks <= used
  }

  lemma {:induction false} NothingFits()
    ensures Fits(NoOptions(), 0)
  {
    SumOfZeros(KINDS);
    SumOfZeros(MSS_VALUES);
    OverZeros(KINDS, KindMeasure());
    OverZeros(KINDS, OptionMeasure());
    OverZeros(KINDS, ByteMeasure());
  }

  lemma {:induction false} CountFits(s: Summary, options: Bytes, offset: nat)
    requires Fits(s, offset) && |options| <= MAX_BYTES && offset < |options|
             && (options[offset] > 1 ==> offset + 1 < |options|)
    requires options[offset] > 1 ==> options[offset + 1] >= 2
    requires offset + LengthAt(options, offset) <= |options| && Acceptable(options[offset], LengthAt(options, offset))
             && s.kinds[0] == 0
    ensures Fits(CountOption(s, options, offset), offset + LengthAt(options, offset))
    ensures options[offset] > 0 ==> CountOption(s, options, offset).kinds[0] == 0
  {
    hide Sum, Over, Word, Bump, LeastLength;
    var kind, length, r := options[offset], LengthAt(options, offset), CountOption(s, options, offset);
    BumpMeasures(s.kinds, kind);
    LeastIsLeast(kind, length);
    if kind == 2 { BumpSum(s.mss, Word(options, offset + 2)); }
    if kind == 3 { BumpSum(s.scales, options[offset + 2]); }
  }

  lemma {:induction false} LeastIsLeast(kind: nat, length: nat)
    requires Acceptable(kind, length) && (if kind <= 1 then length == 1 else length >= 2)
    ensures LeastLength(kind) <= length && (kind == 5 ==> LeastLength(kind) == 2)
  { }

  lemma {:induction false} BumpMeasures(kinds: seq<nat>, kind: nat)
    requires kind < |kinds|
    ensures var r := Bump(kinds, kind);
            && Sum(r) == Sum(kinds) + 1
            && (forall k :: 0 <= k < |kinds| ==> r[k] == kinds[k] + if k == kind then 1 else 0)
            && Over(r, OptionMeasure()) == Over(kinds, OptionMeasure()) + (if kind > 1 then 1 else 0)
            && Over(r, KindMeasure()) == Over(kinds, KindMeasure()) + (if kind > 1 && kinds[kind] == 0 then 1 else 0)
            && Over(r, ByteMeasure()) == Over(kinds, ByteMeasure()) + LeastLength(kind)
  {
    var x := kinds[kind] + 1;
    BumpSum(kinds, kind);
    OverUpdate(kinds, kind, x, KindMeasure());
    OverUpdate(kinds, kind, x, OptionMeasure());
    OverUpdate(kinds, kind, x, ByteMeasure());
    assert x * LeastLength(kind) == kinds[kind] * LeastLength(kind) + LeastLength(kind);
  }

  /** Whatever the walk returns fits in the option area. */
  lemma {:induction false} SummaryFits(options: Bytes, offset: nat, s: Summary)
    requires Fits(s, offset) && |options| <= MAX_BYTES && offset <= |options| && EnvelopeFrom(options, offset).None?
             && s.kinds[0] == 0
    ensures var r := SummaryFrom(options, offset, s);
            r.Some? ==> exists used: nat ::
                        offset <= used <= |options| && Fits(r.value, used) && (offset < |options| ==> used > 0)
    decreases |options| - offset
  {
    hide Fits, CountOption, Acceptable;
    if offset < |options| {
      FitsShape(s, offset);
      SummaryStep(options, offset, s);
      var kind, length := options[offset], LengthAt(options, offset);
      if Acceptable(kind, length) {
        CountFits(s, options, offset);
        if kind > 0 {
          SummaryFits(options, offset + length, CountOption(s, options, offset));
        }
      }
    }
  }

  lemma {:induction false} FitsShape(s: Summary, used: nat)
    requires Fits(s, used)
    ensures s.Shaped()
  { }

  // ---------------------------------------------------------------- the aggregate

  datatype Statistics = Statistics(
    packets: nat, malformed: nat, withOptions: nat, bytes: nat, kinds: seq<nat>, duplicates: nat,
    mss: seq<nat>, scales: seq<nat>, blocks: nat)
  {
    /** `__post_init__`, every clause of it. */
    ghost predicate Valid()
    {
      && |kinds| == KINDS && |mss| == MSS_VALUES && |scales| == KINDS
      && malformed <= packets && withOptions <= packets - malformed
      && 4 * withOptions <= bytes <= MAX_BYTES * withOptions && bytes % 4 == 0
      && withOptions <= Sum(kinds) <= MAX_BYTES * withOptions
      && Sum(mss) == kinds[2] && Sum(scales) == kinds[3] && kinds[0] <= withOptions
      && kinds[5] <= blocks <= MAX_SACK_BLOCKS * kinds[5]
      && duplicates <= Max(0, Over(kinds, OptionMeasure()) - Over(kinds, KindMeasure()))
      && Over(kinds, ByteMeasure()) + 8 * blocks <= bytes
      && blocks <= MAX_SACK_BLOCKS * withOptions
    }
  }

  function Added(c: Statistics, s: Summary, area: nat): Statistics
    requires s.Shaped() && |c.kinds| == KINDS && |c.mss| == MSS_VALUES && |c.scales| == KINDS
  {
    Statistics(c.packets + 1, c.malformed,
               c.withOptions + if area > 0 then 1 else 0, c.bytes + area, Merge(c.kinds, s.kinds),
               c.duplicates + s.duplicates, Merge(c.mss, s.mss), Merge(c.scales, s.scales), c.blocks + s.blocks)
  }

  function Reduced(c: Statistics, s: Option<Summary>, area: nat): Statistics
    requires (s.Some? ==> s.value.Shaped()) && |c.kinds| == KINDS && |c.mss| == MSS_VALUES && |c.scales| == KINDS
  {
    if s.None? then c.(packets := c.packets + 1, malformed := c.malformed + 1) else Added(c, s.value, area)
  }

  lemma {:induction false} AddedIsValid(c: Statistics, s: Summary, used: nat, area: nat)
    requires c.Valid() && Fits(s, used) && used <= area <= MAX_BYTES && area % 4 == 0 && (area > 0 ==> used > 0)
    ensures Added(c, s, area).Valid()
  {
    SumMerge(c.kinds, s.kinds);
    SumMerge(c.mss, s.mss);
    SumMerge(c.scales, s.scales);
    KindsMerge(c.kinds, s.kinds);
    OptionsMerge(c.kinds, s.kinds);
    WeightsMerge(c.kinds, s.kinds);
    KindsAtMostOptions(c.kinds);
    SackWeight(s.kinds);
    hide Sum, Over, Merge;
  }

  /** Each SACK option takes two bytes besides its blocks. */
  lemma {:induction false} SackWeight(kinds: seq<nat>)
    ensures Over(kinds, ByteMeasure()) >= if |kinds| > 5 then 2 * kinds[5] else 0
  {
    if kinds != [] {
      SackWeight(kinds[..|kinds| - 1]);
    }
  }

  /** `_reduce`: no packet, whatever its options, can break what the constructor demands. */
  method Reduce(c: Statistics, options: Bytes) returns (r: Result<Statistics, EnvelopeError>)
    requires c.Valid() && |options| <= MAX_BYTES && |options| % 4 == 0
    ensures r.Err? <==> EnvelopeFrom(options, 0).Some?
    ensures r.Err? ==> r.error == EnvelopeFrom(options, 0).value
    ensures r.Ok? ==> r.value.Valid() && r.value == Reduced(c, SummaryFrom(options, 0, NoOptions()), |options|)
  {
    hide Fits, NoOptions, SummaryFrom, EnvelopeFrom;
    var summary := SummarizeOptions(options);
    if summary.Err? { return Err(summary.error); }
    if summary.value.None? { return Ok(c.(packets := c.packets + 1, malformed := c.malformed + 1)); }
    var s := summary.value.value;
    NothingFits();
    NothingSeen();
    SummaryFits(options, 0, NoOptions());
    ghost var used: nat :| used <= |options| && Fits(s, used) && (|options| > 0 ==> used > 0);
    AddedIsValid(c, s, used, |options|);
    r := Ok(Added(c, s, |options|));
  }

  lemma {:induction false} NothingSeen()
    ensures NoOptions().kinds[0] == 0
  { }
}
