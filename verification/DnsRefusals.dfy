/** Names that are refused: what the first bad byte or pointer behind good labels makes of the message. */
module DnsRefusals {
  import opened Common
  import opened DnsName
  import opened Dns
  import M = DnsMeaning

  /** Labels of 1 to 63 bytes stand one after the other from `p` to `q`. */
  ghost predicate Stem(payload: Bytes, p: nat, labels: seq<Bytes>, q: nat)
    decreases |labels|
  {
    if labels == [] then p == q
    else
      var l := labels[0];
      && 1 <= |l| <= 63 && p + 1 + |l| <= |payload| && payload[p] as int == |l|
      && payload[p + 1..p + 1 + |l|] == l && Stem(payload, p + 1 + |l|, labels[1..], q)
  }

  /** What these labels take up. */
  ghost function Length(labels: seq<Bytes>): nat
  {
    if labels == [] then 0 else 1 + |labels[0]| + Length(labels[1..])
  }

  /** A walk that has only gone through labels, and stands at `q`. */
  ghost predicate Arrived(w: Walk, start: nat, before: set<nat>, q: nat)
  {
    && w.position == q && w.hops == 0 && w.end.None?
    && (forall v :: v in w.visited ==> start <= v < q) && w.boundaries == before + w.visited
  }

  /** The walk goes through a stem to its end. */
  lemma {:induction false} StemIsWalked(payload: Bytes, ranges: seq<Range>, start: nat, before: set<nat>, w: Walk,
          labels: seq<Bytes>, q: nat) returns (w': Walk)
    requires InBounds(w) && Stem(payload, w.position, labels, q) && w.expanded + Length(labels) <= MAX_NAME_BYTES
    requires Arrived(w, start, before, w.position) && start <= w.position
    ensures InBounds(w') && Arrived(w', start, before, q) && w'.expanded == w.expanded + Length(labels)
    ensures NameFrom(payload, ranges, start, w') == NameFrom(payload, ranges, start, w) && w.position <= q
    decreases |labels|
  {
    hide Step, NameFrom;
    if labels == [] {
      w' := w;
    } else {
      StepDecides(payload, ranges, start, w);
      LabelIsWalked(payload, ranges, start, w, labels[0]);
      w' := StemIsWalked(payload, ranges, start, before, Step(payload, ranges, start, w).walk, labels[1..], q);
    }
  }

  lemma {:induction false} LabelIsWalked(payload: Bytes, ranges: seq<Range>, start: nat, w: Walk, l: Bytes)
    requires 1 <= |l| <= 63 && w.position + 1 + |l| <= |payload| && payload[w.position] as int == |l|
    requires payload[w.position + 1..w.position + 1 + |l|] == l && w.position !in w.visited
    requires w.expanded + 1 + |l| <= MAX_NAME_BYTES
    ensures Step(payload, ranges, start, w)
         == Next(w.(expanded := w.expanded + |l| + 1, boundaries := w.boundaries + {w.position},
                    visited := w.visited + {w.position},
                    labels := w.labels + [l], position := w.position + 1 + |l|))
  { }

  ghost predicate Within(data: seq<Range>, t: nat)
  {
    exists i :: 0 <= i < |data| && data[i].lower <= t < data[i].upper
  }

  /** Whether a position lies in the data of a record that has been read. */
  ghost predicate InData(c: Cursor, t: nat)
    requires |c.sections| == 4
  {
    exists j :: 0 <= j < |M.Flat(c.sections)| && OwnsByte(M.Flat(c.sections), j, t)
  }

  /** The record whose data this is. */
  lemma {:induction false} DataIsOfRecords(entries: seq<Entry>, t: nat)
    ensures Within(M.DataOf(entries), t) <==> exists j :: 0 <= j < |entries| && OwnsByte(entries, j, t)
  {
    hide OwnsByte, Within;
    if entries == [] {
      NothingWithin(t);
    } else {
      hide M.DataOf;
      var less := entries[..|entries| - 1];
      DataIsOfRecords(less, t);
      LastData(entries, t);
      forall j: nat | j < |less| ensures OwnsByte(entries, j, t) <==> OwnsByte(less, j, t) {
        OwnerStays(entries, j, t);
      }
    }
  }

  lemma {:induction false} NothingWithin(t: nat)
    ensures !Within(M.DataOf([]), t)
  { }

  lemma {:induction false} OwnerStays(entries: seq<Entry>, j: nat, t: nat)
    requires j < |entries| - 1
    ensures OwnsByte(entries, j, t) <==> OwnsByte(entries[..|entries| - 1], j, t)
  {
    assert entries[..j] == entries[..|entries| - 1][..j];
  }

  lemma {:induction false} LastData(entries: seq<Entry>, t: nat)
    requires entries != []
    ensures Within(M.DataOf(entries), t)
       <==> Within(M.DataOf(entries[..|entries| - 1]), t) || OwnsByte(entries, |entries| - 1, t)
  {
    hide M.EndOf;
    var e, less := entries[|entries| - 1], entries[..|entries| - 1];
    var at := M.EndOf(less, 12);
    WithinMore(M.DataOf(less), Range(at + e.name.encodedLength + 10, at + e.Size()), t);
    if e.Question? { assert M.DataOf(less) + [] == M.DataOf(less); }
  }

  lemma {:induction false} WithinMore(data: seq<Range>, r: Range, t: nat)
    ensures Within(data + [r], t) <==> Within(data, t) || r.lower <= t < r.upper
  {
    var all := data + [r];
    if Within(data, t) {
      var i :| 0 <= i < |data| && data[i].lower <= t < data[i].upper;
      assert all[i] == data[i];
    }
    if r.lower <= t < r.upper { assert all[|data|] == r; }
  }

  /** Byte `t` of the message is in the data of the `j`th entry. */
  ghost predicate OwnsByte(entries: seq<Entry>, j: nat, t: nat)
    requires j < |entries|
  {
    var at, e := M.EndOf(entries[..j], 12), entries[j];
    e.Record? && at + e.name.encodedLength + 10 <= t < at + e.name.encodedLength + 10 + e.rdlength
  }

  /**
   * A pointer that leads to no name read before: UNSUPPORTED if it leads into the data
   * of a record that was, and MALFORMED otherwise.
   */
  lemma {:induction false} BadPointer(payload: Bytes, section: nat, c: Cursor, labels: seq<Bytes>, q: nat, t: nat)
    requires section < 4 && M.Reading(payload, section, c) && c.count < 128
    requires Stem(payload, c.position, labels, q) && 1 + Length(labels) <= 255 && q + 2 <= |payload|
    requires t < 0x4000 && payload[q] as int == 192 + t / 256 && payload[q + 1] as int == t % 256
    requires t !in c.boundaries
    ensures var r := EntrySpec(payload, section, c);
            && r.Err? && r.error.offset == q && !r.error.limitReached
            && r.error.status == (if InData(c, t) then Unsupported else Malformed)
            && (InData(c, t) ==> r.error.reason == IntoOpaqueData)
  {
    hide NameFrom, Step, RecordSpec, M.Reading, OwnsByte;
    var w := Begin(c.position, c.boundaries);
    var w' := StemIsWalked(payload, c.ranges, c.position, c.boundaries, w, labels, q);
    StepDecides(payload, c.ranges, c.position, w');
    ReadSoFar(payload, section, c);
    DataIsOfRecords(M.Flat(c.sections), t);
    if InData(c, t) { DataIsBehind(M.Flat(c.sections), t); }
    PointerFails(payload, c.ranges, c.position, c.boundaries, w', q, t);
  }

  lemma {:induction false} ReadSoFar(payload: Bytes, section: nat, c: Cursor)
    requires M.Reading(payload, section, c)
    ensures |c.sections| == 4 && c.position == M.EndOf(M.Flat(c.sections), 12)
    ensures c.ranges == M.DataOf(M.Flat(c.sections))
  { }

  /** Data lies between the header and the next entry. */
  lemma {:induction false} DataIsBehind(entries: seq<Entry>, t: nat)
    requires Within(M.DataOf(entries), t)
    ensures 12 <= t < M.EndOf(entries, 12)
  {
    var less, e, data := entries[..|entries| - 1], entries[|entries| - 1], M.DataOf(entries);
    var i :| 0 <= i < |data| && data[i].lower <= t < data[i].upper;
    EndGrows(less);
    if i < |M.DataOf(less)| {
      assert M.DataOf(less)[i] == data[i];
      DataIsBehind(less, t);
    }
  }

  lemma {:induction false} EndGrows(entries: seq<Entry>)
    ensures M.EndOf(entries, 12) >= 12
  {
    if entries != [] { EndGrows(entries[..|entries| - 1]); }
  }

  lemma {:induction false} PointerFails(payload: Bytes, ranges: seq<Range>, start: nat, before: set<nat>, w: Walk,
          q: nat, t: nat)
    requires Arrived(w, start, before, q) && q + 2 <= |payload| && start <= q
    requires t < 0x4000 && payload[q] as int == 192 + t / 256 && payload[q + 1] as int == t % 256
    requires t !in before && (InOpaque(ranges, t) ==> 12 <= t < start)
    ensures var step := Step(payload, ranges, start, w);
            && step.Failed? && step.error.offset == q && !step.error.limitReached
            && step.error.status == (if InOpaque(ranges, t) then Unsupported else Malformed)
            && (InOpaque(ranges, t) ==> step.error.reason == IntoOpaqueData)
  {
    hide InOpaque;
    assert Target(payload, q) == t;
  }

  /**
   * A byte that begins neither label, pointer nor root: UNSUPPORTED if its two high bits
   * are 01, MALFORMED if they are 10; and a label that makes the name too long is MALFORMED.
   */
  lemma {:induction false} BadLabel(payload: Bytes, section: nat, c: Cursor, labels: seq<Bytes>, q: nat)
    requires section < |c.sections| && c.count < 128
    requires Stem(payload, c.position, labels, q) && 1 + Length(labels) <= 255 && q < |payload|
    ensures var r, b := EntrySpec(payload, section, c), payload[q];
            && (64 <= b < 128 ==> r.Err? && r.error == ParseError(Unsupported, ExtendedLabel, q, false))
            && (128 <= b < 192 ==> r.Err? && r.error == ParseError(Malformed, ReservedLabel, q, false))
            && (1 <= b < 64 && q + 1 + b <= |payload| && 2 + Length(labels) + b > 255 ==>
                  r.Err? && r.error == ParseError(Malformed, NameTooLong, q, false))
  {
    hide NameFrom, Step, RecordSpec;
    var w' := StemIsWalked(payload, c.ranges, c.position, c.boundaries, Begin(c.position, c.boundaries), labels, q);
    StepDecides(payload, c.ranges, c.position, w');
    LabelFails(payload, c.ranges, c.position, w');
  }

  lemma {:induction false} LabelFails(payload: Bytes, ranges: seq<Range>, start: nat, w: Walk)
    requires w.position < |payload| && w.position !in w.visited
    ensures var step, b, q := Step(payload, ranges, start, w), payload[w.position], w.position;
            && (64 <= b < 128 ==> step == Failed(ParseError(Unsupported, ExtendedLabel, q, false)))
            && (128 <= b < 192 ==> step == Failed(ParseError(Malformed, ReservedLabel, q, false)))
            && (1 <= b < 64 && q + 1 + b <= |payload| && w.expanded + b + 1 > 255 ==>
                  step == Failed(ParseError(Malformed, NameTooLong, q, false)))
  { }
}
