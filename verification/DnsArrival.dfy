/**
 * DNS messages are complete at one length only: as long as a byte is missing they are
 * INCOMPLETE, and with a byte too many MALFORMED.
 */
module DnsArrival {
  import opened Common
  import opened DnsName
  import opened Dns
  import M = DnsMeaning

  predicate Short(e: ParseError) { e.status == Incomplete && e.reason == Truncated && !e.limitReached }

  lemma {:induction false} StepOnPrefix(view: Bytes, payload: Bytes, ranges: seq<Range>, start: nat, w: Walk)
    requires view <= payload && !(Step(payload, ranges, start, w).Failed? && Step(view, ranges, start, w).Failed?)
    ensures var step := Step(view, ranges, start, w);
            step == Step(payload, ranges, start, w) || (step.Failed? && Short(step.error))
  {
    hide InOpaque;
    var p := w.position;
    if p + 1 <= |view| && p + 1 + view[p] <= |view| {
      assert view[p + 1..p + 1 + view[p]] == payload[p + 1..p + 1 + view[p]];
    }
  }

  lemma {:induction false} NameOnPrefix(view: Bytes, payload: Bytes, ranges: seq<Range>, start: nat, w: Walk)
    requires view <= payload && InBounds(w)
    requires NameFrom(payload, ranges, start, w).Ok? || NameFrom(view, ranges, start, w).Ok?
    ensures var n := NameFrom(view, ranges, start, w);
            n == NameFrom(payload, ranges, start, w) || (n.Err? && Short(n.error))
    decreases MAX_POINTER_HOPS - w.hops + MAX_NAME_BYTES - w.expanded
  {
    hide Step, NameFrom;
    StepDecides(payload, ranges, start, w);
    StepDecides(view, ranges, start, w);
    StepOnPrefix(view, payload, ranges, start, w);
    StepShrinks(payload, ranges, start, w);
    StepShrinks(view, ranges, start, w);
    match Step(view, ranges, start, w)
    case Next(walk) => NameOnPrefix(view, payload, ranges, start, walk);
    case _ =>
  }

  lemma {:induction false} WordOnPrefix(view: Bytes, payload: Bytes, p: nat)
    requires view <= payload && p + 2 <= |view|
    ensures Word(view, p) == Word(payload, p)
  { }

  lemma {:induction false} RecordOnPrefix(view: Bytes, payload: Bytes, section: nat, c: Cursor, name: Name)
    requires view <= payload && section < |c.sections|
    requires RecordSpec(payload, section, c, name).Ok? || RecordSpec(view, section, c, name).Ok?
    ensures var r := RecordSpec(view, section, c, name);
            && (r == RecordSpec(payload, section, c, name) || (r.Err? && Short(r.error)))
            && (r.Ok? ==> r.value.position <= |view|)
  {
    hide EdnsSpec, Word;
    var envelope := c.position + name.encodedLength;
    if envelope + 10 <= |view| {
      WordOnPrefix(view, payload, envelope);
      WordOnPrefix(view, payload, envelope + 2);
      WordOnPrefix(view, payload, envelope + 4);
      WordOnPrefix(view, payload, envelope + 6);
      WordOnPrefix(view, payload, envelope + 8);
      var n := Word(view, envelope + 8);
      if envelope + 10 + n <= |view| {
        assert view[envelope + 10..envelope + 10 + n] == payload[envelope + 10..envelope + 10 + n];
        assert RecordAt(view, name, envelope) == RecordAt(payload, name, envelope);
      }
    }
  }

  lemma {:induction false} EntryOnPrefix(view: Bytes, payload: Bytes, section: nat, c: Cursor)
    requires view <= payload && section < |c.sections|
    requires EntrySpec(payload, section, c).Ok? || EntrySpec(view, section, c).Ok?
    ensures var r := EntrySpec(view, section, c);
            && (r == EntrySpec(payload, section, c) || (r.Err? && Short(r.error)))
            && (r.Ok? ==> r.value.position <= |view|)
  {
    hide NameFrom, RecordSpec, Word;
    NameOnPrefix(view, payload, c.ranges, c.position, Begin(c.position, c.boundaries));
    var n := NameFrom(view, c.ranges, c.position, Begin(c.position, c.boundaries));
    if n.Ok? {
      var c', envelope := c.(boundaries := n.value.1), c.position + n.value.0.encodedLength;
      if section != 0 {
        RecordOnPrefix(view, payload, section, c', n.value.0);
      } else if envelope + 4 <= |view| {
        WordOnPrefix(view, payload, envelope);
        WordOnPrefix(view, payload, envelope + 2);
      }
    }
  }

  lemma {:induction false} SectionOnPrefix(view: Bytes, payload: Bytes, section: nat, n: nat, c: Cursor)
    requires view <= payload && section < |c.sections| && c.position <= |view|
    requires SectionSpec(payload, section, n, c).error.None? || SectionSpec(view, section, n, c).error.None?
    ensures var r := SectionSpec(view, section, n, c);
            if r.error.Some? then Short(r.error.value)
            else r == SectionSpec(payload, section, n, c) && r.cursor.position <= |view|
    decreases n
  {
    hide EntrySpec;
    if n > 0 {
      EntryOnPrefix(view, payload, section, c);
      if EntrySpec(view, section, c).Ok? {
        SectionOnPrefix(view, payload, section, n - 1, EntrySpec(view, section, c).value);
      }
    }
  }

  lemma {:induction false} SectionsOnPrefix(view: Bytes, payload: Bytes, header: Header, section: nat, c: Cursor)
    requires view <= payload && |c.sections| == 4 && section <= 4
    requires c.position <= |view|
    requires SectionsSpec(payload, header, section, c).error.None? || SectionsSpec(view, header, section, c).error.None?
    ensures var r := SectionsSpec(view, header, section, c);
            if r.error.Some? then Short(r.error.value)
            else r == SectionsSpec(payload, header, section, c) && r.cursor.position <= |view|
    decreases 4 - section
  {
    hide SectionSpec;
    if section < 4 {
      var n := header.Declared(section);
      SectionOnPrefix(view, payload, section, n, c);
      if SectionSpec(view, section, n, c).error.None? {
        SectionsOnPrefix(view, payload, header, section + 1, SectionSpec(view, section, n, c).cursor);
      }
    }
  }

  /** Every message that is COMPLETE as a whole is INCOMPLETE, and truncated, without its last bytes. */
  lemma {:induction false} CutShortIsIncomplete(payload: Bytes, n: nat)
    requires MessageSpec(payload).status == Complete && n < |payload|
    ensures var m := MessageSpec(payload[..n]);
            && m.status == Incomplete && m.reason == Some(Truncated) && !m.limitReached
            && (m.header.Some? <==> n >= 12) && (m.header.Some? ==> m.header == MessageSpec(payload).header)
  {
    hide SectionsSpec, WithEdns;
    var view := payload[..n];
    if n >= HEADER_BYTES {
      SameHeader(view, payload);
      M.ErrorsAreNotComplete(payload, HeaderOf(payload), 0, FIRST_CURSOR);
      SectionsOnPrefix(view, payload, HeaderOf(payload), 0, FIRST_CURSOR);
    }
  }

  /**
   * With more bytes behind it, a COMPLETE message is MALFORMED where it ends, its header
   * and its entries reported all the same.
   */
  lemma {:induction false} BytesBehindAreMalformed(payload: Bytes, more: Bytes)
    requires MessageSpec(payload).status == Complete && more != [] && |payload| + |more| <= 65535
    ensures var m, whole := MessageSpec(payload + more), MessageSpec(payload);
            && m.status == Malformed && m.reason == Some(TrailingBytes) && m.failureOffset == Some(|payload|)
            && m.header == whole.header && m.parsedLength == |payload| && m.remainingBytes == |more|
            && |m.sections| == 4 == |whole.sections|
            && forall s :: 0 <= s < 4 ==> |m.sections[s]| == |whole.sections[s]|
  {
    hide SectionsSpec;
    SameHeader(payload, payload + more);
    M.ErrorsAreNotComplete(payload, HeaderOf(payload), 0, FIRST_CURSOR);
    SectionsOnPrefix(payload, payload + more, HeaderOf(payload), 0, FIRST_CURSOR);
  }

  lemma {:induction false} SameHeader(view: Bytes, payload: Bytes)
    requires view <= payload && |view| >= HEADER_BYTES
    ensures HeaderOf(view) == HeaderOf(payload)
  { }
}
