/** What a decoded DNS message is worth: its entries tile the payload, and a COMPLETE one has all it declares. */
module DnsMeaning {
  import opened Common
  import opened DnsName
  import opened Dns

  /** Where entries laid end to end from `from` on stop. */
  ghost function EndOf(entries: seq<Entry>, from: nat): nat
  {
    if entries == [] then from else EndOf(entries[..|entries| - 1], from) + entries[|entries| - 1].Size()
  }

  /** The entry at `at` says what the bytes there mean. */
  ghost predicate Faithful(payload: Bytes, e: Entry, at: nat)
  {
    && e.name.offset == at && Means(payload, at, e.name.labels)
    && 1 + Octets(e.name.labels) <= MAX_NAME_BYTES && e.name.pointerHops <= MAX_POINTER_HOPS
    && e.name.encodedLength == Span(payload, at)
    && at + e.Size() <= |payload|
    && (var envelope := at + e.name.encodedLength;
        if e.Question? then e == QuestionAt(payload, e.name, envelope)
        else e.rdlength == Word(payload, envelope + 8) && e.(edns := None) == RecordAt(payload, e.name, envelope))
  }

  ghost predicate Laid(payload: Bytes, entries: seq<Entry>, from: nat)
  {
    entries != [] ==>
      && Laid(payload, entries[..|entries| - 1], from)
      && Faithful(payload, entries[|entries| - 1], EndOf(entries[..|entries| - 1], from))
  }

  ghost function Flat(sections: seq<seq<Entry>>): seq<Entry>
    requires |sections| == 4
  {
    sections[0] + sections[1] + sections[2] + sections[3]
  }

  /** Where the data of the records among these entries lie. */
  ghost function DataOf(entries: seq<Entry>): seq<Range>
  {
    if entries == [] then []
    else
      var less, e := entries[..|entries| - 1], entries[|entries| - 1];
      var at := EndOf(less, HEADER_BYTES);
      DataOf(less) + if e.Question? then [] else [Range(at + e.name.encodedLength + 10, at + e.Size())]
  }

  /** The option records of a message: all in the last section, with the root as owner, and at most one. */
  ghost predicate OptionRecord(c: Cursor)
    requires |c.sections| == 4
  {
    && (forall s, i :: 0 <= s < 4 && 0 <= i < |c.sections[s]| ==>
          && c.sections[s][i].Question? == (s == 0)
          && (s > 0 ==> c.sections[s][i].edns.None?)
          && (s > 0 && c.sections[s][i].entryType == OPT ==> s == 3 && c.edns.Some? && c.edns.value.1 == i))
    && (c.edns.Some? ==>
          && c.edns.value.1 < |c.sections[3]|
          && c.sections[3][c.edns.value.1].entryType == OPT && c.sections[3][c.edns.value.1].name.labels == []
          && exists at :: EdnsSpec(c.sections[3][c.edns.value.1], at) == Ok(c.edns.value.0))
  }

  /** What holds of the message loop while it reads `section`. */
  ghost predicate Reading(payload: Bytes, section: nat, c: Cursor)
  {
    && |c.sections| == 4 && section <= 4
    && (forall s :: section < s < 4 ==> c.sections[s] == [])
    && c.count == |Flat(c.sections)| <= MAX_ENTRIES
    && HEADER_BYTES <= |payload|
    && c.position == EndOf(Flat(c.sections), HEADER_BYTES) <= |payload|
    && Laid(payload, Flat(c.sections), HEADER_BYTES)
    && (forall b :: b in c.boundaries ==> HasMeaning(payload, b))
    && c.ranges == DataOf(Flat(c.sections))
    && OptionRecord(c)
  }

  lemma {:induction false} FlatAppend(sections: seq<seq<Entry>>, section: nat, e: Entry)
    requires |sections| == 4 && section < 4 && forall s :: section < s < 4 ==> sections[s] == []
    ensures Flat(sections[section := sections[section] + [e]]) == Flat(sections) + [e]
  { }

  lemma {:induction false} LaidAppend(payload: Bytes, entries: seq<Entry>, e: Entry, from: nat)
    requires Laid(payload, entries, from) && Faithful(payload, e, EndOf(entries, from))
    ensures Laid(payload, entries + [e], from) && EndOf(entries + [e], from) == EndOf(entries, from) + e.Size()
  {
    assert (entries + [e])[..|entries|] == entries;
  }

  lemma {:induction false} DataAppend(entries: seq<Entry>, e: Entry)
    ensures var at := EndOf(entries, HEADER_BYTES);
            DataOf(entries + [e])
            == DataOf(entries) + if e.Question? then [] else [Range(at + e.name.encodedLength + 10, at + e.Size())]
  {
    assert (entries + [e])[..|entries|] == entries;
  }

  /** One more entry, and where it came from. */
  lemma {:induction false} EntryIsFaithful(payload: Bytes, section: nat, c: Cursor) returns (e: Entry)
    requires section < |c.sections| && EntrySpec(payload, section, c).Ok?
    ensures var c' := EntrySpec(payload, section, c).value;
            && c.count != MAX_ENTRIES && Faithful(payload, e, c.position)
            && c'.position == c.position + e.Size() && c'.count == c.count + 1
            && c'.sections == c.sections[section := c.sections[section] + [e]]
            && e.Question? == (section == 0) && (e.Record? ==> e.edns.None?)
            && (forall b :: b in c'.boundaries ==> b in c.boundaries || HasMeaning(payload, b))
            && c'.ranges == c.ranges + (if e.Question? then []
                                        else [Range(c.position + e.name.encodedLength + 10, c.position + e.Size())])
            && (if e.Record? && e.entryType == OPT then
                  section == 3 && e.name.labels == [] && c.edns.None? && c'.edns.Some?
                  && c'.edns.value.1 == |c.sections[section]|
                  && exists at :: EdnsSpec(e, at) == Ok(c'.edns.value.0)
                else c'.edns == c.edns)
  {
    hide NameFrom, EdnsSpec, Span, Octets;
    var read := NameFrom(payload, c.ranges, c.position, Begin(c.position, c.boundaries));
    NameIsDecoded(payload, c.ranges, c.position, c.boundaries);
    var name, envelope := read.value.0, c.position + read.value.0.encodedLength;
    e := if section == 0 then QuestionAt(payload, name, envelope) else RecordAt(payload, name, envelope);
  }

  lemma {:induction false} OptionRecordAppend(section: nat, c: Cursor, e: Entry, c': Cursor)
    requires section < 4 && |c.sections| == 4 && OptionRecord(c)
    requires c'.sections == c.sections[section := c.sections[section] + [e]]
    requires e.Question? == (section == 0) && (e.Record? ==> e.edns.None?)
    requires if e.Record? && e.entryType == OPT then
               && section == 3 && e.name.labels == [] && c.edns.None? && c'.edns.Some?
               && c'.edns.value.1 == |c.sections[section]| && exists at :: EdnsSpec(e, at) == Ok(c'.edns.value.0)
             else c'.edns == c.edns
    ensures OptionRecord(c')
  {
    hide EdnsSpec;
  }

  lemma {:induction false} EntryKeepsReading(payload: Bytes, section: nat, c: Cursor)
    requires section < 4 && Reading(payload, section, c) && EntrySpec(payload, section, c).Ok?
    ensures var c' := EntrySpec(payload, section, c).value;
            && Reading(payload, section, c')
            && |c'.sections[section]| == |c.sections[section]| + 1
            && (forall s :: 0 <= s < 4 && s != section ==> c'.sections[s] == c.sections[s])
  {
    hide EntrySpec, Faithful, Laid, EndOf, EdnsSpec, OptionRecord, DataOf;
    var e := EntryIsFaithful(payload, section, c);
    DataAppend(Flat(c.sections), e);
    OptionRecordAppend(section, c, e, EntrySpec(payload, section, c).value);
    FlatAppend(c.sections, section, e);
    LaidAppend(payload, Flat(c.sections), e, HEADER_BYTES);
    FaithfulFits(payload, e, c.position);
  }

  lemma {:induction false} FaithfulFits(payload: Bytes, e: Entry, at: nat)
    requires Faithful(payload, e, at)
    ensures at + e.Size() <= |payload|
  { }

  lemma {:induction false} SectionKeepsReading(payload: Bytes, section: nat, n: nat, c: Cursor)
    requires section < 4 && Reading(payload, section, c)
    ensures var r := SectionSpec(payload, section, n, c);
            && Reading(payload, section, r.cursor)
            && (r.error.None? ==> |r.cursor.sections[section]| == |c.sections[section]| + n)
            && (forall s :: 0 <= s < 4 && s != section ==> r.cursor.sections[s] == c.sections[s])
    decreases n
  {
    hide EntrySpec, Reading;
    ReadingHasSections(payload, section, c);
    if n > 0 {
      var next := EntrySpec(payload, section, c);
      if next.Ok? {
        EntryKeepsReading(payload, section, c);
        SectionKeepsReading(payload, section, n - 1, next.value);
      }
    }
  }

  lemma {:induction false} ReadingHasSections(payload: Bytes, section: nat, c: Cursor)
    requires Reading(payload, section, c)
    ensures |c.sections| == 4 && forall s :: section < s < 4 ==> c.sections[s] == []
  { }

  /** Sections already read have their declared length, and keep it. */
  lemma {:induction false} SectionsKeepReading(payload: Bytes, header: Header, section: nat, c: Cursor)
    requires section <= 4 && Reading(payload, section, c)
    requires section < 4 ==> c.sections[section] == []
    requires forall s :: 0 <= s < section ==> |c.sections[s]| == header.Declared(s)
    ensures var r := SectionsSpec(payload, header, section, c);
            && Reading(payload, 4, r.cursor)
            && (r.error.None? ==> forall s :: 0 <= s < 4 ==> |r.cursor.sections[s]| == header.Declared(s))
    decreases 4 - section
  {
    hide SectionSpec, Reading;
    ReadingHasSections(payload, section, c);
    if section < 4 {
      SectionKeepsReading(payload, section, header.Declared(section), c);
      var read := SectionSpec(payload, section, header.Declared(section), c);
      ReadingWidens(payload, section, read.cursor);
      ReadingHasSections(payload, section, read.cursor);
      if read.error.None? {
        SectionsKeepReading(payload, header, section + 1, read.cursor);
      }
    } else {
      ReadingWidens(payload, section, c);
    }
  }

  lemma {:induction false} ReadingWidens(payload: Bytes, section: nat, c: Cursor)
    requires Reading(payload, section, c)
    ensures Reading(payload, 4, c) && (section < 4 ==> Reading(payload, section + 1, c))
  { }

  /** Attaching the option content moves nothing. */
  lemma {:induction false} WithEdnsKeepsLayout(payload: Bytes, c: Cursor)
    requires Reading(payload, 4, c)
    ensures var sections := WithEdns(c);
            && |sections| == 4 && (forall s :: 0 <= s < 4 ==> |sections[s]| == |c.sections[s]|)
            && Laid(payload, Flat(sections), HEADER_BYTES)
            && EndOf(Flat(sections), HEADER_BYTES) == EndOf(Flat(c.sections), HEADER_BYTES)
  {
    hide Faithful, EdnsSpec, Laid, EndOf;
    var a, b := Flat(c.sections), Flat(WithEdns(c));
    assert |a| == |b|;
    forall i | 0 <= i < |a| ensures SameButEdns(a[i], b[i]) { }
    LaidIgnoresEdns(payload, a, b, HEADER_BYTES);
  }

  ghost predicate SameButEdns(a: Entry, b: Entry)
  {
    a == b || (a.Record? && b.Record? && a.(edns := None) == b.(edns := None))
  }

  lemma {:induction false} LaidIgnoresEdns(payload: Bytes, a: seq<Entry>, b: seq<Entry>, from: nat)
    requires |a| == |b| && (forall i :: 0 <= i < |a| ==> SameButEdns(a[i], b[i])) && Laid(payload, a, from)
    ensures Laid(payload, b, from) && EndOf(b, from) == EndOf(a, from)
  {
    hide Means, Span, Octets;
    if a != [] {
      LaidIgnoresEdns(payload, a[..|a| - 1], b[..|b| - 1], from);
      assert SameButEdns(a[|a| - 1], b[|b| - 1]);
    }
  }

  /** The content attached to an option record is what its fields and its data say (section 6.1 of RFC 6891). */
  ghost predicate SaysOptions(e: Entry)
  {
    e.Record? && e.edns.Some? ==>
      var edns := e.edns.value;
      && edns.udpPayloadSize == e.entryClass && edns.extendedRcode == e.ttl / 0x1000000
      && edns.version == e.ttl / 0x10000 % 256 && edns.flags == e.ttl % 0x10000
      && |edns.options| <= MAX_ENTRIES && Encodable(edns.options) && EncodeOptions(edns.options) == e.rdata
  }

  lemma {:induction false} DecodedSaysOptions(record: Entry, at: nat, edns: Edns)
    requires record.Record? && EdnsSpec(record, at) == Ok(edns)
    ensures SaysOptions(record.(edns := Some(edns)))
  {
    hide OptionsFrom, EncodeOptions;
    OptionsDecode(record.rdata, at, 0, 0);
    assert record.rdata[0..] == record.rdata;
  }

  lemma {:induction false} WithEdnsSaysOptions(payload: Bytes, c: Cursor)
    requires Reading(payload, 4, c)
    ensures forall s, i :: 0 <= s < 4 && 0 <= i < |WithEdns(c)[s]| ==> SaysOptions(WithEdns(c)[s][i])
  {
    hide Laid, EndOf, EdnsSpec, Faithful, Flat, EncodeOptions, Encodable;
    if c.edns.Some? {
      var k := c.edns.value.1;
      var at :| EdnsSpec(c.sections[3][k], at) == Ok(c.edns.value.0);
      DecodedSaysOptions(c.sections[3][k], at, c.edns.value.0);
    }
  }

  /**
   * A COMPLETE message has exactly the entries its header declares, at most
   * 128; they tile the payload from the header to its last byte, each saying
   * what its bytes mean; and at most one option record, where it belongs, with the
   * options its data encodes.
   */
  lemma {:induction false} CompleteMessage(payload: Bytes)
    requires MessageSpec(payload).status == Complete
    ensures var m := MessageSpec(payload);
            && |payload| <= MAX_MESSAGE_BYTES && m.header.Some? && |m.sections| == 4
            && (forall s :: 0 <= s < 4 ==> |m.sections[s]| == m.header.value.Declared(s))
            && |Flat(m.sections)| <= MAX_ENTRIES
            && Laid(payload, Flat(m.sections), HEADER_BYTES)
            && EndOf(Flat(m.sections), HEADER_BYTES) == |payload| == m.parsedLength
            && (forall s, i :: 0 <= s < 4 && 0 <= i < |m.sections[s]| ==> m.sections[s][i].Question? == (s == 0))
            && (forall s, i :: 0 < s < 4 && 0 <= i < |m.sections[s]| ==>
                  (m.sections[s][i].edns.Some? <==> m.sections[s][i].entryType == OPT)
                  && (m.sections[s][i].entryType == OPT ==> s == 3 && m.sections[s][i].name.labels == []))
            && (forall i, j :: 0 <= i < j < |m.sections[3]|
                               ==> !(m.sections[3][i].entryType == OPT && m.sections[3][j].entryType == OPT))
            && (forall s, i :: 0 <= s < 4 && 0 <= i < |m.sections[s]| ==> SaysOptions(m.sections[s][i]))
  {
    hide SectionsSpec, Laid, EndOf, EdnsSpec, Faithful, SaysOptions;
    ReadWhole(payload);
    ErrorsAreNotComplete(payload, HeaderOf(payload), 0, FIRST_CURSOR);
    var c := SectionsSpec(payload, HeaderOf(payload), 0, FIRST_CURSOR).cursor;
    WithEdnsKeepsLayout(payload, c);
    WithEdnsPlacesOption(payload, c);
    WithEdnsSaysOptions(payload, c);
  }

  lemma {:induction false} WithEdnsPlacesOption(payload: Bytes, c: Cursor)
    requires Reading(payload, 4, c)
    ensures var sections := WithEdns(c);
            && (forall s, i :: 0 <= s < 4 && 0 <= i < |sections[s]| ==> sections[s][i].Question? == (s == 0))
            && (forall s, i :: 0 < s < 4 && 0 <= i < |sections[s]| ==>
                  (sections[s][i].edns.Some? <==> sections[s][i].entryType == OPT)
                  && (sections[s][i].entryType == OPT ==> s == 3 && sections[s][i].name.labels == []))
            && (forall i, j :: 0 <= i < j < |sections[3]|
                               ==> !(sections[3][i].entryType == OPT && sections[3][j].entryType == OPT))
  {
    hide Laid, EndOf, EdnsSpec, Faithful, Flat;
  }

  lemma {:induction false} ReadWhole(payload: Bytes)
    requires |payload| >= HEADER_BYTES
    ensures var header := HeaderOf(payload);
            var r := SectionsSpec(payload, header, 0, FIRST_CURSOR);
            && Reading(payload, 4, r.cursor)
            && (r.error.None? ==> forall s :: 0 <= s < 4 ==> |r.cursor.sections[s]| == header.Declared(s))
  {
    hide SectionsSpec;
    assert Flat(NO_SECTIONS) == [];
    assert Reading(payload, 0, FIRST_CURSOR);
    SectionsKeepReading(payload, HeaderOf(payload), 0, FIRST_CURSOR);
  }

  /** Whatever its verdict, a message reports the entries it read, and they tile what it says it parsed. */
  lemma {:induction false} EveryMessage(payload: Bytes)
    ensures var m := MessageSpec(payload);
            && |m.sections| == 4
            && m.parsedLength + m.remainingBytes == |payload| && m.parsedLength <= |payload|
            && (m.status == Complete <==> m.reason.None?) && (m.status == Complete <==> m.failureOffset.None?)
            && (m.header.Some? ==>
                  m.parsedLength == EndOf(Flat(m.sections), HEADER_BYTES)
                    && Laid(payload, Flat(m.sections), HEADER_BYTES))
            && (m.header.None? ==> m.parsedLength == 0 && Flat(m.sections) == [])
  {
    hide SectionsSpec, Laid, EndOf, EdnsSpec, Faithful;
    assert Flat(NO_SECTIONS) == [];
    if HEADER_BYTES <= |payload| {
      ReadWhole(payload);
      WithEdnsKeepsLayout(payload, SectionsSpec(payload, HeaderOf(payload), 0, FIRST_CURSOR).cursor);
      ErrorsAreNotComplete(payload, HeaderOf(payload), 0, FIRST_CURSOR);
    }
  }

  lemma {:induction false} WalkErrors(payload: Bytes, ranges: seq<Range>, start: nat, w: Walk)
    requires InBounds(w)
    ensures var n := NameFrom(payload, ranges, start, w); n.Err? ==> n.error.status != Complete
    decreases MAX_POINTER_HOPS - w.hops + MAX_NAME_BYTES - w.expanded
  {
    match Step(payload, ranges, start, w)
    case Next(walk) => WalkErrors(payload, ranges, start, walk);
    case _ =>
  }

  lemma {:induction false} OptionErrors(data: Bytes, rdataStart: nat, position: nat, count: nat)
    requires position <= |data|
    ensures var r := OptionsFrom(data, rdataStart, position, count); r.Err? ==> r.error.status != Complete
    decreases |data| - position
  {
    if position + 4 <= |data| && position + 4 + Word(data, position + 2) <= |data| {
      OptionErrors(data, rdataStart, position + 4 + Word(data, position + 2), count + 1);
    }
  }

  lemma {:induction false} SectionErrors(payload: Bytes, section: nat, n: nat, c: Cursor)
    requires section < |c.sections|
    ensures var r := SectionSpec(payload, section, n, c); r.error.Some? ==> r.error.value.status != Complete
    decreases n
  {
    hide EntrySpec;
    if n > 0 {
      EntryErrors(payload, section, c);
      var next := EntrySpec(payload, section, c);
      if next.Ok? {
        EntryKeepsSections(payload, section, c);
        SectionErrors(payload, section, n - 1, next.value);
      }
    }
  }

  lemma {:induction false} EntryKeepsSections(payload: Bytes, section: nat, c: Cursor)
    requires section < |c.sections|
    ensures var r := EntrySpec(payload, section, c); r.Ok? ==> |r.value.sections| == |c.sections|
  {
    hide NameFrom, EdnsSpec;
  }

  lemma {:induction false} EntryErrors(payload: Bytes, section: nat, c: Cursor)
    requires section < |c.sections|
    ensures var r := EntrySpec(payload, section, c); r.Err? ==> r.error.status != Complete
  {
    hide NameFrom, OptionsFrom;
    WalkErrors(payload, c.ranges, c.position, Begin(c.position, c.boundaries));
    forall record: Entry, at | record.Record?
      ensures var r := EdnsSpec(record, at); r.Err? ==> r.error.status != Complete
    {
      OptionErrors(record.rdata, at, 0, 0);
    }
  }

  lemma {:induction false} ErrorsAreNotComplete(payload: Bytes, header: Header, section: nat, c: Cursor)
    requires |c.sections| == 4 && section <= 4
    ensures var r := SectionsSpec(payload, header, section, c); r.error.Some? ==> r.error.value.status != Complete
    decreases 4 - section
  {
    hide SectionSpec;
    if section < 4 {
      SectionErrors(payload, section, header.Declared(section), c);
      var read := SectionSpec(payload, section, header.Declared(section), c);
      if read.error.None? { ErrorsAreNotComplete(payload, header, section + 1, read.cursor); }
    }
  }

  // ---------------------------------------------------------------- bounds of a decoded entry

  /** What the aggregates rely on: names within the limits, codes and lengths of sixteen bits. */
  ghost predicate Fits(e: Entry)
  {
    && (forall l :: l in e.name.labels ==> 1 <= |l| <= MAX_LABEL_BYTES) && 1 + Octets(e.name.labels) <= MAX_NAME_BYTES
    && e.entryType < 65536 && e.entryClass < 65536 && (e.Record? ==> e.rdlength < 65536)
  }

  lemma {:induction false} LabelsFit(payload: Bytes, position: nat, fuel: nat)
    requires Expand(payload, position, fuel).Some?
    ensures forall l :: l in Expand(payload, position, fuel).value ==> 1 <= |l| <= MAX_LABEL_BYTES
    decreases fuel
  {
    var length := payload[position];
    if length != 0 {
      if IsPointer(length) {
        LabelsFit(payload, Target(payload, position), fuel - 1);
      } else {
        LabelsFit(payload, position + 1 + length, fuel - 1);
      }
    }
  }

  lemma {:induction false} FaithfulEntryFits(payload: Bytes, e: Entry, at: nat)
    requires Faithful(payload, e, at)
    ensures Fits(e)
  {
    hide Octets, Span;
    var fuel: nat :| Expand(payload, at, fuel) == Some(e.name.labels);
    LabelsFit(payload, at, fuel);
  }

  lemma {:induction false} LaidEntriesFit(payload: Bytes, entries: seq<Entry>, from: nat)
    requires Laid(payload, entries, from)
    ensures forall i :: 0 <= i < |entries| ==> Fits(entries[i])
  {
    hide Fits, Faithful;
    if entries != [] {
      var before := entries[..|entries| - 1];
      LaidEntriesFit(payload, before, from);
      FaithfulEntryFits(payload, entries[|entries| - 1], EndOf(before, from));
      forall i | 0 <= i < |entries| ensures Fits(entries[i]) {
        if i < |before| { assert before[i] == entries[i]; }
      }
    }
  }

  /** Every entry of a message is within the bounds. */
  lemma {:induction false} EntriesFit(payload: Bytes, s: nat, i: nat)
    requires s < 4 && |MessageSpec(payload).sections| == 4 && i < |MessageSpec(payload).sections[s]|
    ensures Fits(MessageSpec(payload).sections[s][i])
  {
    hide Fits, Laid, EndOf, MessageSpec;
    var m := MessageSpec(payload);
    EveryMessage(payload);
    var flat := Flat(m.sections);
    var at := (if s > 0 then |m.sections[0]| else 0) + (if s > 1 then |m.sections[1]| else 0)
              + (if s > 2 then |m.sections[2]| else 0) + i;
    assert flat[at] == m.sections[s][i];
    LaidEntriesFit(payload, flat, HEADER_BYTES);
  }
}
