/**
 * Whole DNS messages, with names compressed or not, are read back as they were
 * written.
 */
module DnsRoundTrip {
  import opened Common
  import opened DnsName
  import opened Dns

  /** What an entry says, apart from where and how it is written. */
  datatype Content =
    | Asks(labels: seq<Bytes>, entryType: nat, entryClass: nat)
    | Holds(labels: seq<Bytes>, entryType: nat, entryClass: nat, ttl: nat, rdata: Bytes)

  function ContentOf(e: Entry): Content
  {
    match e
    case Question(name, entryType, entryClass) => Asks(name.labels, entryType, entryClass)
    case Record(name, entryType, entryClass, ttl, _, rdata, _) => Holds(name.labels, entryType, entryClass, ttl, rdata)
  }

  ghost function ContentsOf(entries: seq<Entry>): seq<Content>
  {
    if entries == [] then [] else ContentsOf(entries[..|entries| - 1]) + [ContentOf(entries[|entries| - 1])]
  }

  /** An entry and how its name is spelled. */
  datatype Draft = Draft(said: Content, name: Spelling)

  /** Labels of 1 to 63 bytes, up to the first pointer. */
  predicate Plain(s: Spelling)
  {
    match s
    case Root => true
    case Label(text, rest) => 1 <= |text| <= MAX_LABEL_BYTES && Plain(rest)
    case Pointer(target, _) => target < 0x4000
  }

  /** What stands at the place of a name: labels behind their lengths, then a zero or the two bytes of a pointer. */
  function NameBytes(s: Spelling): (b: Bytes)
    requires Plain(s)
    ensures |b| == s.Size()
  {
    match s
    case Root => [0]
    case Label(text, rest) => [|text| as Byte] + text + NameBytes(rest)
    case Pointer(target, _) => [(192 + target / 256) as Byte, (target % 256) as Byte]
  }

  /** The pointers of a name lead to where its rest has been written already. */
  predicate Points(known: map<nat, Spelling>, s: Spelling)
  {
    match s
    case Root => true
    case Label(_, rest) => Points(known, rest)
    case Pointer(target, rest) => target in known && known[target] == rest
  }

  /** Names and numbers within the limits of the wire format. */
  ghost predicate Writable(d: Draft)
  {
    && Plain(d.name) && Fits(d.name) && d.said.labels == d.name.Labels() && Numbers(d.said)
  }

  predicate Numbers(c: Content)
  {
    && c.entryType < 65536 && c.entryClass < 65536
    && (c.Holds? ==> c.ttl < 0x1_0000_0000 && |c.rdata| < 65536)
  }

  predicate IsOpt(c: Content) { c.Holds? && c.entryType == OPT }

  /** What an option record may hold (section 6.1.2 of RFC 6891). */
  ghost predicate OptionData(rdata: Bytes)
  {
    && |rdata| <= MAX_EDNS_OPTION_BYTES
    && exists options :: |options| <= MAX_ENTRIES && Encodable(options) && EncodeOptions(options) == rdata
  }

  ghost predicate Sendable(section: nat, d: Draft)
  {
    && Writable(d) && d.said.Asks? == (section == 0)
    && (IsOpt(d.said) ==> section == 3 && d.said.labels == [] && OptionData(d.said.rdata))
  }

  ghost predicate AllSendable(section: nat, ds: seq<Draft>)
  {
    && (forall i :: 0 <= i < |ds| ==> Sendable(section, ds[i]))
    && (forall i, j :: 0 <= i < j < |ds| ==> !(IsOpt(ds[i].said) && IsOpt(ds[j].said)))
  }

  /** The fields behind the name: type, class, and for a record TTL, length and data. */
  ghost function Fields(c: Content): Bytes
    requires Numbers(c)
  {
    var shared := TwoBytes(c.entryType) + TwoBytes(c.entryClass);
    if c.Asks? then shared
    else
      shared + TwoBytes(c.ttl / 65536) + TwoBytes(c.ttl % 65536) + TwoBytes(|c.rdata|) + c.rdata
  }

  ghost function Written(d: Draft): Bytes
    requires Writable(d)
  {
    NameBytes(d.name) + Fields(d.said)
  }

  ghost function WrittenAll(ds: seq<Draft>): Bytes
    requires forall i :: 0 <= i < |ds| ==> Writable(ds[i])
  {
    if ds == [] then [] else Written(ds[0]) + WrittenAll(ds[1..])
  }

  /** Every name and suffix written so far, by where it stands; the next entry goes to `at`. */
  datatype Page = Page(at: nat, known: map<nat, Spelling>)

  ghost function After(w: Page, d: Draft): Page
    requires Writable(d)
  {
    Page(w.at + |Written(d)|, w.known + d.name.Places(w.at))
  }

  ghost function AfterAll(w: Page, ds: seq<Draft>): Page
    requires forall i :: 0 <= i < |ds| ==> Writable(ds[i])
    decreases |ds|
  {
    if ds == [] then w else AfterAll(After(w, ds[0]), ds[1..])
  }

  /** Each name may end in a pointer to any suffix of any name before it, those of earlier sections included. */
  ghost predicate AllPoint(w: Page, ds: seq<Draft>)
    requires forall i :: 0 <= i < |ds| ==> Writable(ds[i])
    decreases |ds|
  {
    ds == [] || (Points(w.known, ds[0].name) && AllPoint(After(w, ds[0]), ds[1..]))
  }

  function Saids(ds: seq<Draft>): (r: seq<Content>)
    ensures |r| == |ds|
  {
    if ds == [] then [] else [ds[0].said] + Saids(ds[1..])
  }

  // ---------------------------------------------------------------- bytes at a position

  ghost predicate At(payload: Bytes, p: nat, b: Bytes) { p + |b| <= |payload| && payload[p..p + |b|] == b }

  lemma {:induction false} AtSplits(payload: Bytes, p: nat, a: Bytes, b: Bytes)
    requires At(payload, p, a + b)
    ensures At(payload, p, a) && At(payload, p + |a|, b)
  {
    SliceOfSlice(payload, p, p + |a + b|, 0, |a|);
    SliceOfSlice(payload, p, p + |a + b|, |a|, |a + b|);
    assert (a + b)[0..|a|] == a && (a + b)[|a|..|a + b|] == b;
  }

  lemma {:induction false} WordAt(payload: Bytes, p: nat, n: nat)
    requires n < 65536 && At(payload, p, TwoBytes(n))
    ensures p + 2 <= |payload| && Word(payload, p) == n
  {
    var b := payload[p..p + 2];
    assert b[0] == payload[p] && b[1] == payload[p + 1];
  }

  lemma {:induction false} SharedFieldsAt(payload: Bytes, p: nat, c: Content)
    requires Numbers(c) && At(payload, p, Fields(c))
    ensures p + 4 <= |payload| && Word(payload, p) == c.entryType && Word(payload, p + 2) == c.entryClass
    ensures c.Holds? ==> At(payload, p + 4,
                            TwoBytes(c.ttl / 65536) + TwoBytes(c.ttl % 65536) + TwoBytes(|c.rdata|) + c.rdata)
  {
    hide At, TwoBytes;
    var a, b := TwoBytes(c.entryType), TwoBytes(c.entryClass);
    if c.Holds? {
      var rest := TwoBytes(c.ttl / 65536) + TwoBytes(c.ttl % 65536) + TwoBytes(|c.rdata|) + c.rdata;
      assert Fields(c) == a + b + rest;
      AtSplits(payload, p, a + b, rest);
    }
    AtSplits(payload, p, a, b);
    WordAt(payload, p, c.entryType);
    WordAt(payload, p + 2, c.entryClass);
  }

  lemma {:induction false} RecordFieldsAt(payload: Bytes, p: nat, c: Content)
    requires Numbers(c) && c.Holds?
    requires At(payload, p, TwoBytes(c.ttl / 65536) + TwoBytes(c.ttl % 65536) + TwoBytes(|c.rdata|) + c.rdata)
    ensures p + 6 + |c.rdata| <= |payload| && LongWord(payload, p) == c.ttl && Word(payload, p + 4) == |c.rdata|
    ensures payload[p + 6..p + 6 + |c.rdata|] == c.rdata
  {
    hide TwoBytes, Numbers;
    TtlHalves(c);
    var high, low, length := TwoBytes(c.ttl / 65536), TwoBytes(c.ttl % 65536), TwoBytes(|c.rdata|);
    AtSplits(payload, p, high + low + length, c.rdata);
    AtSplits(payload, p, high + low, length);
    AtSplits(payload, p, high, low);
    WordAt(payload, p, c.ttl / 65536);
    WordAt(payload, p + 2, c.ttl % 65536);
    WordAt(payload, p + 4, |c.rdata|);
  }

  lemma {:induction false} TtlHalves(c: Content)
    requires Numbers(c) && c.Holds?
    ensures c.ttl / 65536 < 65536 && c.ttl % 65536 < 65536 && |c.rdata| < 65536
            && c.ttl == c.ttl / 65536 * 65536 + c.ttl % 65536
  { }

  // ---------------------------------------------------------------- one entry

  /** What reading an entry changes: it is appended, and counts as the option record if it is one. */
  ghost predicate TookOne(c: Cursor, section: nat, said: Content, c': Cursor)
    requires section < |c.sections|
  {
    && |c'.sections| == |c.sections| && c'.count == c.count + 1
    && (forall s :: 0 <= s < |c.sections| && s != section ==> c'.sections[s] == c.sections[s])
    && ContentsOf(c'.sections[section]) == ContentsOf(c.sections[section]) + [said]
    && (c'.edns.Some? <==> c.edns.Some? || IsOpt(said))
  }

  /** Everything on the page can be pointed to. */
  ghost predicate Known(payload: Bytes, c: Cursor, w: Page)
  {
    && w.at == c.position >= HEADER_BYTES && Standing(payload, c.boundaries, w.known, HEADER_BYTES, w.at)
  }

  /** Every name on the page is spelled where it stands. */
  ghost predicate Standing(payload: Bytes, before: set<nat>, known: map<nat, Spelling>, from: nat, to: nat)
  {
    forall t :: t in known ==> from <= t < to && t in before && Spelled(payload, t, before, known[t])
  }

  /** The suffixes of a name are spelled where they stand. */
  ghost predicate SuffixesStand(payload: Bytes, before: set<nat>, places: map<nat, Spelling>, from: nat, to: nat)
  {
    forall q :: q in places ==> from <= q < to && Spelled(payload, q, before, places[q])
  }

  /** A name that was written is spelled there, and so is each of its suffixes. */
  lemma {:induction false} WrittenIsSpelled(payload: Bytes, p: nat, before: set<nat>, known: map<nat, Spelling>,
          s: Spelling, to: nat)
    requires Plain(s) && Points(known, s) && At(payload, p, NameBytes(s))
    requires Standing(payload, before, known, HEADER_BYTES, to) && to <= p
    ensures Spelled(payload, p, before, s) && SuffixesStand(payload, before, s.Places(p), p, p + s.Size())
    decreases s
  {
    hide At, Standing, NameBytes, Spelled, SuffixesStand;
    match s
    case Root => RootStands(payload, p, before);
    case Label(text, rest) =>
      LabelParts(payload, p, s);
      WrittenIsSpelled(payload, p + 1 + |text|, before, known, rest, to);
      LabelStands(payload, p, before, s);
    case Pointer(target, rest) => PointerParts(payload, p, before, known, s, to);
  }

  lemma {:induction false} RootStands(payload: Bytes, p: nat, before: set<nat>)
    requires At(payload, p, NameBytes(Root))
    ensures Spelled(payload, p, before, Root) && SuffixesStand(payload, before, Root.Places(p), p, p + Root.Size())
  {
    assert payload[p..p + 1][0] == 0;
  }

  lemma {:induction false} LabelStands(payload: Bytes, p: nat, before: set<nat>, s: Spelling)
    requires s.Label? && Plain(s) && p + 1 + |s.text| <= |payload| && payload[p] as int == |s.text|
    requires payload[p + 1..p + 1 + |s.text|] == s.text
    requires var next := p + 1 + |s.text|;
             Spelled(payload, next, before, s.rest)
               && SuffixesStand(payload, before, s.rest.Places(next), next, next + s.rest.Size())
    ensures Spelled(payload, p, before, s) && SuffixesStand(payload, before, s.Places(p), p, p + s.Size())
  { }

  lemma {:induction false} LabelParts(payload: Bytes, p: nat, s: Spelling)
    requires s.Label? && Plain(s) && At(payload, p, NameBytes(s))
    ensures var length := |s.text|;
            && p + 1 + length <= |payload| && payload[p] as int == length && payload[p + 1..p + 1 + length] == s.text
            && At(payload, p + 1 + length, NameBytes(s.rest))
  {
    var head, tail := [|s.text| as Byte], NameBytes(s.rest);
    assert NameBytes(s) == head + (s.text + tail);
    AtSplits(payload, p, head, s.text + tail);
    AtSplits(payload, p + 1, s.text, tail);
    assert payload[p..p + 1][0] == head[0];
  }

  lemma {:induction false} PointerParts(payload: Bytes, p: nat, before: set<nat>, known: map<nat, Spelling>,
          s: Spelling, to: nat)
    requires s.Pointer? && Plain(s) && Points(known, s) && At(payload, p, NameBytes(s))
    requires Standing(payload, before, known, HEADER_BYTES, to) && to <= p
    ensures Spelled(payload, p, before, s) && SuffixesStand(payload, before, s.Places(p), p, p + s.Size())
  {
    var b := payload[p..p + 2];
    assert b[0] == payload[p] && b[1] == payload[p + 1];
  }

  lemma {:induction false} NameIsRead(payload: Bytes, c: Cursor, w: Page, d: Draft)
    requires Writable(d) && At(payload, c.position, Written(d)) && Known(payload, c, w) && Points(w.known, d.name)
    ensures At(payload, c.position + d.name.Size(), Fields(d.said))
    ensures var n := NameFrom(payload, c.ranges, c.position, Begin(c.position, c.boundaries));
            && n.Ok? && n.value.0 == Name(c.position, d.name.Size(), d.said.labels, d.name.Hops())
            && c.boundaries + d.name.Places(c.position).Keys <= n.value.1
    ensures SuffixesStand(payload, c.boundaries, d.name.Places(c.position), c.position, c.position + d.name.Size())
  {
    hide Fields, NameFrom, Fits, At, Spelled, Standing, SuffixesStand;
    AtSplits(payload, c.position, NameBytes(d.name), Fields(d.said));
    WrittenIsSpelled(payload, c.position, c.boundaries, w.known, d.name, w.at);
    SpelledIsRead(payload, c.ranges, c.position, c.boundaries, d.name);
  }

  /** After an entry has been read its name and its suffixes can be pointed to as well. */
  lemma {:induction false} KnownGrows(payload: Bytes, c: Cursor, w: Page, d: Draft, c': Cursor)
    requires Writable(d) && Known(payload, c, w) && c'.position == c.position + |Written(d)|
    requires c.boundaries + d.name.Places(c.position).Keys <= c'.boundaries
    requires SuffixesStand(payload, c.boundaries, d.name.Places(c.position), c.position, c.position + d.name.Size())
    ensures Known(payload, c', After(w, d))
  {
    hide Spelled, Fields, Fits;
    var w' := After(w, d);
    forall t | t in w'.known
      ensures HEADER_BYTES <= t < w'.at && t in c'.boundaries && Spelled(payload, t, c'.boundaries, w'.known[t])
    {
      SpelledGrows(payload, t, c.boundaries, c'.boundaries, w'.known[t]);
    }
  }

  lemma {:induction false} Appended(entries: seq<Entry>, e: Entry)
    ensures ContentsOf(entries + [e]) == ContentsOf(entries) + [ContentOf(e)]
  {
    assert (entries + [e])[..|entries|] == entries;
  }

  lemma {:induction false} OptionsAreRead(record: Entry, rdataStart: nat)
    requires record.Record? && OptionData(record.rdata)
    ensures EdnsSpec(record, rdataStart).Ok?
  {
    hide OptionsFrom, EncodeOptions;
    OptionsExactly(record.rdata, rdataStart);
    var options :| |options| <= MAX_ENTRIES && Encodable(options) && EncodeOptions(options) == record.rdata;
    assert record.rdata[0..] == record.rdata;
    OptionsEncode(record.rdata, rdataStart, 0, 0, options);
  }

  lemma {:induction false} RecordIsRead(payload: Bytes, section: nat, c: Cursor, d: Draft, name: Name)
    requires section < |c.sections| && section > 0 && Sendable(section, d) && (IsOpt(d.said) ==> c.edns.None?)
    requires name.labels == d.said.labels && At(payload, c.position + name.encodedLength, Fields(d.said))
    ensures var r := RecordSpec(payload, section, c, name);
            && r.Ok? && r.value.position == c.position + name.encodedLength + |Fields(d.said)|
            && TookOne(c, section, d.said, r.value) && r.value.boundaries == c.boundaries
  {
    hide Numbers, Plain, Fits, TwoBytes, OptionData, EdnsSpec, ContentsOf;
    var envelope := c.position + name.encodedLength;
    FieldsSize(d.said);
    SharedFieldsAt(payload, envelope, d.said);
    RecordFieldsAt(payload, envelope + 4, d.said);
    hide At;
    var record := RecordAt(payload, name, envelope);
    assert ContentOf(record) == d.said;
    Appended(c.sections[section], record);
    if IsOpt(d.said) { OptionsAreRead(record, envelope + 10); }
  }

  lemma {:induction false} FieldsSize(c: Content)
    requires Numbers(c)
    ensures |Fields(c)| == if c.Asks? then 4 else 10 + |c.rdata|
  { }

  lemma {:induction false} EntryIsRead(payload: Bytes, section: nat, c: Cursor, w: Page, d: Draft)
    requires section < |c.sections| && Sendable(section, d) && c.count < MAX_ENTRIES
             && (IsOpt(d.said) ==> c.edns.None?)
    requires At(payload, c.position, Written(d)) && Known(payload, c, w) && Points(w.known, d.name)
    ensures var r := EntrySpec(payload, section, c);
            && r.Ok? && TookOne(c, section, d.said, r.value) && Known(payload, r.value, After(w, d))
  {
    hide NameFrom, RecordSpec, Plain, Fits, Numbers, Fields, OptionData, ContentsOf, Known, SuffixesStand, After,
         Points, At;
    NameIsRead(payload, c, w, d);
    var read := NameFrom(payload, c.ranges, c.position, Begin(c.position, c.boundaries)).value;
    var c', envelope := c.(boundaries := read.1), c.position + read.0.encodedLength;
    if section != 0 {
      RecordIsRead(payload, section, c', d, read.0);
    } else {
      FieldsSize(d.said);
      SharedFieldsAt(payload, envelope, d.said);
      Appended(c.sections[0], QuestionAt(payload, read.0, envelope));
    }
    KnownGrows(payload, c, w, d, EntrySpec(payload, section, c).value);
  }

  // ---------------------------------------------------------------- sections

  lemma {:induction false} SectionIsRead(payload: Bytes, section: nat, c: Cursor, w: Page, ds: seq<Draft>)
    requires section < |c.sections| && AllSendable(section, ds) && c.count + |ds| <= MAX_ENTRIES
    requires c.edns.Some? ==> forall i :: 0 <= i < |ds| ==> !IsOpt(ds[i].said)
    requires forall i :: 0 <= i < |ds| ==> Writable(ds[i])
    requires At(payload, c.position, WrittenAll(ds)) && Known(payload, c, w) && AllPoint(w, ds)
    ensures var r := SectionSpec(payload, section, |ds|, c);
            && r.error.None? && r.cursor.count == c.count + |ds| && Known(payload, r.cursor, AfterAll(w, ds))
            && (forall s :: 0 <= s < |c.sections| && s != section ==> r.cursor.sections[s] == c.sections[s])
            && ContentsOf(r.cursor.sections[section]) == ContentsOf(c.sections[section]) + Saids(ds)
            && (c.edns.None? && section != 3 ==> r.cursor.edns.None?)
    decreases |ds|
  {
    hide EntrySpec, Written, Writable, At, ContentsOf, OptionData, Known, After, Points;
    if ds == [] {
      assert ContentsOf(c.sections[section]) + Saids(ds) == ContentsOf(c.sections[section]);
    } else {
      var d, rest := ds[0], ds[1..];
      assert Sendable(section, d);
      RestSendable(section, ds);
      AtSplits(payload, c.position, Written(d), WrittenAll(rest));
      EntryIsRead(payload, section, c, w, d);
      var next := EntrySpec(payload, section, c).value;
      KnownAt(payload, c, w, d, next);
      SectionIsRead(payload, section, next, After(w, d), rest);
      assert ContentsOf(c.sections[section]) + ([d.said] + Saids(rest))
          == ContentsOf(c.sections[section]) + [d.said] + Saids(rest);
    }
  }

  lemma {:induction false} KnownAt(payload: Bytes, c: Cursor, w: Page, d: Draft, next: Cursor)
    requires Writable(d) && Known(payload, c, w) && Known(payload, next, After(w, d))
    ensures next.position == c.position + |Written(d)|
  {
    hide Spelled, Written, Writable;
  }

  lemma {:induction false} RestSendable(section: nat, ds: seq<Draft>)
    requires ds != [] && AllSendable(section, ds)
    ensures AllSendable(section, ds[1..])
    ensures IsOpt(ds[0].said) ==> forall i :: 0 <= i < |ds[1..]| ==> !IsOpt(ds[1..][i].said)
  {
    hide Sendable, IsOpt;
    var rest := ds[1..];
    assert forall i :: 0 <= i < |rest| ==> rest[i] == ds[i + 1];
  }

  /** Four sections within the limits: at most 128 entries in all. */
  ghost predicate Sections(sections: seq<seq<Draft>>)
  {
    && |sections| == 4 && |sections[0]| + |sections[1]| + |sections[2]| + |sections[3]| <= MAX_ENTRIES
    && forall s :: 0 <= s < 4 ==> AllSendable(s, sections[s])
  }

  lemma {:induction false} SectionWritable(sections: seq<seq<Draft>>, s: nat)
    requires Sections(sections) && s <= 4
    ensures s < 4 ==> forall i :: 0 <= i < |sections[s]| ==> Writable(sections[s][i])
  {
    hide Writable, OptionData, IsOpt;
    if s < 4 {
      assert AllSendable(s, sections[s]);
      forall i | 0 <= i < |sections[s]| ensures Writable(sections[s][i]) { assert Sendable(s, sections[s][i]); }
    }
  }

  ghost function WrittenFrom(sections: seq<seq<Draft>>, s: nat): Bytes
    requires Sections(sections) && s <= 4
    decreases 4 - s
  {
    if s == 4 then []
    else
      SectionWritable(sections, s);
      WrittenAll(sections[s]) + WrittenFrom(sections, s + 1)
  }

  /** The names of these sections point only to names before them. */
  ghost predicate PointFrom(sections: seq<seq<Draft>>, s: nat, w: Page)
    requires Sections(sections) && s <= 4
    decreases 4 - s
  {
    SectionWritable(sections, s);
    s == 4 || (AllPoint(w, sections[s]) && PointFrom(sections, s + 1, AfterAll(w, sections[s])))
  }

  ghost function EntriesFrom(sections: seq<seq<Draft>>, s: nat): nat
    requires |sections| == 4 && s <= 4
    decreases 4 - s
  {
    if s == 4 then 0 else |sections[s]| + EntriesFrom(sections, s + 1)
  }

  lemma {:induction false} SectionsAreRead(payload: Bytes, header: Header, section: nat, c: Cursor, w: Page,
          sections: seq<seq<Draft>>)
    requires Sections(sections) && section <= 4 && |c.sections| == 4
    requires forall s :: 0 <= s < 4 ==> header.Declared(s) == |sections[s]|
    requires forall s :: section <= s < 4 ==> c.sections[s] == []
    requires forall s :: 0 <= s < section ==> ContentsOf(c.sections[s]) == Saids(sections[s])
    requires c.count + EntriesFrom(sections, section) <= MAX_ENTRIES && (section < 4 ==> c.edns.None?)
    requires At(payload, c.position, WrittenFrom(sections, section))
    requires Known(payload, c, w) && PointFrom(sections, section, w)
    ensures var r := SectionsSpec(payload, header, section, c);
            && r.error.None? && r.cursor.position == c.position + |WrittenFrom(sections, section)|
            && forall s :: 0 <= s < 4 ==> ContentsOf(r.cursor.sections[s]) == Saids(sections[s])
    decreases 4 - section
  {
    hide SectionSpec, At, AllSendable, WrittenAll, ContentsOf, Header.Declared, Known, AllPoint, AfterAll, Writable,
         Saids;
    if section < 4 {
      SectionWritable(sections, section);
      AtSplits(payload, c.position, WrittenAll(sections[section]), WrittenFrom(sections, section + 1));
      SectionIsRead(payload, section, c, w, sections[section]);
      var read := SectionSpec(payload, section, |sections[section]|, c).cursor;
      PageMoves(w, sections[section]);
      KnownPlace(payload, c, w);
      KnownPlace(payload, read, AfterAll(w, sections[section]));
      NothingSaid();
      assert [] + Saids(sections[section]) == Saids(sections[section]);
      SectionsAreRead(payload, header, section + 1, read, AfterAll(w, sections[section]), sections);
    }
  }

  lemma {:induction false} KnownPlace(payload: Bytes, c: Cursor, w: Page)
    requires Known(payload, c, w)
    ensures w.at == c.position
  { }

  lemma {:induction false} PageMoves(w: Page, ds: seq<Draft>)
    requires forall i :: 0 <= i < |ds| ==> Writable(ds[i])
    ensures AfterAll(w, ds).at == w.at + |WrittenAll(ds)|
    decreases |ds|
  {
    hide Writable, Written;
    if ds != [] { PageMoves(After(w, ds[0]), ds[1..]); }
  }

  lemma {:induction false} NothingSaid()
    ensures ContentsOf([]) == []
  { }

  // ---------------------------------------------------------------- messages

  function HeaderBytes(h: Header): (b: Bytes)
    requires h.transactionId < 65536 && h.flags < 65536
    requires forall s :: 0 <= s < 4 ==> h.Declared(s) < 65536
    ensures |b| == HEADER_BYTES
  {
    TwoBytes(h.transactionId) + TwoBytes(h.flags) + TwoBytes(h.Declared(0)) + TwoBytes(h.Declared(1))
    + TwoBytes(h.Declared(2)) + TwoBytes(h.Declared(3))
  }

  function HeaderFor(id: nat, flags: nat, sections: seq<seq<Draft>>): Header
    requires |sections| == 4
  {
    Header(id, flags, |sections[0]|, |sections[1]|, |sections[2]|, |sections[3]|)
  }

  ghost function WrittenMessage(id: nat, flags: nat, sections: seq<seq<Draft>>): Bytes
    requires id < 65536 && flags < 65536 && Sections(sections)
  {
    HeaderBytes(HeaderFor(id, flags, sections)) + WrittenFrom(sections, 0)
  }

  lemma {:induction false} HeaderIsRead(payload: Bytes, h: Header)
    requires h.transactionId < 65536 && h.flags < 65536 && forall s :: 0 <= s < 4 ==> h.Declared(s) < 65536
    requires At(payload, 0, HeaderBytes(h))
    ensures HEADER_BYTES <= |payload| && HeaderOf(payload) == h
  {
    hide TwoBytes, At;
    var id, flags, a, b, c, d := TwoBytes(h.transactionId), TwoBytes(h.flags), TwoBytes(h.Declared(0)),
                                 TwoBytes(h.Declared(1)),
                                 TwoBytes(h.Declared(2)), TwoBytes(h.Declared(3));
    AtSplits(payload, 0, id + flags + a + b + c, d);
    AtSplits(payload, 0, id + flags + a + b, c);
    AtSplits(payload, 0, id + flags + a, b);
    AtSplits(payload, 0, id + flags, a);
    AtSplits(payload, 0, id, flags);
    WordAt(payload, 0, h.transactionId);
    WordAt(payload, 2, h.flags);
    WordAt(payload, 4, h.Declared(0));
    WordAt(payload, 6, h.Declared(1));
    WordAt(payload, 8, h.Declared(2));
    WordAt(payload, 10, h.Declared(3));
  }

  lemma {:induction false} ContentsPointwise(entries: seq<Entry>)
    ensures |ContentsOf(entries)| == |entries|
            && forall i :: 0 <= i < |entries| ==> ContentsOf(entries)[i] == ContentOf(entries[i])
  {
    if entries != [] { ContentsPointwise(entries[..|entries| - 1]); }
  }

  lemma {:induction false} SameContents(a: seq<Entry>, b: seq<Entry>)
    requires |a| == |b| && forall i :: 0 <= i < |a| ==> ContentOf(a[i]) == ContentOf(b[i])
    ensures ContentsOf(a) == ContentsOf(b)
  {
    hide ContentOf, ContentsOf;
    ContentsPointwise(a);
    ContentsPointwise(b);
  }

  /** Attaching the decoded options changes nothing an entry says. */
  lemma {:induction false} WithEdnsKeepsContents(c: Cursor)
    requires |c.sections| == 4
    ensures |WithEdns(c)| == 4 && forall s :: 0 <= s < 4 ==> ContentsOf(WithEdns(c)[s]) == ContentsOf(c.sections[s])
  {
    hide ContentsOf;
    forall s | 0 <= s < 4 ensures ContentsOf(WithEdns(c)[s]) == ContentsOf(c.sections[s]) {
      SameContents(WithEdns(c)[s], c.sections[s]);
    }
  }

  /** The page behind the header, on which nothing can be pointed to. */
  const BLANK := Page(HEADER_BYTES, map[])

  /**
   * Any header and any entries within the limits, each name written out or ending in a
   * pointer to any earlier name or suffix of one, are analysed as a COMPLETE message with
   * this header and exactly these entries.
   */
  lemma {:induction false} MessageRoundTrip(id: nat, flags: nat, sections: seq<seq<Draft>>)
    requires id < 65536 && flags < 65536 && Sections(sections) && PointFrom(sections, 0, BLANK)
    requires |WrittenMessage(id, flags, sections)| <= MAX_MESSAGE_BYTES
    ensures var m := MessageSpec(WrittenMessage(id, flags, sections));
            && m.status == Complete && m.header == Some(HeaderFor(id, flags, sections)) && |m.sections| == 4
            && forall s :: 0 <= s < 4 ==> ContentsOf(m.sections[s]) == Saids(sections[s])
  {
    hide AllSendable, SectionsSpec, WrittenFrom, PointFrom, ContentsOf, HeaderBytes, HeaderOf, WithEdns, Saids;
    var header, payload := HeaderFor(id, flags, sections), WrittenMessage(id, flags, sections);
    assert payload[0..|payload|] == payload;
    AtSplits(payload, 0, HeaderBytes(header), WrittenFrom(sections, 0));
    HeaderIsRead(payload, header);
    SectionsAreRead(payload, header, 0, FIRST_CURSOR, BLANK, sections);
    WithEdnsKeepsContents(SectionsSpec(payload, header, 0, FIRST_CURSOR).cursor);
  }

  /** A name without pointers. */
  function Uncompressed(labels: seq<Bytes>): Spelling
  {
    if labels == [] then Root else Label(labels[0], Uncompressed(labels[1..]))
  }

  lemma {:induction false} UncompressedPoints(known: map<nat, Spelling>, labels: seq<Bytes>)
    requires forall l :: l in labels ==> 1 <= |l| <= MAX_LABEL_BYTES
    ensures var s := Uncompressed(labels); Points(known, s) && Plain(s) && s.Labels() == labels && s.Hops() == 0
  {
    if labels != [] { UncompressedPoints(known, labels[1..]); }
  }

  /** The commonest answer: its owner is the name of the question, as a pointer to byte 12. */
  lemma {:induction false} AnswerPointsToQuestion(id: nat, flags: nat, asked: Draft, answer: Content)
    requires id < 65536 && flags < 65536 && Sendable(0, asked) && Points(map[], asked.name) && asked.name.Hops() < 32
    requires answer.Holds? && answer.entryType != OPT && Numbers(answer) && answer.labels == asked.said.labels
    ensures var sections := [[asked], [Draft(answer, Pointer(12, asked.name))], [], []];
            Sections(sections) && PointFrom(sections, 0, BLANK)
  {
    hide OptionData, Numbers;
    var second := Draft(answer, Pointer(12, asked.name));
    var sections := [[asked], [second], [], []];
    assert Sendable(1, second);
    assert AllSendable(0, [asked]) && AllSendable(1, [second]);
    assert AllSendable(2, sections[2]) && AllSendable(3, sections[3]);
    hide Fields, Sendable, AllSendable;
    assert [asked][1..] == [] && [second][1..] == [];
    PlaceOfName(asked.name, 12);
    var w := AfterAll(BLANK, [asked]);
    OneAfter(BLANK, asked);
    assert map[] + asked.name.Places(12) == asked.name.Places(12);
    assert AllPoint(BLANK, [asked]);
    assert AllPoint(w, [second]);
    var w1 := AfterAll(w, [second]);
    assert PointFrom(sections, 4, AfterAll(AfterAll(w1, []), []));
    assert PointFrom(sections, 3, AfterAll(w1, []));
    assert PointFrom(sections, 2, w1);
  }

  lemma {:induction false} OneAfter(w: Page, d: Draft)
    requires Writable(d)
    ensures AfterAll(w, [d]) == After(w, d)
  {
    hide Writable;
  }

  lemma {:induction false} PlaceOfName(s: Spelling, p: nat)
    ensures p in s.Places(p) && s.Places(p)[p] == s
  { }
}
