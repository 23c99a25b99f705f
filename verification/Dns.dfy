/** DNS messages (section 4.1 of RFC 1035): header, questions, resource records and the EDNS option list. */
module Dns {
  import opened Common
  import opened DnsName

  const MAX_MESSAGE_BYTES := 65535
  const MAX_ENTRIES := 128
  const MAX_EDNS_OPTION_BYTES := MAX_MESSAGE_BYTES - 23
  const OPT := 41

  datatype Header = Header(transactionId: nat, flags: nat, questionCount: nat, answerCount: nat, authorityCount: nat,
          additionalCount: nat)
  {
    predicate IsResponse() { flags / 0x8000 % 2 == 1 }
    function Opcode(): (r: nat) ensures r < 16 { flags / 0x800 % 16 }
    function ResponseCode(): (r: nat) ensures r < 16 { flags % 16 }
    predicate Bit(mask: nat) requires mask > 0 { flags / mask % 2 == 1 }
    function Declared(section: nat): nat
    {
      if section == 0 then questionCount else if section == 1 then answerCount
      else if section == 2 then authorityCount else additionalCount
    }
  }

  datatype EdnsOption = EdnsOption(code: nat, data: Bytes)

  datatype Edns = Edns(udpPayloadSize: nat, extendedRcode: nat, version: nat, flags: nat, options: seq<EdnsOption>)

  datatype Entry =
    | Question(name: Name, entryType: nat, entryClass: nat)
    | Record(name: Name, entryType: nat, entryClass: nat, ttl: nat, rdlength: nat, rdata: Bytes, edns: Option<Edns>)
  {
    /** How many bytes of the message the entry takes up. */
    function Size(): nat { name.encodedLength + if Question? then 4 else 10 + rdlength }
  }

  datatype Message = Message(
    status: Status, reason: Option<Reason>, header: Option<Header>, sections: seq<seq<Entry>>,
    parsedLength: nat, remainingBytes: int, failureOffset: Option<nat>, limitReached: bool)

  function LongWord(payload: Bytes, position: nat): nat
    requires position + 4 <= |payload|
  {
    Word(payload, position) * 65536 + Word(payload, position + 2)
  }

  function HeaderOf(payload: Bytes): Header
    requires |payload| >= HEADER_BYTES
  {
    Header(Word(payload, 0), Word(payload, 2), Word(payload, 4), Word(payload, 6), Word(payload, 8), Word(payload, 10))
  }

  // ---------------------------------------------------------------- EDNS options

  type Options = Result<seq<EdnsOption>, ParseError>

  ghost function OptionsFrom(data: Bytes, rdataStart: nat, position: nat, count: nat): Options
    requires position <= |data|
    decreases |data| - position
  {
    if position == |data| then Ok([])
    else if count == MAX_ENTRIES then Err(ParseError(Unsupported, OptionCount, rdataStart + position, true))
    else if |data| - position < 4 then Err(ParseError(Malformed, OptionHeader, rdataStart + position, false))
    else
      var end := position + 4 + Word(data, position + 2);
      if end > |data| then Err(ParseError(Malformed, OptionData, rdataStart + position, false))
      else
        var rest := OptionsFrom(data, rdataStart, end, count + 1);
        if rest.Err? then rest else Ok([EdnsOption(Word(data, position), data[position + 4..end])] + rest.value)
  }

  ghost function EdnsSpec(record: Entry, rdataStart: nat): Result<Edns, ParseError>
    requires record.Record?
  {
    if |record.rdata| > MAX_EDNS_OPTION_BYTES then Err(ParseError(Unsupported, OptionBytes, rdataStart, true))
    else
      var options := OptionsFrom(record.rdata, rdataStart, 0, 0);
      if options.Err? then Err(options.error)
      else Ok(Edns(record.entryClass, record.ttl / 0x1000000, record.ttl / 0x10000 % 256, record.ttl % 0x10000,
                   options.value))
  }

  /** `_edns`. */
  method ReadEdns(record: Entry, rdataStart: nat) returns (r: Result<Edns, ParseError>)
    requires record.Record?
    ensures r == EdnsSpec(record, rdataStart)
  {
    var data := record.rdata;
    if |data| > MAX_EDNS_OPTION_BYTES { return Err(ParseError(Unsupported, OptionBytes, rdataStart, true)); }
    hide OptionsFrom;
    var position: nat, options: seq<EdnsOption> := 0, [];
    PrependNothing(OptionsFrom(data, rdataStart, 0, 0));
    while position < |data|
      invariant position <= |data|
      invariant OptionsFrom(data, rdataStart, 0, 0)
                == Prepend(options, OptionsFrom(data, rdataStart, position, |options|))
    {
      OptionsStep(data, rdataStart, position, options);
      if |options| == MAX_ENTRIES { return Err(ParseError(Unsupported, OptionCount, rdataStart + position, true)); }
      if |data| - position < 4 { return Err(ParseError(Malformed, OptionHeader, rdataStart + position, false)); }
      var code, length := Word(data, position), Word(data, position + 2);
      var end := position + 4 + length;
      if end > |data| { return Err(ParseError(Malformed, OptionData, rdataStart + position, false)); }
      options := options + [EdnsOption(code, data[position + 4..end])];
      position := end;
    }
    OptionsEnd(data, rdataStart, options);
    r := Ok(Edns(record.entryClass, record.ttl / 0x1000000, record.ttl / 0x10000 % 256, record.ttl % 0x10000, options));
  }

  ghost function Prepend(options: seq<EdnsOption>, rest: Options): Options
  {
    if rest.Err? then rest else Ok(options + rest.value)
  }

  lemma {:induction false} PrependNothing(rest: Options)
    ensures Prepend([], rest) == rest
  {
    if rest.Ok? { assert [] + rest.value == rest.value; }
  }

  lemma {:induction false} OptionsEnd(data: Bytes, rdataStart: nat, options: seq<EdnsOption>)
    ensures Prepend(options, OptionsFrom(data, rdataStart, |data|, |options|)) == Ok(options)
  {
    assert options + [] == options;
  }

  lemma {:induction false} OptionsStep(data: Bytes, rdataStart: nat, position: nat, options: seq<EdnsOption>)
    requires position < |data|
    ensures var all := Prepend(options, OptionsFrom(data, rdataStart, position, |options|));
            if |options| == MAX_ENTRIES
               then all == Err(ParseError(Unsupported, OptionCount, rdataStart + position, true))
            else if |data| - position < 4
                    then all == Err(ParseError(Malformed, OptionHeader, rdataStart + position, false))
            else
              var end := position + 4 + Word(data, position + 2);
              if end > |data| then all == Err(ParseError(Malformed, OptionData, rdataStart + position, false))
              else all == Prepend(options + [EdnsOption(Word(data, position), data[position + 4..end])],
                                  OptionsFrom(data, rdataStart, end, |options| + 1))
  {
    if |options| != MAX_ENTRIES && |data| - position >= 4 && position + 4 + Word(data, position + 2) <= |data| {
      var end := position + 4 + Word(data, position + 2);
      var option, rest := EdnsOption(Word(data, position), data[position + 4..end]),
                          OptionsFrom(data, rdataStart, end, |options| + 1);
      if rest.Ok? { assert options + ([option] + rest.value) == (options + [option]) + rest.value; }
    }
  }

  /** Two bytes of code, two of length, then the data. */
  ghost function EncodeOption(o: EdnsOption): Bytes
    requires o.code < 65536 && |o.data| < 65536
  {
    [(o.code / 256) as Byte, (o.code % 256) as Byte, (|o.data| / 256) as Byte, (|o.data| % 256) as Byte] + o.data
  }

  ghost predicate Encodable(options: seq<EdnsOption>)
  {
    forall i :: 0 <= i < |options| ==> options[i].code < 65536 && |options[i].data| < 65536
  }

  ghost function EncodeOptions(options: seq<EdnsOption>): Bytes
    requires Encodable(options)
  {
    if options == [] then [] else EncodeOption(options[0]) + EncodeOptions(options[1..])
  }

  /** Decoding succeeds exactly on encodings of few enough options, and gives these options. */
  lemma {:induction false} OptionsDecode(data: Bytes, rdataStart: nat, position: nat, count: nat)
    requires position <= |data| && count <= MAX_ENTRIES && OptionsFrom(data, rdataStart, position, count).Ok?
    ensures var options := OptionsFrom(data, rdataStart, position, count).value;
            count + |options| <= MAX_ENTRIES && Encodable(options) && EncodeOptions(options) == data[position..]
    decreases |data| - position
  {
    if position < |data| {
      var end := position + 4 + Word(data, position + 2);
      OptionsDecode(data, rdataStart, end, count + 1);
      var rest := OptionsFrom(data, rdataStart, end, count + 1).value;
      var o := EdnsOption(Word(data, position), data[position + 4..end]);
      assert ([o] + rest)[1..] == rest;
      OptionBytesDecode(data, position, end, o);
    }
  }

  lemma {:induction false} OptionBytesDecode(data: Bytes, position: nat, end: nat, o: EdnsOption)
    requires position + 4 <= end <= |data| && end == position + 4 + Word(data, position + 2)
    requires o == EdnsOption(Word(data, position), data[position + 4..end])
    ensures data[position..] == EncodeOption(o) + data[end..]
  {
    var head := [data[position], data[position + 1], data[position + 2], data[position + 3]];
    assert data[position..position + 4] == head;
    assert data[position..] == head + data[position + 4..end] + data[end..];
  }

  lemma {:induction false} OptionsDone(data: Bytes, rdataStart: nat, count: nat)
    ensures OptionsFrom(data, rdataStart, |data|, count) == Ok([])
  { }

  lemma {:induction false} OptionsNext(data: Bytes, rdataStart: nat, position: nat, count: nat, o: EdnsOption)
    requires position + 4 + |o.data| <= |data| && count < MAX_ENTRIES
    requires Word(data, position) == o.code && Word(data, position + 2) == |o.data|
    requires data[position + 4..position + 4 + |o.data|] == o.data
    ensures var rest := OptionsFrom(data, rdataStart, position + 4 + |o.data|, count + 1);
            OptionsFrom(data, rdataStart, position, count) == if rest.Err? then rest else Ok([o] + rest.value)
  {
    hide Word;
  }

  lemma {:induction false} OptionsEncode(data: Bytes, rdataStart: nat, position: nat, count: nat,
          options: seq<EdnsOption>)
    requires position <= |data| && count + |options| <= MAX_ENTRIES
    requires Encodable(options) && EncodeOptions(options) == data[position..]
    ensures OptionsFrom(data, rdataStart, position, count) == Ok(options)
    decreases |options|
  {
    hide OptionsFrom, Word, EncodeOption;
    OptionsDone(data, rdataStart, count);
    if options != [] {
      var o, rest := options[0], options[1..];
      var end, n := position + 4 + |o.data|, count + 1;
      OptionBytesEncode(data, position, o, EncodeOptions(rest));
      OptionsNext(data, rdataStart, position, count, o);
      OptionsEncode(data, rdataStart, end, n, rest);
      hide *;
      assert [o] + rest == options;
    }
  }

  lemma {:induction false} OptionBytesEncode(data: Bytes, position: nat, o: EdnsOption, rest: Bytes)
    requires o.code < 65536 && |o.data| < 65536
    requires position <= |data| && data[position..] == EncodeOption(o) + rest
    ensures var end := position + 4 + |o.data|;
            && end <= |data| && Word(data, position) == o.code && Word(data, position + 2) == |o.data|
            && data[position + 4..end] == o.data && data[end..] == rest
  {
    var tail, end := data[position..], position + 4 + |o.data|;
    assert tail[0] == data[position] && tail[1] == data[position + 1] && tail[2] == data[position + 2]
           && tail[3] == data[position + 3];
    SliceOfSlice(data, position, |data|, 4, 4 + |o.data|);
    SliceOfSlice(data, position, |data|, 4 + |o.data|, |tail|);
    assert data[position..|data|] == tail && data[end..|data|] == data[end..];
    assert tail[4..4 + |o.data|] == o.data && tail[4 + |o.data|..|tail|] == rest;
  }

  /** EDNS data decodes if and only if it is the encoding of at most 128 options. */
  lemma {:induction false} OptionsExactly(data: Bytes, rdataStart: nat)
    ensures OptionsFrom(data, rdataStart, 0, 0).Ok?
       <==> exists options :: |options| <= MAX_ENTRIES && Encodable(options) && EncodeOptions(options) == data
  {
    assert data[0..] == data;
    if OptionsFrom(data, rdataStart, 0, 0).Ok? {
      OptionsDecode(data, rdataStart, 0, 0);
    }
    forall options | |options| <= MAX_ENTRIES && Encodable(options) && EncodeOptions(options) == data
      ensures OptionsFrom(data, rdataStart, 0, 0).Ok?
    {
      OptionsEncode(data, rdataStart, 0, 0, options);
    }
  }

  /**
   * The fields of an option record (section 6.1.3 of RFC 6891): the payload size in
   * place of the class, extended code, version and flags in place of the TTL.
   */
  lemma {:induction false} EdnsRoundTrip(record: Entry, rdataStart: nat, e: Edns)
    requires record.Record? && record.entryClass == e.udpPayloadSize
    requires e.extendedRcode < 256 && e.version < 256 && e.flags < 65536
    requires record.ttl == e.extendedRcode * 16777216 + e.version * 65536 + e.flags
    requires Encodable(e.options) && EncodeOptions(e.options) == record.rdata
    requires |e.options| <= 128 && |record.rdata| <= 65512
    ensures EdnsSpec(record, rdataStart) == Ok(e)
  {
    hide OptionsFrom;
    assert record.rdata[0..] == record.rdata;
    OptionsEncode(record.rdata, rdataStart, 0, 0, e.options);
  }

  // ---------------------------------------------------------------- messages

  /** The variables of the message loop. `edns`: the option record's content and its index in the last section. */
  datatype Cursor = Cursor(
    position: nat, boundaries: set<nat>, ranges: seq<Range>, count: nat, sections: seq<seq<Entry>>,
      edns: Option<(Edns, nat)>)

  const NO_SECTIONS: seq<seq<Entry>> := [[], [], [], []]

  function Append(c: Cursor, section: nat, e: Entry, end: nat): Cursor
    requires section < |c.sections|
  {
    c.(sections := c.sections[section := c.sections[section] + [e]], position := end, count := c.count + 1)
  }

  /** Why a record of type OPT is refused, if it is; its position in the message is what the program reports. */
  function OptError(record: Entry, section: nat, c: Cursor): Option<ParseError>
  {
    if section != 3 then Some(ParseError(Malformed, OptSection, c.position, false))
    else if record.name.labels != [] then Some(ParseError(Malformed, OptOwner, c.position, false))
    else if c.edns.Some? then Some(ParseError(Malformed, MultipleOpt, c.position, false))
    else None
  }

  function QuestionAt(payload: Bytes, name: Name, envelope: nat): Entry
    requires envelope + 4 <= |payload|
  {
    Question(name, Word(payload, envelope), Word(payload, envelope + 2))
  }

  function RecordAt(payload: Bytes, name: Name, envelope: nat): Entry
    requires envelope + 10 <= |payload| && envelope + 10 + Word(payload, envelope + 8) <= |payload|
  {
    var rdlength := Word(payload, envelope + 8);
    Record(name, Word(payload, envelope), Word(payload, envelope + 2), LongWord(payload, envelope + 4), rdlength,
           payload[envelope + 10..envelope + 10 + rdlength], None)
  }

  ghost function RecordSpec(payload: Bytes, section: nat, c: Cursor, name: Name): Result<Cursor, ParseError>
    requires section < |c.sections|
  {
    var envelope := c.position + name.encodedLength;
    var rdataStart := envelope + 10;
    if Require(payload, envelope, 10).Some? then Err(Require(payload, envelope, 10).value)
    else if Require(payload, rdataStart, Word(payload, envelope + 8)).Some? then
      Err(Require(payload, rdataStart, Word(payload, envelope + 8)).value)
    else
      var record := RecordAt(payload, name, envelope);
      var end := rdataStart + record.rdlength;
      if record.entryType == OPT && OptError(record, section, c).Some? then Err(OptError(record, section, c).value)
      else if record.entryType == OPT && EdnsSpec(record, rdataStart).Err? then Err(EdnsSpec(record, rdataStart).error)
      else
        var edns := if record.entryType == OPT then Some((EdnsSpec(record, rdataStart).value, |c.sections[section]|))
                    else c.edns;
        Ok(Append(c.(ranges := c.ranges + [Range(rdataStart, end)], edns := edns), section, record, end))
  }

  ghost function EntrySpec(payload: Bytes, section: nat, c: Cursor): Result<Cursor, ParseError>
    requires section < |c.sections|
  {
    if c.count == MAX_ENTRIES then Err(ParseError(Unsupported, EntryLimit, c.position, true))
    else
      var read := NameFrom(payload, c.ranges, c.position, Begin(c.position, c.boundaries));
      if read.Err? then Err(read.error)
      else
        var name, c' := read.value.0, c.(boundaries := read.value.1);
        var envelope := c.position + name.encodedLength;
        if section != 0 then RecordSpec(payload, section, c', name)
        else if Require(payload, envelope, 4).Some? then Err(Require(payload, envelope, 4).value)
        else Ok(Append(c', 0, QuestionAt(payload, name, envelope), envelope + 4))
  }

  datatype Progress = Progress(cursor: Cursor, error: Option<ParseError>)

  /** `n` more entries of one section. */
  ghost function SectionSpec(payload: Bytes, section: nat, n: nat, c: Cursor): (r: Progress)
    requires section < |c.sections|
    ensures |r.cursor.sections| == |c.sections|
    decreases n
  {
    if n == 0 then Progress(c, None)
    else
      var next := EntrySpec(payload, section, c);
      if next.Err? then Progress(c, Some(next.error)) else SectionSpec(payload, section, n - 1, next.value)
  }

  ghost function SectionsSpec(payload: Bytes, header: Header, section: nat, c: Cursor): (r: Progress)
    requires |c.sections| == 4 && section <= 4
    ensures |r.cursor.sections| == 4
    decreases 4 - section
  {
    if section == 4 then Progress(c, None)
    else
      var read := SectionSpec(payload, section, header.Declared(section), c);
      if read.error.Some? then read else SectionsSpec(payload, header, section + 1, read.cursor)
  }

  /** The option record carries its decoded content once the whole message is known to be sound. */
  function WithEdns(c: Cursor): seq<seq<Entry>>
    requires |c.sections| == 4
  {
    if c.edns.Some? && c.edns.value.1 < |c.sections[3]| && c.sections[3][c.edns.value.1].Record? then
      c.sections[3 := c.sections[3][c.edns.value.1 := c.sections[3][c.edns.value.1].(edns := Some(c.edns.value.0))]]
    else c.sections
  }

  function Failed(payload: Bytes, header: Option<Header>, c: Cursor, e: ParseError): Message
  {
    Message(e.status, Some(e.reason), header, c.sections, c.position, |payload| - c.position, Some(e.offset),
            e.limitReached)
  }

  const FIRST_CURSOR := Cursor(HEADER_BYTES, {}, [], 0, NO_SECTIONS, None)

  ghost function MessageSpec(payload: Bytes): Message
  {
    var none := FIRST_CURSOR.(position := 0);
    if |payload| > MAX_MESSAGE_BYTES then Failed(payload, None, none, ParseError(Unsupported, MessageSize, 0, true))
    else if Require(payload, 0, HEADER_BYTES).Some?
            then Failed(payload, None, none, Require(payload, 0, HEADER_BYTES).value)
    else
      var header := HeaderOf(payload);
      var read := SectionsSpec(payload, header, 0, FIRST_CURSOR);
      var c := read.cursor;
      if read.error.Some? then Failed(payload, Some(header), c, read.error.value)
      else if c.position != |payload| then
        Failed(payload, Some(header), c, ParseError(Malformed, TrailingBytes, c.position, false))
      else Message(Complete, None, Some(header), WithEdns(c), c.position, 0, None, false)
  }

  // ---------------------------------------------------------------- the program's loops

  method ReadRecord(payload: Bytes, section: nat, c: Cursor, name: Name) returns (r: Result<Cursor, ParseError>)
    requires section < |c.sections|
    ensures r == RecordSpec(payload, section, c, name)
  {
    var envelope := c.position + name.encodedLength;
    var short := Require(payload, envelope, 10);
    if short.Some? { return Err(short.value); }
    var rdataStart, rdlength := envelope + 10, Word(payload, envelope + 8);
    short := Require(payload, rdataStart, rdlength);
    if short.Some? { return Err(short.value); }
    var end := rdataStart + rdlength;
    var record, edns := RecordAt(payload, name, envelope), c.edns;
    if record.entryType == OPT {
      var refused := OptError(record, section, c);
      if refused.Some? { return Err(refused.value); }
      var decoded := ReadEdns(record, rdataStart);
      if decoded.Err? { return Err(decoded.error); }
      edns := Some((decoded.value, |c.sections[section]|));
    }
    r := Ok(Append(c.(ranges := c.ranges + [Range(rdataStart, end)], edns := edns), section, record, end));
  }

  method ReadEntry(payload: Bytes, section: nat, c: Cursor) returns (r: Result<Cursor, ParseError>)
    requires section < |c.sections|
    ensures r == EntrySpec(payload, section, c)
  {
    hide NameFrom, RecordSpec;
    if c.count == MAX_ENTRIES { return Err(ParseError(Unsupported, EntryLimit, c.position, true)); }
    var name, boundaries := ReadName(payload, c.position, c.boundaries, c.ranges);
    if name.Err? { return Err(name.error); }
    var c' := c.(boundaries := boundaries);
    if section != 0 {
      r := ReadRecord(payload, section, c', name.value);
      return;
    }
    var envelope := c.position + name.value.encodedLength;
    var short := Require(payload, envelope, 4);
    if short.Some? { return Err(short.value); }
    r := Ok(Append(c', 0, QuestionAt(payload, name.value, envelope), envelope + 4));
  }

  /** `analyze_dns_message`. */
  method Analyze(payload: Bytes) returns (m: Message)
    ensures m == MessageSpec(payload)
  {
    hide EntrySpec;
    var c := FIRST_CURSOR.(position := 0);
    if |payload| > MAX_MESSAGE_BYTES { return Failed(payload, None, c, ParseError(Unsupported, MessageSize, 0, true)); }
    var short := Require(payload, 0, HEADER_BYTES);
    if short.Some? { return Failed(payload, None, c, short.value); }
    var header := HeaderOf(payload);
    c := c.(position := HEADER_BYTES);
    for section := 0 to 4
      invariant |c.sections| == 4
      invariant SectionsSpec(payload, header, 0, FIRST_CURSOR) == SectionsSpec(payload, header, section, c)
    {
      var declared := header.Declared(section);
      ghost var first := c;
      for i := 0 to declared
        invariant |c.sections| == 4
        invariant SectionSpec(payload, section, declared, first) == SectionSpec(payload, section, declared - i, c)
      {
        var next := ReadEntry(payload, section, c);
        if next.Err? { return Failed(payload, Some(header), c, next.error); }
        c := next.value;
      }
    }
    if c.position != |payload| {
      return Failed(payload, Some(header), c, ParseError(Malformed, TrailingBytes, c.position, false));
    }
    m := Message(Complete, None, Some(header), WithEdns(c), c.position, |payload| - c.position, None, false);
  }
}
