/**
 * LDAP messages as they are written (section 5.1 of RFC 4511): the parser accepts
 * them, and nothing else, with exactly the fields they were written from.
 */
module LdapRoundTrip {
  import opened Common
  import opened Ldap

  // ---------------------------------------------------------------- the wire format

  /** The number of an operation among the application tags of section 4.2 and the following of RFC 4511. */
  function Number(op: Operation): nat
  {
    match op
    case BindRequest => 0
    case BindResponse => 1
    case UnbindRequest => 2
    case SearchRequest => 3
    case SearchResultEntry => 4
    case SearchResultDone => 5
    case ModifyRequest => 6
    case ModifyResponse => 7
    case AddRequest => 8
    case AddResponse => 9
    case DeleteRequest => 10
    case DeleteResponse => 11
    case ModifyDnRequest => 12
    case ModifyDnResponse => 13
    case CompareRequest => 14
    case CompareResponse => 15
    case AbandonRequest => 16
    case SearchResultReference => 19
    case ExtendedRequest => 23
    case ExtendedResponse => 24
    case IntermediateResponse => 25
  }

  /** Operations that are a single value and not a list of parts. */
  predicate Primitive(op: Operation) { op.UnbindRequest? || op.DeleteRequest? || op.AbandonRequest? }

  /** An application tag, with the bit for constructed values. */
  function TagOf(op: Operation): (tag: Byte)
    ensures tag % 32 == Number(op)
  {
    (64 + (if Primitive(op) then 0 else 32) + Number(op)) as Byte
  }

  /** The parser knows the 21 tags of the operations, and no other one. */
  lemma {:induction false} TagsAreExact(tag: Byte, op: Operation)
    ensures OperationOf(tag) == Some(op) <==> tag == TagOf(op)
  { }

  lemma {:induction false} StandsExactly(tag: Byte, operation: Option<Operation>)
    requires tag % 32 != 31
    ensures OperationOf(tag) == operation <==> Stands(tag, operation)
  {
    hide OperationOf, TagOf;
    forall op: Operation ensures OperationOf(tag) == Some(op) <==> tag == TagOf(op) { TagsAreExact(tag, op); }
    if OperationOf(tag).Some? { TagsAreExact(tag, OperationOf(tag).value); }
  }

  lemma {:induction false} TagFits(tag: Byte, operation: Option<Operation>)
    requires Stands(tag, operation)
    ensures tag % 32 != 31 && OperationOf(tag) == operation
  {
    hide OperationOf;
    StandsExactly(tag, operation);
  }

  /** A length may be written in itself if it is short, or in up to four octets of its own. */
  predicate LengthForm(size: nat, octets: nat)
  {
    if octets == 0 then size < 128 else octets <= 4 && size < Power(octets)
  }

  function Length(size: nat, octets: nat): (b: Bytes)
    requires LengthForm(size, octets)
    ensures |b| == 1 + octets
  {
    if octets == 0 then [size as Byte] else [(128 + octets) as Byte] + Digits(size, octets)
  }

  function Element(tag: Byte, body: Bytes, octets: nat): (b: Bytes)
    requires LengthForm(|body|, octets)
    ensures |b| == 2 + octets + |body|
  {
    [tag] + Length(|body|, octets) + body
  }

  /** How many octets an identifier needs, its sign bit included. */
  function IdSize(id: nat): nat
  {
    if id < 0x80 then 1 else if id < 0x8000 then 2 else if id < 0x80_0000 then 3 else 4
  }

  /** A tag and the operation it stands for: none if it is no operation's. */
  ghost predicate Stands(tag: Byte, operation: Option<Operation>)
  {
    match operation
    case Some(op) => tag == TagOf(op)
    case None => tag % 32 != 31 && forall op: Operation :: tag != TagOf(op)
  }

  /** A message to write; `octets` say how the lengths are written. */
  datatype Pdu = Pdu(
    id: nat, idOctets: nat, tag: Byte, operation: Option<Operation>, body: Bytes, bodyOctets: nat,
    controls: Option<Bytes>, controlsOctets: nat, octets: nat)
  {
    ghost predicate Inner()
    {
      && Stands(tag, operation) && id < 0x8000_0000
      && LengthForm(IdSize(id), idOctets) && LengthForm(|body|, bodyOctets)
      && (controls.Some? ==> LengthForm(|controls.value|, controlsOctets))
    }

    ghost function IdPart(): Bytes
      requires Inner()
    {
      Element(0x02, Digits(id, IdSize(id)), idOctets)
    }

    ghost function OperationPart(): Bytes
      requires Inner()
    {
      Element(tag, body, bodyOctets)
    }

    ghost function ControlsPart(): Bytes
      requires Inner()
    {
      if controls.Some? then Element(0xA0, controls.value, controlsOctets) else []
    }

    ghost function Content(): Bytes
      requires Inner()
    {
      IdPart() + OperationPart() + ControlsPart()
    }

    /** Every message that is no longer than the parser's limit. */
    ghost predicate Writable()
    {
      && Inner() && LengthForm(|Content()|, octets) && 2 + octets + |Content()| <= MAX_PAYLOAD_BYTES
    }

    ghost function Written(): (b: Bytes)
      requires Writable()
      ensures |b| == 2 + octets + |Content()|
    {
      Element(0x30, Content(), octets)
    }

    /** What is to be reported of it at stream position `at`: all of it, even if the operation is unknown. */
    ghost function Report(at: nat): Message
      requires Writable()
    {
      Message(at, if operation.Some? then Complete else Unsupported,
              if operation.Some? then None else Some(UnknownOperation),
              Some(|Written()|), true, Some(id), Some(tag), operation,
              Some(|body|), Some(controls.Some?), if controls.Some? then Some(|controls.value|) else None)
    }
  }

  // ---------------------------------------------------------------- one element

  /** These bytes of the payload are an element. */
  ghost predicate ElementAt(payload: Bytes, position: nat, tag: Byte, body: Bytes, octets: nat)
  {
    && LengthForm(|body|, octets) && position + 2 + octets + |body| <= |payload|
    && payload[position..position + 2 + octets + |body|] == Element(tag, body, octets)
  }

  lemma {:induction false} HeaderIs(payload: Bytes, position: nat, tag: Byte, body: Bytes, octets: nat)
    requires ElementAt(payload, position, tag, body, octets)
    ensures payload[position] == tag
    ensures payload[position + 1] as int == if octets == 0 then |body| else 128 + octets
    ensures octets > 0 ==> payload[position + 2..position + 2 + octets] == Digits(|body|, octets)
  {
    hide Digits, Power;
    var e, end := Element(tag, body, octets), position + 2 + octets + |body|;
    assert payload[position..end] == e;
    assert payload[position] == e[0] && payload[position + 1] == e[1];
    if octets > 0 {
      assert e[2..2 + octets] == Digits(|body|, octets);
      SliceOfSlice(payload, position, end, 2, 2 + octets);
    }
  }

  lemma {:induction false} ElementIsRead(payload: Bytes, position: nat, tag: Byte, body: Bytes, octets: nat,
          boundary: Option<nat>)
    requires ElementAt(payload, position, tag, body, octets) && tag % 32 != 31
    requires boundary.Some? ==> position + 2 + octets + |body| <= boundary.value
    ensures ReadEnvelope(payload, position, |payload|, boundary)
         == Ok(Envelope(tag, position + 2 + octets, position + 2 + octets + |body|))
  {
    hide Digits, BigEndian, Power, Element;
    HeaderIs(payload, position, tag, body, octets);
    if octets > 0 { DigitsRead(|body|, octets); }
  }

  /** An element that was read whole was written so. */
  lemma {:induction false} ReadIsElement(payload: Bytes, position: nat, boundary: Option<nat>) returns (octets: nat)
    requires ReadEnvelope(payload, position, |payload|, boundary).Ok?
    requires ReadEnvelope(payload, position, |payload|, boundary).value.end <= |payload|
    ensures var e := ReadEnvelope(payload, position, |payload|, boundary).value;
            && e.tag % 32 != 31 && e.start == position + 2 + octets
            && ElementAt(payload, position, e.tag, payload[e.start..e.end], octets)
  {
    hide Digits, BigEndian, Power, Element, LengthForm, Length;
    var e := ReadEnvelope(payload, position, |payload|, boundary).value;
    var size := e.end - e.start;
    octets := if payload[position + 1] < 0x80 then 0 else payload[position + 1] % 128;
    HeaderOf(payload, position, octets, size);
    JoinParts(payload, position, octets, e.end);
    ElementOf(e.tag, payload[e.start..e.end], octets);
  }

  lemma {:induction false} HeaderOf(payload: Bytes, position: nat, octets: nat, size: nat)
    requires position + 2 + octets <= |payload| && octets <= 4
    requires if octets == 0 then payload[position + 1] as int == size < 128
             else payload[position + 1] as int == 128 + octets
                  && BigEndian(payload[position + 2..position + 2 + octets]) == size
    ensures LengthForm(size, octets)
    ensures [payload[position + 1]] + payload[position + 2..position + 2 + octets] == Length(size, octets)
  {
    hide Digits, BigEndian, Power;
    DigitsWritten(payload[position + 2..position + 2 + octets]);
  }

  lemma {:induction false} ElementOf(tag: Byte, body: Bytes, octets: nat)
    requires LengthForm(|body|, octets)
    ensures Element(tag, body, octets) == [tag] + (Length(|body|, octets) + body)
  {
    hide Length, LengthForm;
    assert [tag] + Length(|body|, octets) + body == [tag] + (Length(|body|, octets) + body);
  }

  lemma {:induction false} JoinParts(payload: Bytes, position: nat, octets: nat, end: nat)
    requires position + 2 + octets <= end <= |payload|
    ensures payload[position..end]
         == [payload[position]] + (([payload[position + 1]] + payload[position + 2..position + 2 + octets])
                                   + payload[position + 2 + octets..end])
  { }

  // ---------------------------------------------------------------- what is written is read

  lemma {:induction false} IdIsShort(id: nat)
    requires id < 0x8000_0000
    ensures var n, digits := IdSize(id), Digits(id, IdSize(id));
            && id < Power(n) && digits[0] < 128 && !(n > 1 && digits[0] == 0 && digits[1] < 0x80)
  {
    assert Power(1) == 0x100 && Power(2) == 0x1_0000 && Power(3) == 0x100_0000 && Power(4) == 0x1_0000_0000;
    var a, b, c := id / 256, id / 256 / 256, id / 256 / 256 / 256;
    assert Digits(id, 1) == [id % 256] && Digits(id, 2) == [a % 256] + [id % 256];
    assert Digits(a, 2) == [b % 256] + [a % 256] && Digits(b, 2) == [c % 256] + [b % 256];
    assert Digits(id, 3) == Digits(a, 2) + [id % 256];
    assert Digits(a, 3) == Digits(b, 2) + [a % 256] && Digits(id, 4) == Digits(a, 3) + [id % 256];
  }

  lemma {:induction false} ControlsAreRead(m: Message, view: Bytes, position: nat, end: nat, controls: Bytes,
          octets: nat)
    requires ElementAt(view, position, 0xA0, controls, octets) && end == position + 2 + octets + |controls|
    requires m.status == Complete
    ensures ParseControls(m, view, |view|, position, end)
         == m.(controlsPresent := Some(true), controlsLength := Some(|controls|))
  {
    hide ReadEnvelope;
    assert view[position] == Element(0xA0, controls, octets)[0];
    ElementIsRead(view, position, 0xA0, controls, octets, Some(end));
  }

  /** The fields a message gets from its operation and its controls. */
  function Filled(m: Message, p: Pdu): Message
  {
    m.(status := if p.operation.Some? then Complete else Unsupported,
       reason := if p.operation.Some? then m.reason else Some(UnknownOperation),
       operationTag := Some(p.tag), operation := p.operation, operationLength := Some(|p.body|),
       controlsPresent := Some(p.controls.Some?),
       controlsLength := if p.controls.Some? then Some(|p.controls.value|) else None)
  }

  lemma {:induction false} OperationIsRead(m: Message, view: Bytes, position: nat, end: nat, p: Pdu)
    requires p.Inner() && ElementAt(view, position, p.tag, p.body, p.bodyOctets)
    requires var next := position + |p.OperationPart()|;
             && next + |p.ControlsPart()| == end <= |view|
             && (p.controls.Some? ==> ElementAt(view, next, 0xA0, p.controls.value, p.controlsOctets))
    requires m.status == Complete && m.controlsLength.None?
    ensures ParseOperation(m, view, |view|, position, end) == Filled(m, p)
  {
    hide ReadEnvelope, ParseControls, ParseOperation, OperationOf, Stands, Element, LengthForm;
    var next := position + |p.OperationPart()|;
    TagFits(p.tag, p.operation);
    HeaderIs(view, position, p.tag, p.body, p.bodyOctets);
    PartSizes(p);
    ElementIsRead(view, position, p.tag, p.body, p.bodyOctets, Some(end));
    var m2 := m.(operationTag := Some(p.tag), operation := p.operation, operationLength := Some(|p.body|),
                 controlsPresent := if next == end then Some(false) else None);
    if p.controls.Some? { ControlsAreRead(m2, view, next, end, p.controls.value, p.controlsOctets); }
    hide ElementAt;
    BodyRead(m, m2, view, position, end, next);
  }

  lemma {:induction false} PartSizes(p: Pdu)
    requires p.Inner()
    ensures |p.OperationPart()| == 2 + p.bodyOctets + |p.body|
    ensures |p.ControlsPart()| == if p.controls.Some? then 2 + p.controlsOctets + |p.controls.value| else 0
  {
    hide Stands;
  }

  /** An operation whose element was read: what is left are its controls and whether it is known. */
  lemma {:induction false} BodyRead(m: Message, m2: Message, view: Bytes, position: nat, end: nat, next: nat)
    requires position < |view| && next <= end <= |view| && m.status == Complete
    requires var e := ReadEnvelope(view, position, |view|, Some(end));
             && e.Ok? && e.value.end == next && e.value.start <= next
             && m2 == m.(operationTag := Some(view[position]), operation := OperationOf(view[position]),
                         operationLength := Some(next - e.value.start),
                         controlsPresent := if next == end then Some(false) else None)
    ensures var m3 := if next < end then ParseControls(m2, view, |view|, next, end) else m2;
            ParseOperation(m, view, |view|, position, end)
            == if m3.status == Complete && m3.operation.None? then Fail(m3, Failure(Unsupported, UnknownOperation))
              else m3
  {
    hide ReadEnvelope, ParseControls, OperationOf;
    EnvelopeStarts(view, position, Some(end));
  }

  lemma {:induction false} EnvelopeStarts(view: Bytes, position: nat, boundary: Option<nat>)
    ensures var e := ReadEnvelope(view, position, |view|, boundary);
            e.Ok? && boundary.Some? ==> position + 2 <= boundary.value
  { }

  lemma {:induction false} IdIsRead(m: Message, view: Bytes, position: nat, end: nat, p: Pdu)
    requires p.Inner() && ElementAt(view, position, 0x02, Digits(p.id, IdSize(p.id)), p.idOctets)
    requires var next := position + |p.IdPart()|;
             && ElementAt(view, next, p.tag, p.body, p.bodyOctets)
             && next + |p.OperationPart()| + |p.ControlsPart()| == end <= |view|
             && (p.controls.Some? ==>
                   ElementAt(view, next + |p.OperationPart()|, 0xA0, p.controls.value, p.controlsOctets))
    requires m.status == Complete && m.controlsLength.None?
    ensures ParseId(m, view, |view|, position, end) == Filled(m.(messageId := Some(p.id)), p)
  {
    hide ReadEnvelope, ParseOperation, Digits, Stands, Element, Filled;
    var digits, n := Digits(p.id, IdSize(p.id)), IdSize(p.id);
    IdIsShort(p.id);
    DigitsRead(p.id, n);
    ElementIsRead(view, position, 0x02, digits, p.idOctets, Some(end));
    BodyIs(view, position, 0x02, digits, p.idOctets);
    OperationIsRead(m.(messageId := Some(p.id)), view, position + |p.IdPart()|, end, p);
  }

  lemma {:induction false} BodyIs(view: Bytes, position: nat, tag: Byte, body: Bytes, octets: nat)
    requires ElementAt(view, position, tag, body, octets)
    ensures view[position + 2 + octets..position + 2 + octets + |body|] == body
  {
    hide Length;
    SliceOfSlice(view, position, position + 2 + octets + |body|, 2 + octets, 2 + octets + |body|);
    assert Element(tag, body, octets)[2 + octets..] == body;
  }

  lemma {:induction false} Pieces(view: Bytes, head: Bytes, a: Bytes, b: Bytes, c: Bytes, rest: Bytes)
    requires view == head + (a + b + c) + rest
    ensures view[|head|..|head| + |a|] == a
    ensures view[|head| + |a|..|head| + |a| + |b|] == b
    ensures view[|head| + |a| + |b|..|head| + |a| + |b| + |c|] == c
  { }

  /** Where the parts of a written message lie. */
  lemma {:induction false} PartsAre(p: Pdu, rest: Bytes)
    requires p.Writable()
    ensures var view, first := p.Written() + rest, 2 + p.octets;
            var second := first + |p.IdPart()|;
            var third := second + |p.OperationPart()|;
            && ElementAt(view, 0, 0x30, p.Content(), p.octets)
            && ElementAt(view, first, 0x02, Digits(p.id, IdSize(p.id)), p.idOctets)
            && ElementAt(view, second, p.tag, p.body, p.bodyOctets)
            && (p.controls.Some? ==> ElementAt(view, third, 0xA0, p.controls.value, p.controlsOctets))
            && third + |p.ControlsPart()| == |p.Written()|
  {
    hide Digits, Length, Stands, IdSize, Power, LengthForm;
    var view, head := p.Written() + rest, [0x30 as Byte] + Length(|p.Content()|, p.octets);
    assert view == head + p.Content() + rest by { hide Pdu.Content; }
    assert p.Content() == p.IdPart() + p.OperationPart() + p.ControlsPart();
    hide Element, Pdu.Content;
    Pieces(view, head, p.IdPart(), p.OperationPart(), p.ControlsPart(), rest);
    assert view[..|p.Written()|] == p.Written();
  }

  /**
   * Every message in the limit, however its lengths are written and whatever follows
   * it, is COMPLETE if its operation is known and UNSUPPORTED if not, and the fields
   * reported are the ones it was written from.
   */
  lemma {:induction false} MessageRoundTrip(p: Pdu, rest: Bytes, at: nat)
    requires p.Writable()
    ensures Parse(p.Written() + rest, at) == p.Report(at)
  {
    hide ReadEnvelope, ParseId, ElementAt, Digits, Length, Stands;
    var view := p.Written() + rest;
    PartsAre(p, rest);
    ElementIsRead(view, 0, 0x30, p.Content(), p.octets, None);
    assert view[0] == 0x30;
    var m := Headed(at, |p.Written()|, true);
    IdIsRead(m, view, 2 + p.octets, |p.Written()|, p);
  }

  /** While a message is still arriving it is INCOMPLETE: nothing is refused too early. */
  lemma {:induction false} ArrivingIsIncomplete(p: Pdu, n: nat, at: nat)
    requires p.Writable() && n < |p.Written()|
    ensures Parse(p.Written()[..n], at).status == Incomplete && !Parse(p.Written()[..n], at).envelopeComplete
  {
    hide Parse, Pdu.Written;
    var view, whole := p.Written()[..n], p.Written();
    MessageRoundTrip(p, [], at);
    assert whole + [] == whole;
    if Parse(view, at).status != Incomplete {
      VerdictIsStable(view, whole, at);
      ReportIs(p, at);
      if p.operation.Some? { CompleteVerdict(view, at); } else { UnknownIsWhole(view, at); }
      CompleteIsDecided(view, at);
    }
    if Parse(view, at).envelopeComplete { CompleteIsDecided(view, at); }
  }

  lemma {:induction false} ReportIs(p: Pdu, at: nat)
    requires p.Writable()
    ensures var r := p.Report(at);
            && r.messageLength == Some(|p.Written()|)
            && (if p.operation.Some? then r.status == Complete
                else r.status == Unsupported && r.reason == Some(UnknownOperation))
  { }

  /** That an operation is unknown is only said of a message that is there as a whole. */
  lemma {:induction false} UnknownIsWhole(view: Bytes, at: nat)
    requires Parse(view, at).reason == Some(UnknownOperation)
    ensures Parse(view, at).envelopeComplete
  {
    hide ReadEnvelope, ParseId;
    ReadFaults(view, 0, None);
    var outer := ReadEnvelope(view, 0, |view|, None);
    var m := Headed(at, outer.value.end, outer.value.end <= |view|);
    UnknownId(m, view, outer.value.start, outer.value.end);
    IdKeepsHead(m, view, outer.value.start, outer.value.end);
  }

  lemma {:induction false} ReadFaults(view: Bytes, position: nat, boundary: Option<nat>)
    ensures var r := ReadEnvelope(view, position, |view|, boundary); r.Err? ==> r.error.reason != UnknownOperation
  { }

  lemma {:induction false} UnknownId(m: Message, view: Bytes, position: nat, end: nat)
    requires m.status == Complete && m.reason.None?
    requires ParseId(m, view, |view|, position, end).reason == Some(UnknownOperation)
    ensures end <= |view|
  {
    hide ReadEnvelope, ParseOperation;
    ReadFaults(view, position, Some(end));
    var id := ReadEnvelope(view, position, |view|, Some(end));
    UnknownTag(m.(messageId := Some(BigEndian(view[id.value.start..id.value.end]))), view, id.value.end, end);
  }

  lemma {:induction false} UnknownTag(m: Message, view: Bytes, position: nat, end: nat)
    requires m.status == Complete && m.reason.None?
    requires ParseOperation(m, view, |view|, position, end).reason == Some(UnknownOperation)
    ensures end <= |view|
  {
    hide ReadEnvelope, ParseControls, OperationOf;
    ReadFaults(view, position, Some(end));
    var body := ReadEnvelope(view, position, |view|, Some(end)).value;
    var m2 := m.(operationTag := Some(view[position]), operation := OperationOf(view[position]),
                 operationLength := Some(body.end - body.start),
                 controlsPresent := if body.end == end then Some(false) else None);
    ControlsComplete(m2, view, body.end, end);
    ControlsFaults(m2, view, body.end, end);
  }

  lemma {:induction false} ControlsFaults(m: Message, view: Bytes, position: nat, end: nat)
    requires m.reason.None?
    ensures ParseControls(m, view, |view|, position, end).reason != Some(UnknownOperation)
  {
    hide ReadEnvelope;
    ReadFaults(view, position, Some(end));
  }

  // ---------------------------------------------------------------- what is accepted was written

  lemma {:induction false} ControlsWereWritten(m: Message, view: Bytes, position: nat, end: nat)
    returns (controls: Bytes, octets: nat)
    requires ParseControls(m, view, |view|, position, end).status == Complete && m.status == Complete
    ensures end <= |view| && ElementAt(view, position, 0xA0, controls, octets)
            && end == position + 2 + octets + |controls|
  {
    hide ReadEnvelope, Element;
    var e := ReadEnvelope(view, position, |view|, Some(end)).value;
    octets := ReadIsElement(view, position, Some(end));
    controls := view[e.start..e.end];
  }

  /** An operation and its controls were written at this place. */
  ghost predicate OperationAt(view: Bytes, position: nat, end: nat, p: Pdu)
  {
    && p.Inner() && ElementAt(view, position, p.tag, p.body, p.bodyOctets)
    && position + |p.OperationPart()| + |p.ControlsPart()| == end
    && (p.controls.Some? ==>
          ElementAt(view, position + |p.OperationPart()|, 0xA0, p.controls.value, p.controlsOctets))
  }

  lemma {:induction false} OperationWasWritten(m: Message, view: Bytes, position: nat, end: nat, id: nat,
          idOctets: nat) returns (p: Pdu)
    requires ParseOperation(m, view, |view|, position, end).status == Complete && m.status == Complete
    requires id < 0x8000_0000 && LengthForm(IdSize(id), idOctets)
    ensures end <= |view| && OperationAt(view, position, end, p) && p.id == id && p.idOctets == idOctets
            && p.operation.Some?
  {
    hide ReadEnvelope, Element, ParseControls, OperationOf, Stands, IdSize, LengthForm;
    var body := ReadEnvelope(view, position, |view|, Some(end)).value;
    var octets := ReadIsElement(view, position, Some(end));
    ReadKeepsTag(view, position, Some(end));
    var size := body.end - body.start;
    var m2 := m.(operationTag := Some(view[position]), operation := OperationOf(view[position]),
                 operationLength := Some(size), controlsPresent := if body.end == end then Some(false) else None);
    ControlsComplete(m2, view, body.end, end);
    StandsExactly(body.tag, OperationOf(body.tag));
    p := Pdu(id, idOctets, body.tag, OperationOf(body.tag), view[body.start..body.end], octets, None, 0, 0);
    if body.end < end {
      var controls, controlsOctets := ControlsWereWritten(m2, view, body.end, end);
      p := p.(controls := Some(controls), controlsOctets := controlsOctets);
      ElementFits(view, body.end, 0xA0, controls, controlsOctets);
    }
    ElementFits(view, position, p.tag, p.body, octets);
  }

  lemma {:induction false} ReadKeepsTag(view: Bytes, position: nat, boundary: Option<nat>)
    requires ReadEnvelope(view, position, |view|, boundary).Ok?
    ensures position < |view| && ReadEnvelope(view, position, |view|, boundary).value.tag == view[position]
  { }

  lemma {:induction false} ElementFits(view: Bytes, position: nat, tag: Byte, body: Bytes, octets: nat)
    requires ElementAt(view, position, tag, body, octets)
    ensures LengthForm(|body|, octets) && |Element(tag, body, octets)| == 2 + octets + |body|
  { }

  /** An identifier in its shortest octets is the one that is read from them. */
  lemma {:induction false} ShortestIsUnique(digits: Bytes)
    requires 1 <= |digits| <= 4 && digits[0] < 128 && !(|digits| > 1 && digits[0] == 0 && digits[1] < 0x80)
    ensures var id := BigEndian(digits);
            id < 0x8000_0000 && IdSize(id) == |digits| && Digits(id, IdSize(id)) == digits
  {
    DigitsWritten(digits);
    var n, a := |digits|, digits[..|digits| - 1];
    assert BigEndian(digits) == BigEndian(a) * 256 + digits[n - 1];
    if n > 1 {
      var b := a[..n - 2];
      assert BigEndian(a) == BigEndian(b) * 256 + digits[n - 2];
      if n > 2 {
        var c := b[..n - 3];
        assert BigEndian(b) == BigEndian(c) * 256 + digits[n - 3];
        if n > 3 { assert BigEndian(c) == BigEndian(c[..0]) * 256 + digits[0]; }
      }
    }
  }

  lemma {:induction false} IdWasWritten(m: Message, view: Bytes, position: nat, end: nat) returns (p: Pdu)
    requires ParseId(m, view, |view|, position, end).status == Complete && m.status == Complete
    ensures end <= |view| && p.Inner() && ElementAt(view, position, 0x02, Digits(p.id, IdSize(p.id)), p.idOctets)
    ensures p.operation.Some?
    ensures OperationAt(view, position + |p.IdPart()|, end, p)
  {
    hide ReadEnvelope, Element, ParseOperation, Digits, IdSize, OperationAt;
    var e := ReadEnvelope(view, position, |view|, Some(end)).value;
    var idOctets := ReadIsElement(view, position, Some(end));
    var digits := view[e.start..e.end];
    ShortestIsUnique(digits);
    var id := BigEndian(digits);
    ElementFits(view, position, 0x02, digits, idOctets);
    p := OperationWasWritten(m.(messageId := Some(id)), view, e.end, end, id, idOctets);
    OperationIsInner(view, e.end, end, p);
  }

  lemma {:induction false} OperationIsInner(view: Bytes, position: nat, end: nat, p: Pdu)
    requires OperationAt(view, position, end, p)
    ensures p.Inner() && |p.IdPart()| == 2 + p.idOctets + IdSize(p.id)
  {
    hide IdSize;
  }

  /**
   * A message is COMPLETE if and only if the bytes begin with one of a known operation
   * that was written, and then its fields are those of that one.
   */
  lemma {:induction false} CompleteExactly(view: Bytes, at: nat)
    ensures Parse(view, at).status == Complete
       <==> exists p: Pdu :: p.Writable() && p.operation.Some? && p.Written() <= view
    ensures forall p: Pdu :: p.Writable() && p.Written() <= view ==> Parse(view, at) == p.Report(at)
  {
    hide Parse, Pdu.Written, Pdu.Writable, Pdu.Report;
    forall p: Pdu | p.Writable() && p.Written() <= view ensures Parse(view, at) == p.Report(at) {
      assert view == p.Written() + view[|p.Written()|..];
      MessageRoundTrip(p, view[|p.Written()|..], at);
    }
    forall p: Pdu | p.Writable() && p.operation.Some? ensures p.Report(at).status == Complete { ReportIs(p, at); }
    if Parse(view, at).status == Complete { var p := CompleteWasWritten(view, at); }
  }

  lemma {:induction false} CompleteWasWritten(view: Bytes, at: nat) returns (p: Pdu)
    requires Parse(view, at).status == Complete
    ensures p.Writable() && p.operation.Some? && p.Written() <= view
  {
    hide ReadEnvelope, ParseId, Element, Pdu.Content, OperationAt, Stands;
    var outer := ReadEnvelope(view, 0, |view|, None).value;
    var end := outer.end;
    var q := IdWasWritten(Headed(at, end, end <= |view|), view, outer.start, end);
    var octets := ReadIsElement(view, 0, None);
    ReadKeepsTag(view, 0, None);
    ContentIs(view, outer.start, end, q);
    p := q.(octets := octets);
    assert p.Content() == q.Content() by { SameContent(p, q); }
    ElementFits(view, 0, 0x30, q.Content(), octets);
    BodyIs(view, 0, 0x30, q.Content(), octets);
    assert ElementAt(view, 0, 0x30, q.Content(), octets);
  }

  lemma {:induction false} SameContent(p: Pdu, q: Pdu)
    requires q.Inner() && p == q.(octets := p.octets)
    ensures p.Inner() && p.Content() == q.Content()
  { }

  lemma {:induction false} ContentIs(view: Bytes, start: nat, end: nat, p: Pdu)
    requires start <= end <= |view| && p.Inner()
    requires ElementAt(view, start, 0x02, Digits(p.id, IdSize(p.id)), p.idOctets)
    requires OperationAt(view, start + |p.IdPart()|, end, p)
    ensures view[start..end] == p.Content()
  {
    hide Digits, IdSize, Stands, Element;
    var second := start + |p.IdPart()|;
    var third := second + |p.OperationPart()|;
    assert view[start..second] == p.IdPart() && view[second..third] == p.OperationPart();
    assert view[third..end] == p.ControlsPart();
    hide Pdu.IdPart, Pdu.OperationPart, Pdu.ControlsPart, ElementAt, OperationAt, Pdu.Inner;
    ThreeParts(view, start, second, third, end);
  }

  lemma {:induction false} ThreeParts(view: Bytes, a: nat, b: nat, c: nat, d: nat)
    requires a <= b <= c <= d <= |view|
    ensures view[a..d] == view[a..b] + view[b..c] + view[c..d]
  { }

  // ---------------------------------------------------------------- what is refused, and how

  /**
   * The first two bytes: anything but a sequence is MALFORMED, and so is the reserved
   * length 255; an indefinite length and one of more than four octets are UNSUPPORTED.
   */
  lemma {:induction false} BadBeginnings(view: Bytes, at: nat)
    requires |view| >= 2
    ensures var m := Parse(view, at);
            && (view[0] != 48 || view[1] == 255 ==> m.status == Malformed && m.messageLength.None?)
            && (view[0] == 48 && (view[1] == 128 || 132 < view[1] < 255) ==>
                  m.status == Unsupported && m.messageLength.None?)
            && (m.messageLength.None? ==> !m.envelopeComplete)
  {
    hide ParseId, BigEndian;
    var outer := ReadEnvelope(view, 0, |view|, None);
    if outer.Ok? {
      var end := outer.value.end;
      IdKeepsHead(Headed(at, end, end <= |view|), view, outer.value.start, end);
    }
  }

  /** A message that declares more than 65536 bytes is UNSUPPORTED as soon as its length is there. */
  lemma {:induction false} TooLong(size: nat, octets: nat, rest: Bytes, at: nat)
    requires LengthForm(size, octets) && 2 + octets + size > 65536
    ensures var m := Parse([48] + Length(size, octets) + rest, at);
            m.status == Unsupported && m.messageLength == Some(2 + octets + size)
  {
    hide Digits, BigEndian, Power;
    var view := [48] + Length(size, octets) + rest;
    assert octets > 0;
    assert view[1] == 128 + octets;
    assert view[2..2 + octets] == Digits(size, octets);
    DigitsRead(size, octets);
    LongRead(view, octets, size);
    hide ReadEnvelope;
  }

  lemma {:induction false} LongRead(view: Bytes, octets: nat, size: nat)
    requires 1 <= octets <= 4 && |view| >= 2 + octets && view[0] == 48 && view[1] as int == 128 + octets
    requires BigEndian(view[2..2 + octets]) == size
    ensures ReadEnvelope(view, 0, |view|, None) == Ok(Envelope(48, 2 + octets, 2 + octets + size))
  {
    hide BigEndian;
  }

  /** A message that does not begin with an identifier in its shortest form is MALFORMED. */
  lemma {:induction false} BadIdentifiers(tag: Byte, digits: Bytes, idOctets: nat, more: Bytes, octets: nat,
          rest: Bytes, at: nat)
    requires LengthForm(|digits|, idOctets) && tag % 32 != 31
    requires var content := Element(tag, digits, idOctets) + more;
             LengthForm(|content|, octets) && 2 + octets + |content| <= 65536
    requires tag != 2 || !(1 <= |digits| <= 4) || digits[0] >= 128
             || (|digits| > 1 && digits[0] == 0 && digits[1] < 128)
    ensures var content := Element(tag, digits, idOctets) + more;
            var m := Parse(Element(48, content, octets) + rest, at);
            && m.status == Malformed && m.messageId.None? && m.messageLength == Some(2 + octets + |content|)
            && m.envelopeComplete
  {
    hide ReadEnvelope, Element, LengthForm, BigEndian;
    var content := Element(tag, digits, idOctets) + more;
    var view, end := Element(48, content, octets) + rest, 2 + octets + |content|;
    WholeElementAt(48, content, octets, rest);
    ElementIsRead(view, 0, 48, content, octets, None);
    HeaderIs(view, 0, 48, content, octets);
    InnerElementAt(view, 48, content, octets, tag, digits, idOctets, more);
    ElementIsRead(view, 2 + octets, tag, digits, idOctets, Some(end));
    BodyIs(view, 2 + octets, tag, digits, idOctets);
    hide ElementAt;
    IdRefused(Headed(at, end, true), view, 2 + octets, end, tag, digits, 2 + octets + 2 + idOctets);
    hide ParseId;
  }

  lemma {:induction false} IdRefused(m: Message, view: Bytes, position: nat, end: nat, tag: Byte, digits: Bytes,
          start: nat)
    requires start + |digits| <= end <= |view| && view[start..start + |digits|] == digits
    requires ReadEnvelope(view, position, |view|, Some(end)) == Ok(Envelope(tag, start, start + |digits|))
    requires tag != 2 || !(1 <= |digits| <= 4) || digits[0] >= 128
             || (|digits| > 1 && digits[0] == 0 && digits[1] < 128)
    ensures var r := ParseId(m, view, |view|, position, end);
            && r.status == Malformed && r.messageId == m.messageId && r.messageLength == m.messageLength
            && r.envelopeComplete == m.envelopeComplete
  {
    hide ReadEnvelope, BigEndian, ParseOperation;
  }

  lemma {:induction false} WholeElementAt(tag: Byte, body: Bytes, octets: nat, rest: Bytes)
    requires LengthForm(|body|, octets)
    ensures ElementAt(Element(tag, body, octets) + rest, 0, tag, body, octets)
  {
    hide Element;
    var e := Element(tag, body, octets);
    assert (e + rest)[0..|e|] == e by { assert (e + rest)[..|e|] == e; }
    ElementSize(tag, body, octets);
  }

  lemma {:induction false} ElementSize(tag: Byte, body: Bytes, octets: nat)
    requires LengthForm(|body|, octets)
    ensures |Element(tag, body, octets)| == 2 + octets + |body|
  { }

  lemma {:induction false} InnerElementAt(view: Bytes, tag: Byte, content: Bytes, octets: nat, inner: Byte, body: Bytes,
          innerOctets: nat, more: Bytes)
    requires ElementAt(view, 0, tag, content, octets) && LengthForm(|body|, innerOctets)
    requires content == Element(inner, body, innerOctets) + more
    ensures ElementAt(view, 2 + octets, inner, body, innerOctets)
  {
    hide Element, LengthForm;
    ElementSize(inner, body, innerOctets);
    BodyIs(view, 0, tag, content, octets);
    var from, n := 2 + octets, |Element(inner, body, innerOctets)|;
    SliceOfSlice(view, from, from + |content|, 0, n);
    assert content[0..n] == Element(inner, body, innerOctets);
  }

  /** An element that declares more than is left of the one around it. */
  ghost predicate OverrunAt(view: Bytes, position: nat, tag: Byte, size: nat, octets: nat, end: nat)
  {
    && LengthForm(size, octets) && tag % 32 != 31 && position + 2 + octets <= end <= |view|
    && view[position..position + 2 + octets] == [tag] + Length(size, octets) && position + 2 + octets + size > end
  }

  lemma {:induction false} OverrunIsRefused(view: Bytes, position: nat, tag: Byte, size: nat, octets: nat, end: nat)
    requires OverrunAt(view, position, tag, size, octets, end)
    ensures ReadEnvelope(view, position, |view|, Some(end)) == Err(Failure(Malformed, DeclaredExceedsParent))
  {
    hide Digits, BigEndian, Power;
    var head := [tag] + Length(size, octets);
    assert view[position..position + 2 + octets] == head;
    assert view[position] == head[0] && view[position + 1] == head[1];
    if octets > 0 {
      SliceOfSlice(view, position, position + 2 + octets, 2, 2 + octets);
      assert head[2..2 + octets] == Digits(size, octets);
      DigitsRead(size, octets);
    }
  }

  /** A message whose identifier was written well, up to that point. */
  ghost predicate IdAt(view: Bytes, octets: nat, content: Bytes, id: nat, idOctets: nat, more: Bytes)
  {
    && id < 0x8000_0000 && LengthForm(IdSize(id), idOctets)
    && content == Element(0x02, Digits(id, IdSize(id)), idOctets) + more
    && LengthForm(|content|, octets) && 2 + octets + |content| <= MAX_PAYLOAD_BYTES
    && Element(0x30, content, octets) <= view
  }

  lemma {:induction false} IdStands(view: Bytes, octets: nat, content: Bytes, id: nat, idOctets: nat, more: Bytes)
    requires IdAt(view, octets, content, id, idOctets, more)
    ensures var end, next := 2 + octets + |content|, 2 + octets + 2 + idOctets + IdSize(id);
            && ElementAt(view, 0, 0x30, content, octets)
            && ElementAt(view, 2 + octets, 0x02, Digits(id, IdSize(id)), idOctets)
            && next + |more| == end <= |view| && view[next..end] == more
  {
    hide Digits, Element, LengthForm, IdSize;
    var digits, end, rest := Digits(id, IdSize(id)), 2 + octets + |content|, view[|Element(0x30, content, octets)|..];
    assert view == Element(0x30, content, octets) + rest;
    WholeElementAt(0x30, content, octets, rest);
    BodyIs(view, 0, 0x30, content, octets);
    hide ElementAt;
    ElementFits(view, 0, 0x30, content, octets);
    PartAt(view, 2 + octets, end, content, 0x02, digits, idOctets, more);
  }

  lemma {:induction false} OuterPasses(view: Bytes, at: nat, content: Bytes, octets: nat)
    requires ElementAt(view, 0, 0x30, content, octets) && 2 + octets + |content| <= MAX_PAYLOAD_BYTES
    ensures var end := 2 + octets + |content|;
            end <= |view| && Parse(view, at) == ParseId(Headed(at, end, true), view, |view|, 2 + octets, end)
  {
    hide ReadEnvelope, ParseId, Element, LengthForm;
    ElementIsRead(view, 0, 0x30, content, octets, None);
    HeaderIs(view, 0, 0x30, content, octets);
  }

  /** Such a message is judged by what follows the identifier. */
  lemma {:induction false} IdPasses(view: Bytes, at: nat, octets: nat, content: Bytes, id: nat, idOctets: nat,
          more: Bytes)
    requires IdAt(view, octets, content, id, idOctets, more)
    ensures var end, next := 2 + octets + |content|, 2 + octets + 2 + idOctets + IdSize(id);
            && next + |more| == end <= |view| && view[next..end] == more
            && Parse(view, at) == ParseOperation(Headed(at, end, true).(messageId := Some(id)), view, |view|, next, end)
  {
    hide ReadEnvelope, Digits, Element, ElementAt, ParseOperation, ParseId, LengthForm, IdSize, Parse;
    var end := 2 + octets + |content|;
    IdStands(view, octets, content, id, idOctets, more);
    OuterPasses(view, at, content, octets);
    ElementIsRead(view, 2 + octets, 0x02, Digits(id, IdSize(id)), idOctets, Some(end));
    BodyIs(view, 2 + octets, 0x02, Digits(id, IdSize(id)), idOctets);
    IdAccepted(Headed(at, end, true), view, 2 + octets, end, id, 2 + octets + 2 + idOctets);
  }

  lemma {:induction false} IdAccepted(m: Message, view: Bytes, position: nat, end: nat, id: nat, start: nat)
    requires id < 0x8000_0000 && start + IdSize(id) <= end <= |view|
    requires view[start..start + IdSize(id)] == Digits(id, IdSize(id))
    requires ReadEnvelope(view, position, |view|, Some(end)) == Ok(Envelope(0x02, start, start + IdSize(id)))
    ensures ParseId(m, view, |view|, position, end)
         == ParseOperation(m.(messageId := Some(id)), view, |view|, start + IdSize(id), end)
  {
    hide ReadEnvelope, Digits, ParseOperation, BigEndian, Power;
    IdIsShort(id);
    DigitsRead(id, IdSize(id));
  }

  /** An operation that declares more than is left of its message is MALFORMED, its identifier reported. */
  lemma {:induction false} OperationTooLong(view: Bytes, at: nat, octets: nat, content: Bytes, id: nat, idOctets: nat,
          more: Bytes, tag: Byte, size: nat, bodyOctets: nat)
    requires IdAt(view, octets, content, id, idOctets, more)
    requires LengthForm(size, bodyOctets) && tag % 32 != 31 && [tag] + Length(size, bodyOctets) <= more
    requires 2 + bodyOctets + size > |more|
    ensures Parse(view, at).status == Malformed && Parse(view, at).messageId == Some(id)
            && Parse(view, at).operationLength.None?
  {
    hide Digits, BigEndian, Power, Length, Element, IdAt, IdSize, LengthForm, Parse, ParseOperation, ReadEnvelope;
    var end, next := 2 + octets + |content|, 2 + octets + 2 + idOctets + IdSize(id);
    IdPasses(view, at, octets, content, id, idOctets, more);
    SliceOfSlice(view, next, end, 0, 2 + bodyOctets);
    assert more[0..2 + bodyOctets] == [tag] + Length(size, bodyOctets);
    OverrunIsRefused(view, next, tag, size, bodyOctets, end);
    OperationRefused(Headed(at, end, true).(messageId := Some(id)), view, next, end,
                     Failure(Malformed, DeclaredExceedsParent));
  }

  lemma {:induction false} OperationRefused(m: Message, view: Bytes, position: nat, end: nat, f: Failure)
    requires position < end <= |view| && ReadEnvelope(view, position, |view|, Some(end)) == Err(f)
    ensures var r := ParseOperation(m, view, |view|, position, end);
            r.status == f.status && r.messageId == m.messageId && r.operationLength == m.operationLength
  {
    hide ReadEnvelope, OperationOf;
  }

  /**
   * Behind the operation there may be controls and nothing else: any other component,
   * and anything behind the controls, is UNSUPPORTED, the operation reported.
   */
  lemma {:induction false} BadTrailers(view: Bytes, at: nat, octets: nat, content: Bytes, id: nat, idOctets: nat,
          tag: Byte, body: Bytes, bodyOctets: nat, trailer: Bytes)
    requires LengthForm(|body|, bodyOctets) && tag % 32 != 31 && trailer != []
    requires IdAt(view, octets, content, id, idOctets, Element(tag, body, bodyOctets) + trailer)
    requires trailer[0] != 0xA0
             || exists controls, n, extra :: LengthForm(|controls|, n) && extra != []
                                             && trailer == Element(0xA0, controls, n) + extra
    ensures var m := Parse(view, at);
            && m.status == Unsupported && m.envelopeComplete && m.messageLength == Some(2 + octets + |content|)
            && m.messageId == Some(id) && m.operationTag == Some(tag) && m.operationLength == Some(|body|)
  {
    hide ReadEnvelope, Digits, Element, ParseOperation, ParseControls, LengthForm, IdSize, OperationOf, IdAt;
    var more := Element(tag, body, bodyOctets) + trailer;
    var end, next := 2 + octets + |content|, 2 + octets + 2 + idOctets + IdSize(id);
    IdPasses(view, at, octets, content, id, idOctets, more);
    ElementSize(tag, body, bodyOctets);
    PartAt(view, next, end, more, tag, body, bodyOctets, trailer);
    HeaderIs(view, next, tag, body, bodyOctets);
    ElementIsRead(view, next, tag, body, bodyOctets, Some(end));
    var m := Headed(at, end, true).(messageId := Some(id));
    var after := next + 2 + bodyOctets + |body|;
    var m2 := m.(operationTag := Some(tag), operation := OperationOf(tag), operationLength := Some(|body|),
                 controlsPresent := None);
    BodyRead(m, m2, view, next, end, after);
    TrailerRefused(m2, view, after, end, trailer);
    hide ElementAt, Parse;
  }

  lemma {:induction false} PartAt(view: Bytes, position: nat, end: nat, more: Bytes, tag: Byte, body: Bytes,
          octets: nat, rest: Bytes)
    requires position <= end <= |view| && view[position..end] == more && LengthForm(|body|, octets)
    requires more == Element(tag, body, octets) + rest
    ensures ElementAt(view, position, tag, body, octets)
    ensures var after := position + 2 + octets + |body|; after <= end && view[after..end] == rest
  {
    hide Element, LengthForm;
    ElementSize(tag, body, octets);
    var n := 2 + octets + |body|;
    SliceOfSlice(view, position, end, 0, n);
    SliceOfSlice(view, position, end, n, |more|);
    assert more[0..n] == Element(tag, body, octets) && more[n..|more|] == rest;
  }

  lemma {:induction false} TrailerRefused(m: Message, view: Bytes, position: nat, end: nat, trailer: Bytes)
    requires position <= end <= |view| && view[position..end] == trailer && trailer != []
    requires trailer[0] != 0xA0
             || exists controls, n, extra :: LengthForm(|controls|, n) && extra != []
                                             && trailer == Element(0xA0, controls, n) + extra
    ensures var r := ParseControls(m, view, |view|, position, end);
            && r.status == Unsupported
            && r == m.(status := r.status, reason := r.reason, controlsPresent := r.controlsPresent,
                       controlsLength := r.controlsLength)
  {
    hide ReadEnvelope, Element, LengthForm;
    assert view[position] == trailer[0];
    if trailer[0] == 0xA0 {
      var controls, n, extra :| LengthForm(|controls|, n) && extra != []
                                && trailer == Element(0xA0, controls, n) + extra;
      PartAt(view, position, end, trailer, 0xA0, controls, n, extra);
      ElementIsRead(view, position, 0xA0, controls, n, Some(end));
    }
  }

  /**
   * A message whose length is known and within the limit has this length from then on,
   * and is not whole before its last byte is there.
   */
  lemma {:induction false} LengthIsKnown(content: Bytes, octets: nat, n: nat, at: nat)
    requires LengthForm(|content|, octets) && 2 + octets <= n < 2 + octets + |content| <= MAX_PAYLOAD_BYTES
    ensures |Element(0x30, content, octets)| == 2 + octets + |content|
    ensures var m := Parse(Element(0x30, content, octets)[..n], at);
            !m.envelopeComplete && m.messageLength == Some(2 + octets + |content|)
  {
    hide Digits, BigEndian, Power, ParseId;
    var whole := Element(0x30, content, octets);
    var view := whole[..n];
    ElementSize(0x30, content, octets);
    WholeElementAt(0x30, content, octets, []);
    assert whole + [] == whole;
    ElementIsRead(whole, 0, 0x30, content, octets, None);
    HeaderIs(whole, 0, 0x30, content, octets);
    EnvelopeIsStable(view, whole, 0, None);
    HeaderSuffices(view, octets);
    hide ReadEnvelope;
    var end := 2 + octets + |content|;
    IdKeepsHead(Headed(at, end, false), view, 2 + octets, end);
  }

  lemma {:induction false} HeaderSuffices(view: Bytes, octets: nat)
    requires 2 + octets <= |view| && view[0] == 0x30
    requires if octets == 0 then view[1] < 128 else view[1] as int == 128 + octets
    ensures var r := ReadEnvelope(view, 0, |view|, None); !(r.Err? && r.error.status == Incomplete)
  {
    hide BigEndian;
  }
}
