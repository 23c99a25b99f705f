/**
 * The bounded BER envelope parser for one LDAPMessage (section 4.1.1 of
 * RFC 4511), and what its verdict owes to bytes that have not arrived yet.
 */
module Ldap {
  import opened Common

  const MAX_PAYLOAD_BYTES := 65536

  datatype Status = Complete | Incomplete | Malformed | Unsupported

  datatype Reason =
    | ExceedsParent | BytesUnavailable | HighTagNumber | ReservedLength | IndefiniteLength | LengthTooLong
    | DeclaredExceedsParent | NotASequence | OverByteLimit | NoMessageId | IdLength | IdEncoding
    | TrailingComponent | TrailingAfterControls | UnknownOperation

  datatype Operation =
    | BindRequest | BindResponse | UnbindRequest | SearchRequest | SearchResultEntry | SearchResultDone
    | ModifyRequest | ModifyResponse | AddRequest | AddResponse | DeleteRequest | DeleteResponse
    | ModifyDnRequest | ModifyDnResponse | CompareRequest | CompareResponse | AbandonRequest
    | SearchResultReference | ExtendedRequest | ExtendedResponse | IntermediateResponse

  function OperationOf(tag: Byte): Option<Operation>
  {
    match tag
    case 0x60 => Some(BindRequest)
    case 0x61 => Some(BindResponse)
    case 0x42 => Some(UnbindRequest)
    case 0x63 => Some(SearchRequest)
    case 0x64 => Some(SearchResultEntry)
    case 0x65 => Some(SearchResultDone)
    case 0x66 => Some(ModifyRequest)
    case 0x67 => Some(ModifyResponse)
    case 0x68 => Some(AddRequest)
    case 0x69 => Some(AddResponse)
    case 0x4A => Some(DeleteRequest)
    case 0x6B => Some(DeleteResponse)
    case 0x6C => Some(ModifyDnRequest)
    case 0x6D => Some(ModifyDnResponse)
    case 0x6E => Some(CompareRequest)
    case 0x6F => Some(CompareResponse)
    case 0x50 => Some(AbandonRequest)
    case 0x73 => Some(SearchResultReference)
    case 0x77 => Some(ExtendedRequest)
    case 0x78 => Some(ExtendedResponse)
    case 0x79 => Some(IntermediateResponse)
    case _ => None
  }

  datatype Message = Message(
    offset: nat, status: Status, reason: Option<Reason>, messageLength: Option<nat>, envelopeComplete: bool,
    messageId: Option<nat>, operationTag: Option<Byte>, operation: Option<Operation>, operationLength: Option<nat>,
    controlsPresent: Option<bool>, controlsLength: Option<nat>)

  datatype Failure = Failure(status: Status, reason: Reason)

  datatype Envelope = Envelope(tag: Byte, start: nat, end: nat)

  /** `_require_bytes`: running past the parent is wrong, running past the input is only early. */
  function RequireBytes(position: nat, count: nat, available: nat, boundary: Option<nat>): Option<Failure>
  {
    if boundary.Some? && position + count > boundary.value then Some(Failure(Malformed, ExceedsParent))
    else if position + count > available then Some(Failure(Incomplete, BytesUnavailable))
    else None
  }

  /** The length octets after `first`, up to four of them. */
  function LongLength(payload: Bytes, position: nat, available: nat, boundary: Option<nat>,
          count: nat): (r: Result<(nat, nat), Failure>)
    requires available <= |payload|
    ensures r.Ok? ==> r.value.0 == position + 2 + count <= available
    ensures r.Err? ==> r.error.status != Complete
  {
    if count > 4 then Err(Failure(Unsupported, LengthTooLong))
    else
      var short := RequireBytes(position + 2, count, available, boundary);
      if short.Some? then Err(short.value)
      else Ok((position + 2 + count, BigEndian(payload[position + 2..position + 2 + count])))
  }

  /** `_envelope`: a tag and a length in definite form. */
  function ReadEnvelope(payload: Bytes, position: nat, available: nat,
          boundary: Option<nat>): (r: Result<Envelope, Failure>)
    requires available <= |payload|
    ensures r.Ok? ==> position + 2 <= r.value.start <= r.value.end && r.value.start <= available
                      && r.value.tag == payload[position]
    ensures r.Ok? && boundary.Some? ==> r.value.end <= boundary.value
    ensures r.Err? ==> r.error.status != Complete
  {
    var short := RequireBytes(position, 1, available, boundary);
    if short.Some? then Err(short.value) else
    var tag := payload[position];
    if tag % 32 == 31 then Err(Failure(Unsupported, HighTagNumber)) else
    var short' := RequireBytes(position + 1, 1, available, boundary);
    if short'.Some? then Err(short'.value) else
    var first := payload[position + 1];
    if first == 0xFF then Err(Failure(Malformed, ReservedLength))
    else if first == 0x80 then Err(Failure(Unsupported, IndefiniteLength))
    else
      var length := if first < 0x80 then Ok((position + 2, first as nat))
                    else LongLength(payload, position, available, boundary, first % 128);
      if length.Err? then Err(length.error) else
      var (start, size) := length.value;
      if boundary.Some? && start + size > boundary.value then Err(Failure(Malformed, DeclaredExceedsParent))
      else Ok(Envelope(tag, start, start + size))
  }

  function Fail(m: Message, f: Failure): Message { m.(status := f.status, reason := Some(f.reason)) }

  /** The part after the operation: optional controls and nothing else. */
  function ParseControls(m: Message, payload: Bytes, available: nat, operationEnd: nat, end: nat): Message
    requires available <= |payload|
  {
    var short := RequireBytes(operationEnd, 1, available, Some(end));
    if short.Some? then Fail(m, short.value) else
    if payload[operationEnd] != 0xA0 then Fail(m, Failure(Unsupported, TrailingComponent)) else
    var m1 := m.(controlsPresent := Some(true));
    var controls := ReadEnvelope(payload, operationEnd, available, Some(end));
    if controls.Err? then Fail(m1, controls.error) else
    var size := controls.value.end - controls.value.start;
    var m2 := m1.(controlsLength := Some(size));
    var short' := RequireBytes(controls.value.start, size, available, Some(end));
    if short'.Some? then Fail(m2, short'.value)
    else if controls.value.end != end then Fail(m2, Failure(Unsupported, TrailingAfterControls))
    else m2
  }

  function ParseOperation(m: Message, payload: Bytes, available: nat, position: nat, end: nat): Message
    requires available <= |payload|
  {
    var short := RequireBytes(position, 1, available, Some(end));
    if short.Some? then Fail(m, short.value) else
    var m1 := m.(operationTag := Some(payload[position]), operation := OperationOf(payload[position]));
    var body := ReadEnvelope(payload, position, available, Some(end));
    if body.Err? then Fail(m1, body.error) else
    var size := body.value.end - body.value.start;
    var m2 := m1.(operationLength := Some(size),
                  controlsPresent := if body.value.end == end then Some(false) else None);
    var short' := RequireBytes(body.value.start, size, available, Some(end));
    if short'.Some? then Fail(m2, short'.value) else
    var m3 := if body.value.end < end then ParseControls(m2, payload, available, body.value.end, end) else m2;
    if m3.status == Complete && m3.operation.None? then Fail(m3, Failure(Unsupported, UnknownOperation)) else m3
  }

  function ParseId(m: Message, payload: Bytes, available: nat, position: nat, end: nat): Message
    requires available <= |payload|
  {
    var id := ReadEnvelope(payload, position, available, Some(end));
    if id.Err? then Fail(m, id.error) else
    if id.value.tag != 0x02 then Fail(m, Failure(Malformed, NoMessageId)) else
    var start, size := id.value.start, id.value.end - id.value.start;
    if !(1 <= size <= 4) then Fail(m, Failure(Malformed, IdLength)) else
    var short := RequireBytes(start, size, available, Some(end));
    if short.Some? then Fail(m, short.value) else
    var digits := payload[start..start + size];
    if digits[0] >= 128 || (size > 1 && digits[0] == 0 && digits[1] < 0x80)
       then Fail(m, Failure(Malformed, IdEncoding)) else
    ParseOperation(m.(messageId := Some(BigEndian(digits))), payload, available, id.value.end, end)
  }

  /** `_message`: the message that starts at `offset`, judged on the first `available` bytes. */
  function MessageAt(payload: Bytes, offset: nat, available: nat, base: nat): (m: Message)
    requires available <= |payload|
  {
    var m := Message(base + offset, Complete, None, None, false, None, None, None, None, None, None);
    var short := RequireBytes(offset, 1, available, None);
    if short.Some? then Fail(m, short.value) else
    if payload[offset] != 0x30 then Fail(m, Failure(Malformed, NotASequence)) else
    var outer := ReadEnvelope(payload, offset, available, None);
    if outer.Err? then Fail(m, outer.error) else
    var end := outer.value.end;
    var m1 := m.(messageLength := Some(end - offset), envelopeComplete := end <= available);
    if end - offset > MAX_PAYLOAD_BYTES then Fail(m1, Failure(Unsupported, OverByteLimit)) else
    ParseId(m1, payload, available, outer.value.start, end)
  }

  // ---------------------------------------------------------------- where the message lies does not matter

  function Shift(boundary: Option<nat>, k: nat): Option<nat>
    requires boundary.Some? ==> k <= boundary.value
  {
    if boundary.Some? then Some(boundary.value - k) else None
  }

  lemma {:induction false} LengthShifts(payload: Bytes, k: nat, position: nat, available: nat, boundary: Option<nat>,
          count: nat)
    requires available <= |payload| && k <= position && k <= available && (boundary.Some? ==> k <= boundary.value)
    ensures var there := LongLength(payload, position, available, boundary, count);
            var here := LongLength(payload[k..available], position - k, available - k, Shift(boundary, k), count);
            && (there.Err? ==> here == there)
            && (there.Ok? ==> here == Ok((there.value.0 - k, there.value.1)))
  {
    if position + 2 + count <= available {
      SliceOfSlice(payload, k, available, position + 2 - k, position + 2 + count - k);
    }
  }

  lemma {:induction false} EnvelopeShifts(payload: Bytes, k: nat, position: nat, available: nat, boundary: Option<nat>)
    requires available <= |payload| && k <= position && k <= available && (boundary.Some? ==> k <= boundary.value)
    ensures var there := ReadEnvelope(payload, position, available, boundary);
            var here := ReadEnvelope(payload[k..available], position - k, available - k, Shift(boundary, k));
            && (there.Err? ==> here == there)
            && (there.Ok? ==> here == Ok(Envelope(there.value.tag, there.value.start - k, there.value.end - k)))
  {
    hide LongLength;
    if position + 1 < available {
      LengthShifts(payload, k, position, available, boundary, payload[position + 1] % 128);
    }
  }

  lemma {:induction false} ControlsShift(m: Message, payload: Bytes, k: nat, available: nat, operationEnd: nat,
          end: nat)
    requires available <= |payload| && k <= available && k <= operationEnd && k <= end
    ensures ParseControls(m, payload, available, operationEnd, end)
         == ParseControls(m, payload[k..available], available - k, operationEnd - k, end - k)
  {
    hide ReadEnvelope;
    EnvelopeShifts(payload, k, operationEnd, available, Some(end));
  }

  lemma {:induction false} OperationShifts(m: Message, payload: Bytes, k: nat, available: nat, position: nat, end: nat)
    requires available <= |payload| && k <= available && k <= position && k <= end
    ensures ParseOperation(m, payload, available, position, end)
         == ParseOperation(m, payload[k..available], available - k, position - k, end - k)
  {
    hide ReadEnvelope, ParseControls;
    EnvelopeShifts(payload, k, position, available, Some(end));
    forall m': Message, operationEnd: nat | k <= operationEnd
      ensures ParseControls(m', payload, available, operationEnd, end)
           == ParseControls(m', payload[k..available], available - k, operationEnd - k, end - k)
    {
      ControlsShift(m', payload, k, available, operationEnd, end);
    }
  }

  lemma {:induction false} IdShifts(m: Message, payload: Bytes, k: nat, available: nat, position: nat, end: nat)
    requires available <= |payload| && k <= available && k <= position && k <= end
    ensures ParseId(m, payload, available, position, end)
         == ParseId(m, payload[k..available], available - k, position - k, end - k)
  {
    hide ReadEnvelope, ParseOperation;
    EnvelopeShifts(payload, k, position, available, Some(end));
    var id := ReadEnvelope(payload, position, available, Some(end));
    if id.Ok? {
      if id.value.end <= available { SliceOfSlice(payload, k, available, id.value.start - k, id.value.end - k); }
      forall m': Message ensures ParseOperation(m', payload, available, id.value.end, end)
                     == ParseOperation(m', payload[k..available], available - k, id.value.end - k, end - k)
      {
        OperationShifts(m', payload, k, available, id.value.end, end);
      }
    }
  }

  /** A message depends only on the bytes from its own start on. */
  function Parse(view: Bytes, at: nat): Message { MessageAt(view, 0, |view|, at) }

  lemma {:induction false} MessageShifts(payload: Bytes, offset: nat, available: nat, base: nat)
    requires offset <= available <= |payload|
    ensures MessageAt(payload, offset, available, base) == Parse(payload[offset..available], base + offset)
  {
    hide ReadEnvelope, ParseId;
    EnvelopeShifts(payload, offset, offset, available, None);
    var outer := ReadEnvelope(payload, offset, available, None);
    if outer.Ok? {
      var m := Message(base + offset, Complete, None, Some(outer.value.end - offset), outer.value.end <= available,
                       None, None, None, None, None, None);
      IdShifts(m, payload, offset, available, outer.value.start, outer.value.end);
    }
  }

  // ---------------------------------------------------------------- more bytes

  lemma {:induction false} LengthIsStable(view: Bytes, more: Bytes, position: nat, boundary: Option<nat>, count: nat)
    requires view <= more
    ensures var early := LongLength(view, position, |view|, boundary, count);
            (early.Err? && early.error.status == Incomplete)
              || LongLength(more, position, |more|, boundary, count) == early
  {
    if position + 2 + count <= |view| {
      assert view[position + 2..position + 2 + count] == more[position + 2..position + 2 + count];
    }
  }

  lemma {:induction false} EnvelopeIsStable(view: Bytes, more: Bytes, position: nat, boundary: Option<nat>)
    requires view <= more
    ensures var early := ReadEnvelope(view, position, |view|, boundary);
            (early.Err? && early.error.status == Incomplete) || ReadEnvelope(more, position, |more|, boundary) == early
  {
    hide LongLength;
    if position + 1 < |view| { LengthIsStable(view, more, position, boundary, view[position + 1] % 128); }
  }

  lemma {:induction false} ControlsAreStable(m: Message, view: Bytes, more: Bytes, operationEnd: nat, end: nat)
    requires view <= more
    ensures var early := ParseControls(m, view, |view|, operationEnd, end);
            early.status == Incomplete || ParseControls(m, more, |more|, operationEnd, end) == early
  {
    hide ReadEnvelope;
    EnvelopeIsStable(view, more, operationEnd, Some(end));
  }

  lemma {:induction false} OperationIsStable(m: Message, view: Bytes, more: Bytes, position: nat, end: nat)
    requires view <= more
    ensures var early := ParseOperation(m, view, |view|, position, end);
            early.status == Incomplete || ParseOperation(m, more, |more|, position, end) == early
  {
    hide ReadEnvelope, ParseControls;
    EnvelopeIsStable(view, more, position, Some(end));
    forall m': Message, operationEnd: nat
      ensures var early := ParseControls(m', view, |view|, operationEnd, end);
              early.status == Incomplete || ParseControls(m', more, |more|, operationEnd, end) == early
    {
      ControlsAreStable(m', view, more, operationEnd, end);
    }
  }

  lemma {:induction false} IdIsStable(m: Message, view: Bytes, more: Bytes, position: nat, end: nat)
    requires view <= more
    ensures var early := ParseId(m, view, |view|, position, end);
            early.status == Incomplete || ParseId(m, more, |more|, position, end) == early
  {
    hide ReadEnvelope, ParseOperation;
    EnvelopeIsStable(view, more, position, Some(end));
    var id := ReadEnvelope(view, position, |view|, Some(end));
    if id.Ok? {
      if id.value.end <= |view| { assert view[id.value.start..id.value.end] == more[id.value.start..id.value.end]; }
      forall m': Message ensures var early := ParseOperation(m', view, |view|, id.value.end, end);
                        early.status == Incomplete || ParseOperation(m', more, |more|, id.value.end, end) == early
      {
        OperationIsStable(m', view, more, id.value.end, end);
      }
    }
  }

  /** The same message judged again, but for the flag that says whether all of its envelope is here. */
  function Reflag(m: Message, available: nat): Message
  {
    m.(envelopeComplete := m.messageLength.Some? && m.messageLength.value <= available)
  }

  /** Any verdict other than INCOMPLETE stands, whatever bytes are added. */
  lemma {:induction false} VerdictIsStable(view: Bytes, more: Bytes, at: nat)
    requires view <= more && Parse(view, at).status != Incomplete
    ensures Parse(more, at) == Reflag(Parse(view, at), |more|)
    ensures Parse(view, at) == Reflag(Parse(view, at), |view|)
  {
    hide ReadEnvelope, ParseId;
    EnvelopeIsStable(view, more, 0, None);
    var outer := ReadEnvelope(view, 0, |view|, None);
    if outer.Ok? {
      var end := outer.value.end;
      var m, m' := Headed(at, end, end <= |view|), Headed(at, end, end <= |more|);
      IdIsStable(m, view, more, outer.value.start, end);
      IdKeepsHead(m, view, outer.value.start, end);
      IdIgnoresFlag(m, m', more, outer.value.start, end);
    }
  }

  /** A message of which only the outer envelope is known. */
  function Headed(at: nat, length: nat, complete: bool): Message
  {
    Message(at, Complete, None, Some(length), complete, None, None, None, None, None, None)
  }

  lemma {:induction false} ControlsKeepHead(m: Message, view: Bytes, position: nat, end: nat)
    ensures var r := ParseControls(m, view, |view|, position, end);
            r.messageLength == m.messageLength && r.envelopeComplete == m.envelopeComplete && r.offset == m.offset
  { }

  lemma {:induction false} IdKeepsHead(m: Message, view: Bytes, position: nat, end: nat)
    ensures var r := ParseId(m, view, |view|, position, end);
            r.messageLength == m.messageLength && r.envelopeComplete == m.envelopeComplete && r.offset == m.offset
  {
    hide ReadEnvelope, ParseControls;
    forall m': Message, p: nat ensures var r := ParseControls(m', view, |view|, p, end);
                              r.messageLength == m'.messageLength && r.envelopeComplete == m'.envelopeComplete
                                && r.offset == m'.offset
    {
      ControlsKeepHead(m', view, p, end);
    }
  }

  lemma {:induction false} ControlsIgnoreFlag(m: Message, m': Message, view: Bytes, position: nat, end: nat)
    requires m' == m.(envelopeComplete := m'.envelopeComplete)
    ensures ParseControls(m', view, |view|, position, end)
         == ParseControls(m, view, |view|, position, end).(envelopeComplete := m'.envelopeComplete)
  { }

  lemma {:induction false} OperationIgnoresFlag(m: Message, m': Message, view: Bytes, position: nat, end: nat)
    requires m' == m.(envelopeComplete := m'.envelopeComplete)
    ensures ParseOperation(m', view, |view|, position, end)
         == ParseOperation(m, view, |view|, position, end).(envelopeComplete := m'.envelopeComplete)
  {
    hide ReadEnvelope, ParseControls;
    if position < |view| {
      var body := ReadEnvelope(view, position, |view|, Some(end));
      if body.Ok? {
        var m2 := m.(operationTag := Some(view[position]), operation := OperationOf(view[position]),
                     operationLength := Some(body.value.end - body.value.start),
                     controlsPresent := if body.value.end == end then Some(false) else None);
        ControlsIgnoreFlag(m2, m2.(envelopeComplete := m'.envelopeComplete), view, body.value.end, end);
      }
    }
  }

  lemma {:induction false} IdIgnoresFlag(m: Message, m': Message, view: Bytes, position: nat, end: nat)
    requires m' == m.(envelopeComplete := m'.envelopeComplete)
    ensures ParseId(m', view, |view|, position, end)
         == ParseId(m, view, |view|, position, end).(envelopeComplete := m'.envelopeComplete)
  {
    hide ReadEnvelope, ParseOperation;
    var id := ReadEnvelope(view, position, |view|, Some(end));
    if id.Ok? && id.value.start < id.value.end <= |view| {
      var n := m.(messageId := Some(BigEndian(view[id.value.start..id.value.end])));
      OperationIgnoresFlag(n, n.(envelopeComplete := m'.envelopeComplete), view, id.value.end, end);
    }
  }

  /** Inside a complete envelope nothing can be missing. */
  lemma {:induction false} CompleteIsDecided(view: Bytes, at: nat)
    requires Parse(view, at).envelopeComplete
    ensures Parse(view, at).status != Incomplete
    ensures Parse(view, at).messageLength.Some? && 2 <= Parse(view, at).messageLength.value <= |view|
  {
    hide ReadEnvelope, ParseId;
    var outer := ReadEnvelope(view, 0, |view|, None);
    if outer.Ok? {
      var m := Headed(at, outer.value.end, outer.value.end <= |view|);
      IdKeepsHead(m, view, outer.value.start, outer.value.end);
      if outer.value.end <= |view| { IdIsDecided(m, view, outer.value.start, outer.value.end); }
    }
  }

  lemma {:induction false} EnvelopeIsDecided(view: Bytes, position: nat, end: nat)
    requires end <= |view|
    ensures var r := ReadEnvelope(view, position, |view|, Some(end)); r.Err? ==> r.error.status != Incomplete
  { }

  lemma {:induction false} ControlsAreDecided(m: Message, view: Bytes, position: nat, end: nat)
    requires end <= |view| && m.status == Complete
    ensures ParseControls(m, view, |view|, position, end).status != Incomplete
  {
    hide ReadEnvelope;
    EnvelopeIsDecided(view, position, end);
  }

  lemma {:induction false} OperationIsDecided(m: Message, view: Bytes, position: nat, end: nat)
    requires end <= |view| && m.status == Complete
    ensures ParseOperation(m, view, |view|, position, end).status != Incomplete
  {
    hide ReadEnvelope, ParseControls;
    EnvelopeIsDecided(view, position, end);
    forall m': Message, p: nat | m'.status == Complete
      ensures ParseControls(m', view, |view|, p, end).status != Incomplete
    {
      ControlsAreDecided(m', view, p, end);
    }
  }

  lemma {:induction false} IdIsDecided(m: Message, view: Bytes, position: nat, end: nat)
    requires end <= |view| && m.status == Complete
    ensures ParseId(m, view, |view|, position, end).status != Incomplete
  {
    hide ReadEnvelope, ParseOperation;
    EnvelopeIsDecided(view, position, end);
    forall m': Message, p: nat | m'.status == Complete
      ensures ParseOperation(m', view, |view|, p, end).status != Incomplete
    {
      OperationIsDecided(m', view, p, end);
    }
  }

  lemma {:induction false} ControlsComplete(m: Message, view: Bytes, position: nat, end: nat)
    ensures var r := ParseControls(m, view, |view|, position, end);
            m.status != Complete || r.status != Complete || end <= |view|
    ensures ParseControls(m, view, |view|, position, end).operation == m.operation
    ensures ParseControls(m, view, |view|, position, end).messageId == m.messageId
    ensures ParseControls(m, view, |view|, position, end).controlsPresent in {m.controlsPresent, Some(true)}
  {
    hide ReadEnvelope;
  }

  lemma {:induction false} OperationComplete(m: Message, view: Bytes, position: nat, end: nat)
    requires m.status == Complete && ParseOperation(m, view, |view|, position, end).status == Complete
    ensures end <= |view|
    ensures var r := ParseOperation(m, view, |view|, position, end); r.operation.Some? && r.messageId == m.messageId
  {
    hide ReadEnvelope, ParseControls;
    forall m': Message, p: nat
      ensures var r := ParseControls(m', view, |view|, p, end);
              && ((r.status == Complete ==> end <= |view|) || m'.status != Complete)
              && r.operation == m'.operation && r.messageId == m'.messageId
    {
      ControlsComplete(m', view, p, end);
    }
  }

  lemma {:induction false} IdComplete(m: Message, view: Bytes, position: nat, end: nat)
    requires m.status == Complete && ParseId(m, view, |view|, position, end).status == Complete
    ensures end <= |view|
    ensures var r := ParseId(m, view, |view|, position, end); r.operation.Some? && r.messageId.Some?
  {
    hide ReadEnvelope, ParseOperation;
    var id := ReadEnvelope(view, position, |view|, Some(end));
    var n := m.(messageId := Some(BigEndian(view[id.value.start..id.value.end])));
    OperationComplete(n, view, id.value.end, end);
  }

  /** A COMPLETE verdict means the whole envelope is here and both the identifier and the operation are known. */
  lemma {:induction false} CompleteVerdict(view: Bytes, at: nat)
    requires Parse(view, at).status == Complete
    ensures Parse(view, at).envelopeComplete && Parse(view, at).operation.Some? && Parse(view, at).messageId.Some?
  {
    hide ReadEnvelope, ParseId;
    var outer := ReadEnvelope(view, 0, |view|, None);
    var m := Headed(at, outer.value.end, outer.value.end <= |view|);
    IdComplete(m, view, outer.value.start, outer.value.end);
    IdKeepsHead(m, view, outer.value.start, outer.value.end);
  }

  predicate Waits(m: Message) { m.status == Incomplete && m.operationLength.Some? && m.controlsPresent == Some(false) }

  lemma {:induction false} OperationWaits(m: Message, view: Bytes, more: Bytes, position: nat, end: nat)
    requires view <= more && |more| < end
    requires m.status == Complete && m.controlsPresent.None? && m.operationLength.None?
    requires Waits(ParseOperation(m, view, |view|, position, end))
    ensures ParseOperation(m, more, |more|, position, end) == ParseOperation(m, view, |view|, position, end)
  {
    hide ReadEnvelope, ParseControls;
    EnvelopeIsStable(view, more, position, Some(end));
    forall m': Message, p: nat
      ensures ParseControls(m', view, |view|, p, end).controlsPresent in {m'.controlsPresent, Some(true)}
    {
      ControlsComplete(m', view, p, end);
    }
  }

  lemma {:induction false} IdWaits(m: Message, view: Bytes, more: Bytes, position: nat, end: nat)
    requires view <= more && |more| < end
    requires m.status == Complete && m.controlsPresent.None? && m.operationLength.None?
    requires Waits(ParseId(m, view, |view|, position, end))
    ensures ParseId(m, more, |more|, position, end) == ParseId(m, view, |view|, position, end)
  {
    hide ReadEnvelope, ParseOperation;
    EnvelopeIsStable(view, more, position, Some(end));
    var id := ReadEnvelope(view, position, |view|, Some(end));
    assert view[id.value.start..id.value.end] == more[id.value.start..id.value.end];
    OperationWaits(m.(messageId := Some(BigEndian(view[id.value.start..id.value.end]))), view, more, id.value.end, end);
  }

  /** The operation ends with the message and only its bytes are missing: nothing changes until the last one arrives. */
  lemma {:induction false} WaitingIsIdle(view: Bytes, more: Bytes, at: nat)
    requires view <= more && Waits(Parse(view, at))
    requires Parse(view, at).messageLength.Some? && |more| < Parse(view, at).messageLength.value
    ensures Parse(more, at) == Parse(view, at)
  {
    hide ReadEnvelope, ParseId;
    EnvelopeIsStable(view, more, 0, None);
    var outer := ReadEnvelope(view, 0, |view|, None);
    var m := Headed(at, outer.value.end, outer.value.end <= |view|);
    IdKeepsHead(m, view, outer.value.start, outer.value.end);
    IdWaits(m, view, more, outer.value.start, outer.value.end);
  }
}
