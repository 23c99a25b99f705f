/**
 * LDAP messages over one direction of a TCP connection. Unconsumed bytes are
 * parsed again from the last message boundary; two shortcuts skip parses whose
 * outcome is known.
 */
module LdapStream {
  import opened Common
  import L = Ldap
  import T = TcpStream
  import opened StreamRefinement

  datatype StreamStatus = Ready | Incomplete | Malformed | Unsupported | Unavailable

  datatype Observation = Observation(
    stream: T.Stream, messages: seq<L.Message>, pending: Option<L.Message>, status: StreamStatus,
    completeCount: nat, unsupportedCount: nat, malformedCount: nat)

  datatype FramingError = LostObservation | Discontinuous

  predicate Settled(status: StreamStatus) { status == Malformed || status == Unsupported || status == Unavailable }

  // ---------------------------------------------------------------- the meaning of a byte stream

  /** The messages at the front of some bytes, and how the bytes after them look. */
  datatype Scanned = Scanned(messages: seq<L.Message>, pending: Option<L.Message>, status: StreamStatus, used: nat)

  /** No message reaches further than the byte limit. */
  function Window(view: Bytes): (r: Bytes)
    ensures |r| <= L.MAX_PAYLOAD_BYTES && r <= view
    ensures |view| <= L.MAX_PAYLOAD_BYTES ==> r == view
  {
    if |view| <= L.MAX_PAYLOAD_BYTES then view else view[..L.MAX_PAYLOAD_BYTES]
  }

  /** How a message that is not complete, and not malformed, leaves the stream. */
  function PendingStatus(m: L.Message): StreamStatus
  {
    if m.status == L.Incomplete || (m.messageLength.Some? && m.messageLength.value <= L.MAX_PAYLOAD_BYTES)
       then Incomplete
    else Unsupported
  }

  /** Bytes from stream position `at` on, cut into messages until one is not there. */
  ghost function Scan(view: Bytes, at: nat): (r: Scanned)
    ensures r.used <= |view|
    decreases |view|
  {
    if view == [] then Scanned([], None, Ready, 0)
    else
      var m := L.Parse(Window(view), at);
      if m.status == L.Malformed then Scanned([], Some(m), Malformed, 0)
      else if m.envelopeComplete then
        L.CompleteIsDecided(Window(view), at);
        var length := m.messageLength.value;
        var rest := Scan(view[length..], at + length);
        rest.(messages := [m] + rest.messages, used := length + rest.used)
      else Scanned([], Some(m), PendingStatus(m), 0)
  }

  /** How the first message decides a scan. */
  lemma {:induction false} ScanCases(view: Bytes, at: nat)
    requires view != []
    ensures var m := L.Parse(Window(view), at);
            if m.status == L.Malformed then Scan(view, at) == Scanned([], Some(m), Malformed, 0)
            else if m.envelopeComplete then
              && m.messageLength.Some? && 2 <= m.messageLength.value <= |Window(view)|
              && (var rest := Scan(view[m.messageLength.value..], at + m.messageLength.value);
                  Scan(view, at) == rest.(messages := [m] + rest.messages, used := m.messageLength.value + rest.used))
            else Scan(view, at) == Scanned([], Some(m), PendingStatus(m), 0)
  {
    hide L.Parse, Window;
    if L.Parse(Window(view), at).envelopeComplete { L.CompleteIsDecided(Window(view), at); }
  }

  /** Messages with one status. */
  ghost function Count(messages: seq<L.Message>, complete: bool): nat
  {
    if messages == [] then 0
    else Count(messages[..|messages| - 1], complete)
         + if (messages[|messages| - 1].status == L.Complete) == complete then 1 else 0
  }

  // ---------------------------------------------------------------- one direction

  /** What a direction makes of its stream, every unconsumed byte parsed again. */
  ghost function FrameSpec(current: Option<Observation>, stream: T.Stream): (r: Option<Observation>)
    requires stream.Valid()
  {
    if current.None? && (stream.payload == [] || stream.payload[0] != 0x30) then None
    else
      var o := if current.Some? then current.value.(stream := stream, messages := [])
               else Observation(stream, [], None, Ready, 0, 0, 0);
      if !stream.Readable() then Some(o.(status := Unavailable))
      else if Settled(o.status) then Some(o)
      else
        var s := Scan(stream.Unconsumed(), stream.ConsumedOffset());
        Some(Observation(
          stream.(consumed := stream.consumed + s.used), s.messages, s.pending, s.status,
          o.completeCount + Count(s.messages, true),
          o.unsupportedCount + Count(s.messages, false) + (if s.status == Unsupported then 1 else 0),
          o.malformedCount + if s.status == Malformed then 1 else 0))
  }

  /** An unsettled observation is the parse of what it left unconsumed, and the stream only adds bytes to that. */
  ghost predicate Continues(current: Observation, stream: T.Stream)
  {
    && current.stream.Valid() && stream.Valid() && |stream.payload| <= L.MAX_PAYLOAD_BYTES
    && (!Settled(current.status) && stream.Readable() && stream.ConsumedOffset() == current.stream.ConsumedOffset() ==>
          && current.stream.Unconsumed() <= stream.Unconsumed()
          && Scan(current.stream.Unconsumed(), current.stream.ConsumedOffset())
             == Scanned([], current.pending, current.status, 0))
  }

  /** The outcome of parsing again is known to be the pending message itself. */
  predicate Waiting(pending: Option<L.Message>, unconsumed: nat)
  {
    && pending.Some? && pending.value.messageLength.Some?
    && (pending.value.status == L.Unsupported
        || (pending.value.operationLength.Some? && pending.value.controlsPresent == Some(false)))
    && unconsumed < pending.value.messageLength.value
  }

  /** A pending message that waits parses to itself as long as it is too short. */
  lemma {:induction false} WaitingScansTheSame(view: Bytes, more: Bytes, at: nat, pending: Option<L.Message>,
          status: StreamStatus)
    requires view <= more && |more| <= L.MAX_PAYLOAD_BYTES
    requires Scan(view, at) == Scanned([], pending, status, 0) && !Settled(status)
    requires Waiting(pending, |more|)
    ensures Scan(more, at) == Scan(view, at)
  {
    var m := L.Parse(view, at);
    if m.status == L.Unsupported {
      L.VerdictIsStable(view, more, at);
    } else {
      if m.status == L.Complete { L.CompleteVerdict(view, at); }
      L.WaitingIsIdle(view, more, at);
    }
  }

  /**
   * `_frame_direction`: the `unchanged` and `waiting` shortcuts never show.
   */
  method FrameDirection(current: Option<Observation>, stream: Option<T.Stream>)
    returns (r: Result<Option<Observation>, FramingError>)
    requires current.Some? && stream.Some? ==> Continues(current.value, stream.value)
    requires stream.Some? ==> stream.value.Valid() && |stream.value.payload| <= L.MAX_PAYLOAD_BYTES
    ensures stream.None? ==> r == if current.Some? then Err(LostObservation) else Ok(None)
    ensures stream.Some? ==>
              if current.Some? && stream.value.ConsumedOffset() != current.value.stream.ConsumedOffset()
                 then r == Err(Discontinuous)
              else r == Ok(FrameSpec(current, stream.value))
  {
    hide Scan, Continues, Waiting;
    if stream.None? {
      if current.Some? { return Err(LostObservation); }
      return Ok(None);
    }
    var s := stream.value;
    if current.None? && (s.payload == [] || s.payload[0] != 0x30) { return Ok(None); }
    if current.Some? && s.ConsumedOffset() != current.value.stream.ConsumedOffset() { return Err(Discontinuous); }
    var values := Observation(s, [], None, Ready, 0, 0, 0);
    if current.Some? {
      values := current.value;
      values := values.(stream := s, messages := []);
    }
    if !s.Readable() {
      values := values.(status := Unavailable);
    } else if !Settled(values.status) {
      var nothingNew := current.Some?
        && |s.payload| + s.bufferOffset == |current.value.stream.payload| + current.value.stream.bufferOffset;
      var waiting := Waiting(values.pending, |s.payload| - s.consumed);
      if !nothingNew && !waiting {
        values := ScanStep(values);
      } else {
        SkippedScan(current, s, nothingNew);
      }
    }
    r := Ok(Some(values));
  }

  /** Skipping leaves what scanning would have found. */
  lemma {:induction false} SkippedScan(current: Option<Observation>, s: T.Stream, nothingNew: bool)
    requires s.Valid() && s.Readable() && |s.payload| <= L.MAX_PAYLOAD_BYTES
    requires current.Some? ==> Continues(current.value, s)
                               && s.ConsumedOffset() == current.value.stream.ConsumedOffset()
                               && !Settled(current.value.status)
    requires nothingNew ==> (current.Some?
               && |s.payload| + s.bufferOffset == |current.value.stream.payload| + current.value.stream.bufferOffset)
    requires nothingNew || Waiting(if current.Some? then current.value.pending else None, |s.payload| - s.consumed)
    ensures current.Some? && FrameSpec(current, s) == Some(current.value.(stream := s, messages := []))
  {
    hide Scan;
    var view, more := current.value.stream.Unconsumed(), s.Unconsumed();
    CountNothing();
    if nothingNew {
      assert |view| == |more|;
      assert view == more;
    } else {
      WaitingScansTheSame(view, more, s.ConsumedOffset(), current.value.pending, current.value.status);
    }
  }

  /** `messages` and a scan from `offset` on make up the scan of everything unconsumed. */
  ghost predicate ScannedTo(stream: T.Stream, offset: nat, messages: seq<L.Message>)
    requires stream.consumed <= offset <= |stream.payload|
  {
    var whole, rest := Scan(stream.payload[stream.consumed..], stream.ConsumedOffset()),
                       Scan(stream.payload[offset..], stream.bufferOffset + offset);
    && whole.messages == messages + rest.messages && whole.pending == rest.pending && whole.status == rest.status
    && whole.used == offset - stream.consumed + rest.used
  }

  lemma {:induction false} ScannedOn(stream: T.Stream, offset: nat, messages: seq<L.Message>)
    requires stream.consumed <= offset < |stream.payload| <= L.MAX_PAYLOAD_BYTES && ScannedTo(stream, offset, messages)
    requires var m := L.Parse(stream.payload[offset..], stream.bufferOffset + offset);
             m.status != L.Malformed && m.envelopeComplete
    ensures var m := L.Parse(stream.payload[offset..], stream.bufferOffset + offset);
            && m.messageLength.Some? && 2 <= m.messageLength.value <= |stream.payload| - offset
            && ScannedTo(stream, offset + m.messageLength.value, messages + [m])
  {
    hide Scan, L.Parse;
    var view, at := stream.payload[offset..], stream.bufferOffset + offset;
    ScanCases(view, at);
    var length := L.Parse(view, at).messageLength.value;
    assert view[length..] == stream.payload[offset + length..];
  }

  lemma {:induction false} CountMore(messages: seq<L.Message>, m: L.Message, complete: bool)
    ensures Count(messages + [m], complete)
            == Count(messages, complete) + if (m.status == L.Complete) == complete then 1 else 0
  {
    assert (messages + [m])[..|messages|] == messages;
  }

  lemma {:induction false} ScanNothing(at: nat)
    ensures Scan([], at) == Scanned([], None, Ready, 0)
  { }

  /** The parsing loop, from the last message boundary to the end of the buffer. */
  method ScanStep(values: Observation) returns (v: Observation)
    requires values.stream.Valid() && values.stream.Readable() && |values.stream.payload| <= L.MAX_PAYLOAD_BYTES
    ensures var s := Scan(values.stream.Unconsumed(), values.stream.ConsumedOffset());
            v == Observation(
              values.stream.(consumed := values.stream.consumed + s.used), s.messages, s.pending, s.status,
              values.completeCount + Count(s.messages, true),
              values.unsupportedCount + Count(s.messages, false) + (if s.status == Unsupported then 1 else 0),
              values.malformedCount + if s.status == Malformed then 1 else 0)
  {
    hide Scan, L.Parse, L.MessageAt, Count;
    var stream := values.stream;
    var offset, available := stream.consumed, |stream.payload|;
    var messages, pending, status := [], None, Ready;
    var completeCount, unsupportedCount, malformedCount := values.completeCount, values.unsupportedCount,
                                                           values.malformedCount;
    CountNothing();
    while offset < available
      invariant stream.consumed <= offset <= available
      invariant pending == None && status == Ready && malformedCount == values.malformedCount
      invariant completeCount == values.completeCount + Count(messages, true)
      invariant unsupportedCount == values.unsupportedCount + Count(messages, false)
      invariant ScannedTo(stream, offset, messages)
    {
      var message := L.MessageAt(stream.payload, offset, available, stream.bufferOffset);
      L.MessageShifts(stream.payload, offset, available, stream.bufferOffset);
      assert stream.payload[offset..available] == stream.payload[offset..];
      ScanCases(stream.payload[offset..], stream.bufferOffset + offset);
      if message.status == L.Malformed {
        pending, status, malformedCount := Some(message), Malformed, malformedCount + 1;
        break;
      }
      if message.envelopeComplete && message.messageLength.Some? {
        ScannedOn(stream, offset, messages);
        CountMore(messages, message, true);
        CountMore(messages, message, false);
        messages := messages + [message];
        if message.status == L.Complete {
          completeCount := completeCount + 1;
        } else {
          unsupportedCount := unsupportedCount + 1;
        }
        offset := offset + message.messageLength.value;
      } else {
        pending := Some(message);
        if message.status == L.Incomplete
           || (message.messageLength.Some? && message.messageLength.value <= L.MAX_PAYLOAD_BYTES) {
          status := Incomplete;
        } else {
          status, unsupportedCount := Unsupported, unsupportedCount + 1;
        }
        break;
      }
    }
    if offset == available {
      ScanNothing(stream.bufferOffset + offset);
      assert stream.payload[offset..] == [];
    }
    assert messages + [] == messages;
    v := Observation(T.Consume(stream, offset - stream.consumed).value, messages, pending, status,
                     completeCount, unsupportedCount, malformedCount);
  }

  lemma {:induction false} CountNothing()
    ensures Count([], true) == 0 && Count([], false) == 0
  { }

  // ---------------------------------------------------------------- more bytes

  lemma {:induction false} WindowGrows(view: Bytes, more: Bytes)
    requires view <= more
    ensures Window(view) <= Window(more)
  { }

  /** What is left unconsumed scans to nothing new. */
  lemma {:induction false} LeftoverIsIdle(view: Bytes, at: nat)
    ensures var r := Scan(view, at);
            Scan(view[r.used..], at + r.used) == Scanned([], r.pending, r.status, 0)
    decreases |view|
  {
    hide L.Parse, Window;
    if view != [] {
      var m := L.Parse(Window(view), at);
      if m.status != L.Malformed && m.envelopeComplete {
        L.CompleteIsDecided(Window(view), at);
        var length := m.messageLength.value;
        LeftoverIsIdle(view[length..], at + length);
        var r := Scan(view[length..], at + length);
        assert view[length..][r.used..] == view[length + r.used..];
      } else {
        assert view[0..] == view;
      }
    } else {
      assert view[0..] == view;
    }
  }

  /** The pending message of a malformed stream, but for the flag that more bytes can still raise. */
  function Judged(pending: Option<L.Message>): Option<L.Message>
  {
    if pending.Some? && pending.value.status == L.Malformed then Some(pending.value.(envelopeComplete := false))
       else pending
  }

  /**
   * Adding bytes continues a scan from where it stopped, unless it stopped for
   * good: then nothing changes.
   */
  lemma {:induction false} ScanExtends(view: Bytes, more: Bytes, at: nat)
    requires view <= more
    ensures var r, r' := Scan(view, at), Scan(more, at);
            if Settled(r.status) then
              && r'.messages == r.messages && r'.status == r.status && r'.used == r.used
              && Judged(r'.pending) == Judged(r.pending) && (r.status == Unsupported ==> r'.pending == r.pending)
            else
              var rest := Scan(more[r.used..], at + r.used);
              && r'.messages == r.messages + rest.messages && r'.status == rest.status
              && r'.used == r.used + rest.used && r'.pending == rest.pending
    decreases |view|
  {
    hide L.Parse, Window, Scan;
    if view == [] {
      ScanNothing(at);
      assert more[0..] == more;
    } else {
      var m := L.Parse(Window(view), at);
      WindowGrows(view, more);
      ScanCases(view, at);
      ScanCases(more, at);
      if m.status != L.Incomplete { L.VerdictIsStable(Window(view), Window(more), at); }
      if m.status != L.Malformed && m.envelopeComplete {
        L.CompleteIsDecided(Window(view), at);
        var length := m.messageLength.value;
        ScanExtends(view[length..], more[length..], at + length);
        var r := Scan(view[length..], at + length);
        assert more[length..][r.used..] == more[length + r.used..];
      } else {
        if m.status == L.Complete { L.CompleteVerdict(Window(view), at); }
        assert more[0..] == more;
      }
    }
  }

  // ---------------------------------------------------------------- runs of one direction

  /** A direction after some segments, with every message emitted so far. */
  datatype Session = Session(stream: T.Stream, observation: Option<Observation>, emitted: seq<L.Message>, data: Bytes,
          isn: nat)

  const IDLE := Session(T.UNSEEN, None, [], [], 0)

  ghost function Deliver(s: Session, seg: T.Segment): Session
    requires s.stream.Valid() && T.Observe(Some(s.stream), seg).Valid()
  {
    var stream := T.Observe(Some(s.stream), seg);
    var o := FrameSpec(s.observation, stream);
    Session(if o.Some? then o.value.stream else stream, o, s.emitted + (if o.Some? then o.value.messages else []),
            Grown(s.stream, s.data, seg), Anchor(s.stream, s.isn, seg))
  }

  /** LDAP framing begins only when the first byte of the stream can begin a message. */
  predicate Begins(data: Bytes) { data != [] && data[0] == 0x30 }

  ghost predicate Follows(s: Session)
  {
    && Represents(s.stream, s.data, s.isn)
    && (s.observation.None? ==> !Begins(s.data) && s.emitted == [] && s.stream.ConsumedOffset() == 0)
    && (s.observation.Some? ==>
          && Begins(s.data) && s.observation.value.stream == s.stream
          && ScansAll(s.observation.value, s.emitted, s.data)
          && s.stream.ConsumedOffset() == Scan(s.data, 0).used
          && (s.observation.value.status == Unavailable <==> !s.stream.Readable()))
  }

  /** The observation and all emitted messages are the scan of the whole stream from its beginning. */
  ghost predicate ScansAll(o: Observation, emitted: seq<L.Message>, data: Bytes)
  {
    var whole := Scan(data, 0);
    && emitted == whole.messages
    && (o.status != Unavailable ==> o.status == whole.status)
    && Judged(o.pending) == Judged(whole.pending)
    && (o.status != Unavailable && o.status != Malformed ==> o.pending == whole.pending)
    && o.completeCount == Count(emitted, true)
    && o.unsupportedCount == Count(emitted, false) + (if whole.status == Unsupported then 1 else 0)
    && o.malformedCount == (if whole.status == Malformed then 1 else 0)
  }

  lemma {:induction false} CountConcat(a: seq<L.Message>, b: seq<L.Message>, complete: bool)
    ensures Count(a + b, complete) == Count(a, complete) + Count(b, complete)
  {
    if b == [] {
      assert a + b == a;
    } else {
      assert (a + b)[..|a + b| - 1] == a + b[..|b| - 1];
      CountConcat(a, b[..|b| - 1], complete);
    }
  }

  /** Scanning what is unread now completes the scan of everything. */
  lemma {:induction false} ScanStepScansAll(o: Observation, emitted: seq<L.Message>, data: Bytes, more: Bytes,
          stream: T.Stream)
    requires ScansAll(o, emitted, data) && !Settled(o.status) && data <= more
    requires stream.Valid() && stream.Readable() && stream.ConsumedOffset() == Scan(data, 0).used
    requires stream.Unconsumed() == more[Scan(data, 0).used..]
    ensures FrameSpec(Some(o), stream).Some?
    ensures var o' := FrameSpec(Some(o), stream).value;
            && ScansAll(o', emitted + o'.messages, more) && o'.pending == Scan(more, 0).pending
            && o'.stream.ConsumedOffset() == Scan(more, 0).used && o'.status != Unavailable
            && o'.stream == stream.(consumed := o'.stream.consumed)
               && stream.consumed <= o'.stream.consumed <= |stream.payload|
  {
    hide Scan, Count;
    ScanExtends(data, more, 0);
    var s := Scan(stream.Unconsumed(), stream.ConsumedOffset());
    CountConcat(emitted, s.messages, true);
    CountConcat(emitted, s.messages, false);
    ScanStatus(stream.Unconsumed(), stream.ConsumedOffset());
  }

  lemma {:induction false} ScanStatus(view: Bytes, at: nat)
    ensures Scan(view, at).status != Unavailable
    decreases |view|
  {
    hide L.Parse;
    if view != [] && L.Parse(Window(view), at).envelopeComplete {
      L.CompleteIsDecided(Window(view), at);
      var length := L.Parse(Window(view), at).messageLength.value;
      ScanStatus(view[length..], at + length);
    }
  }

  lemma {:induction false} FreshScansAll(data: Bytes, stream: T.Stream)
    requires stream.Valid() && stream.Readable() && stream.ConsumedOffset() == 0 && Begins(data)
    requires stream.payload == data
    ensures FrameSpec(None, stream).Some?
    ensures var o' := FrameSpec(None, stream).value;
            && ScansAll(o', o'.messages, data) && o'.pending == Scan(data, 0).pending
            && o'.stream.ConsumedOffset() == Scan(data, 0).used && o'.status != Unavailable
            && o'.stream == stream.(consumed := o'.stream.consumed)
               && stream.consumed <= o'.stream.consumed <= |stream.payload|
  {
    hide Scan, Count;
    assert stream.Unconsumed() == data;
    ScanStatus(data, 0);
  }

  /** An observation that will not look at bytes again, because its stream or its messages failed. */
  lemma {:induction false} SettledScansAll(o: Observation, emitted: seq<L.Message>, data: Bytes, more: Bytes,
          stream: T.Stream)
    requires ScansAll(o, emitted, data) && data <= more && stream.Valid()
    requires Settled(o.status) || !stream.Readable()
    requires !stream.Readable() && !Settled(o.status) ==> more == data
    requires o.status == Unavailable ==> more == data && !stream.Readable()
    ensures var o' := FrameSpec(Some(o), stream).value;
            && FrameSpec(Some(o), stream).Some?
            && ScansAll(o', emitted + o'.messages, more)
            && Scan(more, 0).used == Scan(data, 0).used
            && o'.stream == stream
            && (o'.status == Unavailable <==> !stream.Readable())
  {
    hide Scan, Count;
    assert emitted + [] == emitted;
    if more != data { ScanExtends(data, more, 0); }
  }

  lemma {:induction false} UnreadTail(s: T.Stream, data: Bytes, isn: nat)
    requires Represents(s, data, isn)
    ensures s.Valid() && s.ConsumedOffset() <= |data| && s.Unconsumed() == data[s.ConsumedOffset()..]
    ensures |s.payload| <= T.MAX_BYTES && (s.ConsumedOffset() == 0 ==> s.payload == data)
  {
    hide T.Wrap;
    assert data[s.bufferOffset..][s.consumed..] == data[s.bufferOffset + s.consumed..];
  }

  /** What one segment does to the stream underneath. */
  lemma {:induction false} SegmentEffect(s: Session, seg: T.Segment)
    requires Follows(s)
    ensures s.stream.Valid() && T.Observe(Some(s.stream), seg).Valid()
    ensures var r, data' := T.Observe(Some(s.stream), seg), Grown(s.stream, s.data, seg);
            && Represents(r, data', Anchor(s.stream, s.isn, seg)) && s.data <= data'
            && r.ConsumedOffset() == s.stream.ConsumedOffset() <= |s.data|
            && r.Unconsumed() == data'[r.ConsumedOffset()..]
            && (r.ConsumedOffset() == 0 ==> r.payload == data')
            && |r.payload| <= T.MAX_BYTES
            && (!r.Readable() ==> data' == s.data)
            && (!s.stream.Readable() ==> !r.Readable())
  {
    hide T.Observe, Numbered, T.Wrap, Accepts, Scan, ScansAll;
    var r, data' := T.Observe(Some(s.stream), seg), Grown(s.stream, s.data, seg);
    NextInRange(s.stream, s.data, s.isn);
    UnreadTail(s.stream, s.data, s.isn);
    ObserveRepresents(s.stream, s.data, s.isn, seg);
    UnreadTail(r, data', Anchor(s.stream, s.isn, seg));
    if Accepts(s.stream, seg) {
      AcceptsOpen(s.stream, seg);
      AcceptedIsReadable(s.stream, seg);
    } else if s.stream.status != T.Open {
      FailureIsFinal(s.stream, seg);
    }
  }

  lemma {:induction false} DeliverFollows(s: Session, seg: T.Segment)
    requires Follows(s)
    ensures s.stream.Valid() && T.Observe(Some(s.stream), seg).Valid()
    ensures Follows(Deliver(s, seg))
  {
    hide T.Observe, Represents, T.Wrap, Grown, Scan, ScansAll, FrameSpec, Accepts;
    SegmentEffect(s, seg);
    var r, data' := T.Observe(Some(s.stream), seg), Grown(s.stream, s.data, seg);
    if s.observation.None? {
      NotBegun(r, data');
      assert [] + FrameMessages(FrameSpec(None, r)) == FrameMessages(FrameSpec(None, r));
      if Begins(data') && r.Readable() {
        FreshScansAll(data', r);
        ConsumedRepresents(r, data', Anchor(s.stream, s.isn, seg),
                           FrameSpec(None, r).value.stream.consumed - r.consumed);
      }
    } else if Settled(s.observation.value.status) || !r.Readable() {
      SettledScansAll(s.observation.value, s.emitted, s.data, data', r);
    } else {
      ScanStepScansAll(s.observation.value, s.emitted, s.data, data', r);
      ConsumedRepresents(r, data', Anchor(s.stream, s.isn, seg),
                         FrameSpec(s.observation, r).value.stream.consumed - r.consumed);
    }
  }

  function FrameMessages(o: Option<Observation>): seq<L.Message> { if o.Some? then o.value.messages else [] }

  lemma {:induction false} NotBegun(stream: T.Stream, data: Bytes)
    requires stream.Valid() && stream.payload == data
    ensures FrameSpec(None, stream).None? <==> !Begins(data)
  { }

  ghost function Sessions(segments: seq<T.Segment>): (s: Session)
    ensures Follows(s)
  {
    if segments == [] then IDLE
    else
      var before := Sessions(segments[..|segments| - 1]);
      var seg := segments[|segments| - 1];
      DeliverFollows(before, seg);
      Deliver(before, seg)
  }

  /** Between packets the framer is always called in a state that makes its shortcuts invisible. */
  lemma {:induction false} SessionsContinue(segments: seq<T.Segment>, seg: T.Segment)
    ensures var s := Sessions(segments);
            && s.stream.Valid() && T.Observe(Some(s.stream), seg).Valid()
            && |T.Observe(Some(s.stream), seg).payload| <= L.MAX_PAYLOAD_BYTES
            && (s.observation.Some? ==>
                  && Continues(s.observation.value, T.Observe(Some(s.stream), seg))
                  && T.Observe(Some(s.stream), seg).ConsumedOffset() == s.observation.value.stream.ConsumedOffset())
  {
    hide Sessions, T.Observe, T.Wrap, Scan, Numbered, Accepts;
    var s := Sessions(segments);
    SegmentEffect(s, seg);
    UnreadTail(s.stream, s.data, s.isn);
    if s.observation.Some? {
      LeftoverIsIdle(s.data, 0);
      assert s.data[Scan(s.data, 0).used..] <= Grown(s.stream, s.data, seg)[Scan(s.data, 0).used..];
    }
  }

  /**
   * Over any run of segments the messages emitted are those of one scan of the
   * accepted bytes, and so are the counters; the state kept is that of the scan.
   */
  lemma {:induction false} SessionIsOneScan(segments: seq<T.Segment>)
    ensures var s := Sessions(segments);
            if Begins(s.data) then
              && s.observation.Some? && s.emitted == Scan(s.data, 0).messages
              && ScansAll(s.observation.value, s.emitted, s.data)
              && s.stream.ConsumedOffset() == Scan(s.data, 0).used
              && (s.observation.value.status == Unavailable <==> !s.stream.Readable())
            else s.observation.None? && s.emitted == []
  {
    hide Sessions, Scan, Represents;
  }

  /** Runs that accept the same bytes emit the same messages, however these were cut. */
  lemma {:induction false} SameBytesSameMessages(a: seq<T.Segment>, b: seq<T.Segment>)
    requires Sessions(a).data == Sessions(b).data
    ensures Sessions(a).emitted == Sessions(b).emitted
    ensures Sessions(a).stream.ConsumedOffset() == Sessions(b).stream.ConsumedOffset()
    ensures Sessions(a).stream.Readable() && Sessions(b).stream.Readable() ==>
              && (Sessions(a).observation.Some? <==> Sessions(b).observation.Some?)
              && (Sessions(a).observation.Some?
                  ==> SameButPending(Sessions(a).observation.value, Sessions(b).observation.value))
  {
    hide Sessions, Scan, Represents;
    SessionIsOneScan(a);
    SessionIsOneScan(b);
  }

  /** The same status and counters, and the same pending message but for the flag of a malformed one. */
  ghost predicate SameButPending(o: Observation, p: Observation)
  {
    && o.status == p.status && o.completeCount == p.completeCount && o.unsupportedCount == p.unsupportedCount
    && o.malformedCount == p.malformedCount && Judged(o.pending) == Judged(p.pending)
    && (o.status != Malformed ==> o.pending == p.pending)
  }

  // ---------------------------------------------------------------- in-order streams

  /**
   * How many of the bytes received so far stay unread: all of them if no message can
   * begin, else those after the last whole message.
   */
  ghost function Unread(data: Bytes): nat { |data| - if Begins(data) then Scan(data, 0).used else 0 }

  /** Every segment of an in-order stream finds room behind the bytes that are still unread. */
  ghost predicate NeverOverflows(segments: seq<T.Segment>)
  {
    forall k :: 0 <= k < |segments| ==> HasRoom(segments, k)
  }

  ghost predicate HasRoom(segments: seq<T.Segment>, k: nat)
    requires k < |segments|
  {
    Unread(Payloads(segments[..k])) + |segments[k].payload| <= T.MAX_BYTES
  }

  lemma {:induction false} NeverOverflowsStep(segments: seq<T.Segment>)
    requires segments != []
    ensures var n := |segments| - 1; NeverOverflows(segments) <==> NeverOverflows(segments[..n]) && HasRoom(segments, n)
  {
    hide Unread, Payloads;
    var n := |segments| - 1;
    forall k: nat | k < n ensures HasRoom(segments[..n], k) == HasRoom(segments, k) {
      assert segments[..n][..k] == segments[..k];
    }
  }

  lemma {:induction false} FollowsUnread(s: Session)
    requires Follows(s)
    ensures |s.data| - s.stream.ConsumedOffset() == Unread(s.data)
  {
    hide Scan, ScansAll, Represents;
  }

  lemma {:induction false} FrameKeepsStatus(current: Option<Observation>, stream: T.Stream)
    requires stream.Valid()
    ensures var o := FrameSpec(current, stream);
            o.Some? ==> o.value.stream.status == stream.status && o.value.stream.syn == stream.syn
  {
    hide Scan;
  }

  lemma {:induction false} InPlaceDelivery(s: Session, seg: T.Segment, isn: nat)
    requires Follows(s) && s.stream.status == T.Open
    requires s.stream.next.Some? ==> s.isn == T.Wrap(isn)
    requires !seg.rst && !seg.fragmented && |seg.payload| <= T.MAX_BYTES
    requires Comes(s.stream, |s.data|, isn, seg)
    ensures s.stream.Valid() && T.Observe(Some(s.stream), seg).Valid()
    ensures var r := Deliver(s, seg);
            && (if Unread(s.data) + |seg.payload| <= T.MAX_BYTES then
                  r.stream.status == (if seg.fin then T.Fin else T.Open) && r.data == s.data + seg.payload
                else r.stream.status == T.LimitExceeded)
            && r.isn == T.Wrap(isn) && r.stream.syn == if seg.syn then Some(seg.sequence) else s.stream.syn
  {
    hide T.Wrap, T.Observe, Represents, FrameSpec, ScansAll, Scan, Unread, Accepts, Grown, Anchor, Position, Comes;
    SegmentEffect(s, seg);
    NextInRange(s.stream, s.data, s.isn);
    FrameKeepsStatus(s.observation, T.Observe(Some(s.stream), seg));
    InPlaceStep(s.stream, s.data, seg, isn, s.isn);
    FollowsUnread(s);
  }

  lemma {:induction false} ClosedDelivery(s: Session, seg: T.Segment)
    requires Follows(s) && s.stream.status == T.LimitExceeded
    ensures s.stream.Valid() && T.Observe(Some(s.stream), seg).Valid()
    ensures Deliver(s, seg).stream.status == T.LimitExceeded
  {
    hide T.Observe, Represents, FrameSpec, ScansAll, Scan;
    SegmentEffect(s, seg);
    FrameKeepsStatus(s.observation, T.Observe(Some(s.stream), seg));
    FailureIsFinal(s.stream, seg);
  }

  lemma {:induction false} SessionsStep(segments: seq<T.Segment>)
    requires segments != []
    ensures var s, seg := Sessions(segments[..|segments| - 1]), segments[|segments| - 1];
            s.stream.Valid() && T.Observe(Some(s.stream), seg).Valid() && Sessions(segments) == Deliver(s, seg)
  {
    hide T.Observe, Follows, Deliver;
    DeliverFollows(Sessions(segments[..|segments| - 1]), segments[|segments| - 1]);
  }

  /**
   * An in-order stream of any length is accepted whole, up to its FIN if it has
   * one, if and only if every segment finds room behind the unread bytes;
   * otherwise it ends at the limit.
   */
  lemma {:induction false} InOrderIsAccepted(segments: seq<T.Segment>, isn: nat)
    requires InOrder(segments, isn)
    ensures var s := Sessions(segments);
            && s.stream.status == (if !NeverOverflows(segments) then T.LimitExceeded
                                   else if Closes(segments) then T.Fin else T.Open)
            && (NeverOverflows(segments) ==>
                  && s.data == Payloads(segments)
                  && (segments == [] ==> s == IDLE) && (segments != [] ==> s.isn == T.Wrap(isn))
                  && s.stream.syn == LeadingSyn(segments))
    decreases |segments|
  {
    hide T.Wrap, T.Observe, Follows, Deliver, NeverOverflows, HasRoom, Unread, InOrder, Position;
    if segments == [] {
      NothingOverflows();
    } else {
      hide Sessions, Payloads, Closes, Comes, LeadingSyn, RepeatsSyn;
      IdleIsUnseen();
      var n := |segments| - 1;
      var before := Sessions(segments[..n]);
      SessionsStep(segments);
      NeverOverflowsStep(segments);
      InPlacePrefix(segments, isn, n);
      InOrderIsAccepted(segments[..n], isn);
      if NeverOverflows(segments[..n]) {
        LastInOrder(segments, isn);
        LastComes(before.stream, segments, isn);
        RoomIs(segments, n);
        InPlaceDelivery(before, segments[n], isn);
      } else {
        ClosedDelivery(before, segments[n]);
      }
    }
  }

  lemma {:induction false} NothingOverflows()
    ensures NeverOverflows([])
  { }

  lemma {:induction false} RoomIs(segments: seq<T.Segment>, k: nat)
    requires k < |segments|
    ensures HasRoom(segments, k) <==> Unread(Payloads(segments[..k])) + |segments[k].payload| <= T.MAX_BYTES
  { }

  lemma {:induction false} IdleIsUnseen()
    ensures IDLE.stream.next.None? && IDLE.stream.syn.None? && LeadingSyn([]) == None
  { }

  /** A stream no longer than the buffer fits, whatever its bytes are. */
  lemma {:induction false} ShortNeverOverflows(segments: seq<T.Segment>)
    requires |Payloads(segments)| <= T.MAX_BYTES
    ensures NeverOverflows(segments)
    decreases |segments|
  {
    hide NeverOverflows, HasRoom, Scan;
    if segments == [] {
      NothingOverflows();
    } else {
      var n := |segments| - 1;
      NeverOverflowsStep(segments);
      ShortNeverOverflows(segments[..n]);
      RoomIs(segments, n);
    }
  }

  /**
   * Two in-order chunkings of the same bytes that do not overflow the buffer emit the
   * same messages and leave the same state.
   */
  lemma {:induction false} SegmentationIsInvisible(a: seq<T.Segment>, i: nat, b: seq<T.Segment>, j: nat)
    requires InOrder(a, i) && InOrder(b, j) && Payloads(a) == Payloads(b) && NeverOverflows(a) && NeverOverflows(b)
    ensures Sessions(a).data == Payloads(a) == Sessions(b).data
    ensures Sessions(a).emitted == Sessions(b).emitted
    ensures Sessions(a).stream.ConsumedOffset() == Sessions(b).stream.ConsumedOffset()
    ensures Sessions(a).observation.Some? <==> Sessions(b).observation.Some?
    ensures Sessions(a).observation.Some?
            ==> SameButPending(Sessions(a).observation.value, Sessions(b).observation.value)
  {
    hide Sessions, NeverOverflows, InOrder, Follows, SameButPending;
    InOrderIsAccepted(a, i);
    InOrderIsAccepted(b, j);
    SameBytesSameMessages(a, b);
  }

  // ---------------------------------------------------------------- the one thing arrival can change

  /**
   * A malformed message is judged the same on more bytes, but for the flag that says
   * whether all of its envelope is here.
   */
  lemma {:induction false} MalformedScan(view: Bytes, more: Bytes, at: nat)
    requires view <= more && Scan(view, at).status == Malformed
    ensures var r, r' := Scan(view, at), Scan(more, at);
            && r.pending.Some? && r'.status == Malformed && r'.used == r.used
            && r.pending == Some(L.Reflag(r.pending.value, |Window(view[r.used..])|))
            && r'.pending == Some(L.Reflag(r.pending.value, |Window(more[r.used..])|))
    decreases |view|
  {
    hide L.Parse, Window, Scan;
    if view == [] { ScanNothing(at); }
    var m := L.Parse(Window(view), at);
    WindowGrows(view, more);
    ScanCases(view, at);
    ScanCases(more, at);
    if m.status != L.Incomplete { L.VerdictIsStable(Window(view), Window(more), at); }
    if m.status != L.Malformed && m.envelopeComplete {
      L.CompleteIsDecided(Window(view), at);
      var length := m.messageLength.value;
      MalformedScan(view[length..], more[length..], at + length);
      var used := Scan(view[length..], at + length).used;
      assert view[length..][used..] == view[length + used..] && more[length..][used..] == more[length + used..];
    } else {
      assert view[0..] == view && more[0..] == more;
      PendingIsNotMalformed(m);
    }
  }

  lemma {:induction false} PendingIsNotMalformed(m: L.Message)
    ensures PendingStatus(m) != Malformed
  { }

  ghost predicate Broken(data: Bytes) { Begins(data) && Scan(data, 0).status == Malformed }

  /**
   * How many segments had arrived when the stream was judged malformed: the shortest
   * prefix whose bytes scan as malformed.
   */
  ghost function JudgedAfter(segments: seq<T.Segment>): (k: nat)
    ensures k <= |segments|
  {
    if segments == [] then 0
    else if Broken(Sessions(segments[..|segments| - 1]).data) then JudgedAfter(segments[..|segments| - 1])
    else |segments|
  }

  /** The segment that completes the verdict leaves the pending message as the scan finds it. */
  lemma {:induction false} DeliverJudges(s: Session, seg: T.Segment)
    requires Follows(s) && !Broken(s.data)
    ensures s.stream.Valid() && T.Observe(Some(s.stream), seg).Valid()
    ensures var d := Deliver(s, seg);
            Broken(d.data) ==> d.observation.Some? && d.observation.value.pending == Scan(d.data, 0).pending
  {
    hide T.Observe, Represents, T.Wrap, Grown, Scan, ScansAll, FrameSpec, Accepts;
    SegmentEffect(s, seg);
    var r, data' := T.Observe(Some(s.stream), seg), Grown(s.stream, s.data, seg);
    if Broken(data') {
      assert data' != s.data;
      if s.observation.None? {
        NotBegun(r, data');
        FreshScansAll(data', r);
      } else {
        UnbrokenIsUnsettled(s, data');
        ScanStepScansAll(s.observation.value, s.emitted, s.data, data', r);
      }
    }
  }

  lemma {:induction false} UnbrokenIsUnsettled(s: Session, more: Bytes)
    requires Follows(s) && s.observation.Some? && s.stream.Readable() && !Broken(s.data) && s.data <= more
             && Broken(more)
    ensures !Settled(s.observation.value.status)
  {
    hide Scan, Represents;
    ScanExtends(s.data, more, 0);
  }

  /** After the verdict nothing is looked at again: the pending message stays. */
  lemma {:induction false} DeliverKeepsJudgement(s: Session, seg: T.Segment)
    requires Follows(s) && Broken(s.data)
    ensures s.stream.Valid() && T.Observe(Some(s.stream), seg).Valid()
    ensures var d := Deliver(s, seg);
            s.observation.Some? && d.observation.Some? && d.observation.value.pending == s.observation.value.pending
              && Broken(d.data)
  {
    hide T.Observe, Represents, T.Wrap, Grown, Accepts, Scan;
    SegmentEffect(s, seg);
    MalformedScan(s.data, Grown(s.stream, s.data, seg), 0);
  }

  /** What is kept of a malformed stream is the message as it looked when it was first seen to be malformed. */
  lemma {:induction false} MalformedIsJudgedOnce(segments: seq<T.Segment>)
    requires Broken(Sessions(segments).data)
    ensures var k := JudgedAfter(segments);
            && Broken(Sessions(segments[..k]).data)
            && (forall j :: 0 <= j < k ==> !Broken(Sessions(segments[..j]).data))
            && Sessions(segments[..k]).data <= Sessions(segments).data
            && Sessions(segments).observation.Some?
            && Sessions(segments).observation.value.pending == Scan(Sessions(segments[..k]).data, 0).pending
    decreases |segments|
  {
    hide T.Observe, Follows, Deliver, Scan;
    assert segments[..|segments|] == segments;
    if segments == [] {
      NothingBroken();
    } else {
      var n, k := |segments| - 1, JudgedAfter(segments);
      var before, seg := Sessions(segments[..n]), segments[n];
      SessionsStep(segments);
      DeliverGrows(before, seg);
      if Broken(before.data) {
        MalformedIsJudgedOnce(segments[..n]);
        DeliverKeepsJudgement(before, seg);
        assert segments[..n][..k] == segments[..k];
        forall j | 0 <= j < k ensures !Broken(Sessions(segments[..j]).data) {
          assert segments[..n][..j] == segments[..j];
        }
      } else {
        DeliverJudges(before, seg);
        forall j | 0 <= j < k ensures !Broken(Sessions(segments[..j]).data) { UnbrokenBefore(segments, j); }
      }
    }
  }

  lemma {:induction false} NothingBroken()
    ensures !Broken(Sessions([]).data)
  { }

  lemma {:induction false} DeliverGrows(s: Session, seg: T.Segment)
    requires Follows(s)
    ensures s.stream.Valid() && T.Observe(Some(s.stream), seg).Valid() && s.data <= Deliver(s, seg).data
  {
    hide T.Observe, FrameSpec, ScansAll, Represents, Scan;
    SegmentEffect(s, seg);
  }

  /** A stream that is not broken yet has not been before. */
  lemma {:induction false} UnbrokenBefore(segments: seq<T.Segment>, j: nat)
    requires j < |segments| && !Broken(Sessions(segments[..|segments| - 1]).data)
    ensures !Broken(Sessions(segments[..j]).data)
    decreases |segments|
  {
    hide T.Observe, Follows, Deliver, Scan;
    var n := |segments| - 1;
    if j < n {
      SessionsStep(segments[..n]);
      var m := n - 1;
      assert segments[..n][..m] == segments[..m] && segments[..n][..j] == segments[..j];
      if Broken(Sessions(segments[..m]).data) { DeliverKeepsJudgement(Sessions(segments[..m]), segments[m]); }
      UnbrokenBefore(segments[..n], j);
    }
  }

  /** Whether the envelope of the first malformed message ends within these bytes. */
  ghost predicate EnvelopeIn(whole: Bytes, early: Bytes)
    requires Broken(whole)
  {
    MalformedScan(whole, whole, 0);
    var s := Scan(whole, 0);
    s.pending.value.messageLength.Some? && s.used + s.pending.value.messageLength.value <= |early|
  }

  /**
   * The kept message of a malformed stream is the one a scan of all its bytes
   * finds, but for one flag; the flag agrees if and only if no part of the
   * envelope arrived after the verdict: it has no known end, or ended within the
   * bytes judged, or has still not ended.
   */
  lemma {:induction false} FlagAgreesExactly(segments: seq<T.Segment>)
    requires Broken(Sessions(segments).data)
    ensures var s, early := Sessions(segments), Sessions(segments[..JudgedAfter(segments)]).data;
            var whole := Scan(s.data, 0);
            && s.observation.Some? && s.observation.value.pending.Some? && whole.pending.Some?
            && s.observation.value.pending == Some(whole.pending.value.(envelopeComplete := EnvelopeIn(s.data, early)))
            && (s.observation.value.pending == whole.pending <==>
                  (whole.pending.value.messageLength.None?
                   || whole.used + whole.pending.value.messageLength.value <= |early|
                   || whole.used + whole.pending.value.messageLength.value > |s.data|))
  {
    hide T.Observe, Deliver, Sessions, Scan, Follows;
    var k := JudgedAfter(segments);
    var s, judged := Sessions(segments), Sessions(segments[..k]);
    MalformedIsJudgedOnce(segments);
    MalformedScan(judged.data, s.data, 0);
    MalformedScan(s.data, s.data, 0);
    WholeWindow(s);
    WholeWindow(judged);
  }

  /** What is unread of a malformed stream is never more than the buffer holds. */
  lemma {:induction false} WholeWindow(s: Session)
    requires Follows(s) && Broken(s.data)
    ensures var tail := s.data[Scan(s.data, 0).used..]; Window(tail) == tail
  {
    hide Scan, ScansAll, T.Wrap;
    UnreadTail(s.stream, s.data, s.isn);
  }

  /**
   * Two runs with the same malformed bytes keep the same message if and only if their
   * verdicts fell on the same side of its envelope's end.
   */
  lemma {:induction false} ArrivalShowsExactly(a: seq<T.Segment>, b: seq<T.Segment>)
    requires Sessions(a).data == Sessions(b).data && Broken(Sessions(a).data)
    ensures Sessions(a).observation.Some? && Sessions(b).observation.Some?
    ensures var data := Sessions(a).data;
            Sessions(a).observation.value.pending == Sessions(b).observation.value.pending <==>
            (EnvelopeIn(data, Sessions(a[..JudgedAfter(a)]).data)
             <==> EnvelopeIn(data, Sessions(b[..JudgedAfter(b)]).data))
  {
    hide Sessions, Scan, JudgedAfter, EnvelopeIn;
    FlagAgreesExactly(a);
    FlagAgreesExactly(b);
  }

  const EIGHT_BYTES: Bytes := [0x30, 6, 4, 1, 0, 0, 0, 0]

  function Plain(sequence: nat, payload: Bytes): T.Segment { T.Segment(sequence, false, false, false, payload, false) }

  const IN_TWO: seq<T.Segment> := [Plain(0, [0x30, 6, 4, 1]), Plain(4, [0, 0, 0, 0])]

  const IN_ONE: seq<T.Segment> := [Plain(0, EIGHT_BYTES)]

  lemma {:induction false} EightBytesAreBroken()
    ensures Broken(EIGHT_BYTES) && Scan(EIGHT_BYTES, 0).used == 0 && Broken(EIGHT_BYTES[..4])
    ensures Scan(EIGHT_BYTES, 0).pending.Some? && Scan(EIGHT_BYTES, 0).pending.value.messageLength == Some(8)
  {
    var early: Bytes, whole := [0x30, 6, 4, 1], EIGHT_BYTES;
    assert whole[..4] == early;
    assert L.ReadEnvelope(early, 0, 4, None) == Ok(L.Envelope(0x30, 2, 8));
    assert L.ReadEnvelope(whole, 0, 8, None) == Ok(L.Envelope(0x30, 2, 8));
    assert L.Parse(early, 0).status == L.Malformed && L.Parse(whole, 0).status == L.Malformed;
    ScanCases(early, 0);
    ScanCases(whole, 0);
  }

  lemma {:induction false} ConcreteRuns()
    ensures InOrder(IN_ONE, 0) && InOrder(IN_TWO, 0) && InOrder(IN_TWO[..1], 0)
    ensures Payloads(IN_ONE) == EIGHT_BYTES == Payloads(IN_TWO) && Payloads(IN_TWO[..1]) == EIGHT_BYTES[..4]
    ensures IN_ONE[..0] == [] && IN_TWO[..0] == [] && Payloads([]) == []
    ensures |IN_ONE| == 1 && |IN_TWO| == 2
  {
    var one, two := IN_ONE, IN_TWO;
    assert one[..0] == [] && two[..0] == [] && two[..1] == [two[0]] && [two[0]][..0] == [];
    assert Payloads([two[0]]) == two[0].payload;
    assert InPlace(one, 0, 0) && InPlace(two, 0, 0) && InPlace(two, 0, 1);
    assert InPlace(two[..1], 0, 0);
  }

  /** A stream whose first segment already breaks it is judged after that segment. */
  lemma {:induction false} JudgedAtOnce(segments: seq<T.Segment>)
    requires |segments| in {1, 2} && Broken(Sessions(segments[..1]).data)
    ensures JudgedAfter(segments) == 1
  {
    hide Sessions, Broken;
    NothingBroken();
    assert segments[..1][..0] == [] == segments[..0];
    if |segments| == 1 { assert segments[..1] == segments; }
  }

  /**
   * The flag does depend on arrival: the same eight bytes in one segment or in two
   * leave different pending messages.
   */
  lemma {:induction false} MalformedFlagDependsOnArrival()
    ensures InOrder(IN_ONE, 0) && InOrder(IN_TWO, 0)
    ensures Sessions(IN_ONE).data == Sessions(IN_TWO).data
    ensures Sessions(IN_ONE).observation.Some? && Sessions(IN_TWO).observation.Some?
    ensures Sessions(IN_ONE).observation.value.pending != Sessions(IN_TWO).observation.value.pending
  {
    hide Sessions, Scan, Follows, InOrder, Payloads, NeverOverflows, JudgedAfter;
    ConcreteRuns();
    EightBytesAreBroken();
    ShortNeverOverflows(IN_ONE);
    ShortNeverOverflows(IN_TWO);
    ShortNeverOverflows(IN_TWO[..1]);
    InOrderIsAccepted(IN_ONE, 0);
    InOrderIsAccepted(IN_TWO, 0);
    InOrderIsAccepted(IN_TWO[..1], 0);
    assert IN_ONE[..1] == IN_ONE;
    JudgedAtOnce(IN_ONE);
    JudgedAtOnce(IN_TWO);
    ArrivalShowsExactly(IN_ONE, IN_TWO);
  }
}
