/**
 * One direction of a TCP connection as a bounded buffer: in-order bytes are
 * kept, everything else is classified, consumed bytes are reclaimed when room
 * is short, and the first failure is final.
 */
module TcpStream {
  import opened Common

  const MAX_BYTES := 65536
  const MODULUS := 0x1_0000_0000
  const HALF_RANGE := 0x8000_0000

  datatype Relation =
    | First | Contiguous | GapRelation | OverlapRelation | Duplicate | Empty | AmbiguousRelation | Unavailable

  datatype Status =
    | Open | Fin | Reset | AfterClose | Gap | Overlap | Conflict | Ambiguous | LimitExceeded | Restart | Fragmented

  datatype Segment = Segment(sequence: nat, syn: bool, fin: bool, rst: bool, payload: Bytes, fragmented: bool)

  datatype Stream = Stream(
    payload: Bytes,
    start: Option<nat>,
    next: Option<nat>,
    syn: Option<nat>,
    status: Status,
    lastRelation: Relation,
    lastSequence: nat,
    lastPayloadSequence: nat,
    lastPayloadLength: nat,
    lastDelta: Option<int>,
    bufferOffset: nat,
    consumed: nat)
  {
    predicate Valid()
    {
      consumed <= |payload| && (payload != [] ==> start.Some? && next.Some?)
    }

    /** The stream can still be read. */
    predicate Readable() { status == Open || status == Fin || status == Reset }

    function ConsumedOffset(): nat { bufferOffset + consumed }

    function Unconsumed(): Bytes
      requires consumed <= |payload|
    {
      payload[consumed..]
    }
  }

  const UNSEEN := Stream([], None, None, None, Open, Empty, 0, 0, 0, None, 0, 0)

  /** Sequence numbers live on a circle of 2^32. */
  function Wrap(n: int): (r: nat)
    ensures r < MODULUS
  {
    n % MODULUS
  }

  /** Signed distance on the sequence circle; none when it is exactly half way round. */
  function SequenceDelta(sequence: int, expected: int): (r: Option<int>)
    ensures r.Some? ==> -HALF_RANGE < r.value < HALF_RANGE && Wrap(expected + r.value - sequence) == 0
    ensures r.None? ==> Wrap(sequence - expected - HALF_RANGE) == 0
  {
    var delta := Wrap(sequence - expected);
    if delta == HALF_RANGE then None else if delta < HALF_RANGE then Some(delta) else Some(delta - MODULUS)
  }

  // ---------------------------------------------------------------- specification

  /** Room is made by dropping consumed bytes, but only when it is needed. */
  function Reclaim(v: Stream, more: nat): Stream
    requires v.Valid()
  {
    if |v.payload| + more > MAX_BYTES && v.consumed > 0 then
      v.(payload := v.payload[v.consumed..],
         start := Some(Wrap(v.start.value + v.consumed)),
         bufferOffset := v.bufferOffset + v.consumed,
         consumed := 0)
    else v
  }

  function AppendPayload(v: Stream, payload: Bytes): Stream
    requires v.Valid()
  {
    var w := Reclaim(v.(lastRelation := if v.start.None? then First else Contiguous), |payload|);
    if |w.payload| + |payload| > MAX_BYTES then w.(status := LimitExceeded)
    else w.(start := if w.start.None? then Some(v.lastPayloadSequence) else w.start,
            payload := w.payload + payload,
            next := Some(Wrap(v.lastPayloadSequence + |payload|)))
  }

  /**
   * The retained and the received bytes disagree somewhere both have one; `offset` is
   * where the segment starts in the buffer.
   */
  predicate Disagrees(buffer: Bytes, offset: int, payload: Bytes)
  {
    exists k :: 0 <= k < |buffer| && offset <= k < offset + |payload| && buffer[k] != payload[k - offset]
  }

  function ObserveOverlap(v: Stream, offset: int, payload: Bytes): Stream
  {
    if Disagrees(v.payload, offset, payload) then v.(lastRelation := OverlapRelation, status := Conflict)
    else if 0 <= offset && offset + |payload| <= |v.payload| then v.(lastRelation := Duplicate)
    else v.(lastRelation := OverlapRelation, status := Overlap)
  }

  function ObservePayload(v: Stream, payload: Bytes): Stream
    requires v.Valid()
  {
    var delta := if v.next.None? then Some(0) else SequenceDelta(v.lastPayloadSequence, v.next.value);
    var w := if v.next.None? then v else v.(lastDelta := delta);
    if delta.None? then w.(status := Ambiguous, lastRelation := AmbiguousRelation)
    else if delta.value > 0 then w.(status := Gap, lastRelation := GapRelation)
    else if delta.value < 0 then ObserveOverlap(w, |w.payload| + delta.value, payload)
    else AppendPayload(w, payload)
  }

  function ObserveClose(v: Stream, seg: Segment): Stream
  {
    if seg.rst then v.(status := Reset)
    else if seg.fin then
      var finSequence := Wrap(v.lastPayloadSequence + |seg.payload|);
      var delta := if v.next.None? then Some(0) else SequenceDelta(finSequence, v.next.value);
      var w := if seg.payload == [] then v.(lastDelta := delta) else v;
      if delta == Some(0) then w.(status := Fin, next := Some(Wrap(finSequence + 1)))
      else if delta.None? then w.(status := Ambiguous)
      else w.(status := if delta.value > 0 then Gap else Overlap)
    else v
  }

  /** The stream after one more segment. */
  function Observe(current: Option<Stream>, seg: Segment): Stream
    requires current.Some? ==> current.value.Valid()
  {
    var sequence := Wrap(seg.sequence + if seg.syn then 1 else 0);
    var v := (if current.Some? then current.value else UNSEEN).(
      lastRelation := Empty, lastSequence := seg.sequence, lastPayloadSequence := sequence,
      lastPayloadLength := |seg.payload|, lastDelta := None);
    if (v.status == Fin || v.status == Reset) && (seg.payload != [] || seg.syn) then
      v.(status := AfterClose, lastRelation := Unavailable)
    else if v.status != Open then
      v.(lastRelation := if seg.payload != [] then Unavailable else Empty)
    else if seg.fragmented then
      v.(status := Fragmented, lastRelation := Unavailable)
    else if seg.syn && v.next.Some? && v.syn != Some(seg.sequence) then
      v.(status := Restart, lastRelation := Unavailable)
    else
      var s := if seg.syn && v.syn.None? then v.(syn := Some(seg.sequence), next := Some(sequence)) else v;
      var t := if seg.payload != [] then ObservePayload(s, seg.payload) else s;
      if t.status == Open then ObserveClose(t, seg) else t
  }

  /** Reading `count` bytes; errors are an unreadable stream and a count that does not fit. */
  datatype ConsumeError = UnavailableStream | CountOutOfRange

  function Consume(s: Stream, count: int): Result<Stream, ConsumeError>
  {
    if !s.Readable() then Err(UnavailableStream)
    else if !(0 <= count <= |s.payload| - s.consumed) then Err(CountOutOfRange)
    else Ok(s.(consumed := s.consumed + count))
  }

  // ---------------------------------------------------------------- the program's steps

  /** The retransmission branch of `_observe_payload`; `offset` may lie before the buffer. */
  method OverlapStep(values: Stream, offset: int, payload: Bytes) returns (v: Stream)
    ensures v == ObserveOverlap(values, offset, payload)
  {
    v := values;
    v := v.(lastRelation := OverlapRelation);
    var overlapStart, overlapEnd := Max(0, offset), Min(|v.payload|, offset + |payload|);
    if overlapStart < overlapEnd
       && v.payload[overlapStart..overlapEnd] != payload[overlapStart - offset..overlapEnd - offset] {
      var a, b := v.payload[overlapStart..overlapEnd], payload[overlapStart - offset..overlapEnd - offset];
      ghost var k :| 0 <= k < |a| && a[k] != b[k];
      assert v.payload[overlapStart + k] != payload[overlapStart + k - offset];
      v := v.(status := Conflict);
    } else {
      AgreesWhereEqual(v.payload, offset, payload, overlapStart, overlapEnd);
      if offset >= 0 && offset + |payload| <= |v.payload| {
        v := v.(lastRelation := Duplicate);
      } else {
        v := v.(status := Overlap);
      }
    }
  }

  /** `_observe_payload`, on the values of one observation. */
  method PayloadStep(values: Stream, payload: Bytes) returns (v: Stream)
    requires values.Valid()
    ensures v == ObservePayload(values, payload)
  {
    hide ObserveOverlap, Wrap, SequenceDelta;
    v := values;
    var sequence, delta := v.lastPayloadSequence, Some(0);
    if v.next.Some? {
      delta := SequenceDelta(sequence, v.next.value);
      v := v.(lastDelta := delta);
    }
    if delta.None? {
      v := v.(status := Ambiguous, lastRelation := AmbiguousRelation);
      return;
    }
    if delta.value > 0 {
      v := v.(status := Gap, lastRelation := GapRelation);
      return;
    }
    if delta.value < 0 {
      v := OverlapStep(v, |v.payload| + delta.value, payload);
      return;
    }
    v := v.(lastRelation := if v.start.None? then First else Contiguous);
    if |v.payload| + |payload| > MAX_BYTES && v.consumed > 0 {
      var consumed := v.consumed;
      v := v.(payload := v.payload[consumed..]);
      v := v.(start := Some(Wrap(v.start.value + consumed)));
      v := v.(bufferOffset := v.bufferOffset + consumed);
      v := v.(consumed := 0);
    }
    if |v.payload| + |payload| > MAX_BYTES {
      v := v.(status := LimitExceeded);
      return;
    }
    if v.start.None? { v := v.(start := Some(sequence)); }
    v := v.(payload := v.payload + payload);
    v := v.(next := Some(Wrap(sequence + |payload|)));
  }

  lemma {:induction false} AgreesWhereEqual(buffer: Bytes, offset: int, payload: Bytes, from: int, to: int)
    requires from == Max(0, offset) && to == Min(|buffer|, offset + |payload|)
    requires from < to ==> buffer[from..to] == payload[from - offset..to - offset]
    ensures !Disagrees(buffer, offset, payload)
  {
    forall k | 0 <= k < |buffer| && offset <= k < offset + |payload| ensures buffer[k] == payload[k - offset] {
      assert buffer[from..to][k - from] == payload[from - offset..to - offset][k - from];
    }
  }

  /** The RST and FIN branches of `_observe_segment`. */
  method CloseStep(values: Stream, seg: Segment) returns (v: Stream)
    ensures v == ObserveClose(values, seg)
  {
    v := values;
    if seg.rst {
      v := v.(status := Reset);
    } else if seg.fin {
      var finSequence := Wrap(v.lastPayloadSequence + |seg.payload|);
      var delta := if v.next.None? then Some(0) else SequenceDelta(finSequence, v.next.value);
      if seg.payload == [] { v := v.(lastDelta := delta); }
      if delta == Some(0) {
        v := v.(status := Fin, next := Some(Wrap(finSequence + 1)));
      } else if delta.None? {
        v := v.(status := Ambiguous);
      } else {
        v := v.(status := if delta.value > 0 then Gap else Overlap);
      }
    }
  }

  /** `_observe_segment`. */
  method SegmentStep(current: Option<Stream>, seg: Segment) returns (v: Stream)
    requires current.Some? ==> current.value.Valid()
    ensures v == Observe(current, seg)
  {
    hide ObservePayload, ObserveClose;
    v := UNSEEN;
    if current.Some? { v := current.value; }
    var sequence := Wrap(seg.sequence + if seg.syn then 1 else 0);
    v := v.(lastRelation := Empty, lastSequence := seg.sequence, lastPayloadSequence := sequence,
            lastPayloadLength := |seg.payload|, lastDelta := None);
    if (v.status == Fin || v.status == Reset) && (seg.payload != [] || seg.syn) {
      v := v.(status := AfterClose, lastRelation := Unavailable);
    } else if v.status != Open {
      v := v.(lastRelation := if seg.payload != [] then Unavailable else Empty);
    } else if seg.fragmented {
      v := v.(status := Fragmented, lastRelation := Unavailable);
    } else if seg.syn && v.next.Some? && v.syn != Some(seg.sequence) {
      v := v.(status := Restart, lastRelation := Unavailable);
    } else {
      if seg.syn && v.syn.None? {
        v := v.(syn := Some(seg.sequence), next := Some(sequence));
      }
      if seg.payload != [] {
        v := PayloadStep(v, seg.payload);
      }
      if v.status == Open {
        v := CloseStep(v, seg);
      }
    }
  }
}
