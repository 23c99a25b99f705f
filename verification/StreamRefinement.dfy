/**
 * The bounded buffer refines an unbounded stream: the bytes ever accepted,
 * numbered from zero, with the sequence number of byte zero taken once.
 */
module StreamRefinement {
  import opened Common
  import opened TcpStream

  /** The buffer holds the tail of `data`, every byte accepted so far. */
  ghost predicate Buffered(s: Stream, data: Bytes)
  {
    && s.Valid() && |s.payload| <= MAX_BYTES
    && s.bufferOffset <= |data| && s.payload == data[s.bufferOffset..]
    && (s.start.Some? <==> data != [])
    && (s.start.Some? ==> s.next.Some?)
  }

  /** The sequence fields number `count` accepted bytes, the first of which has sequence number `isn`. */
  ghost predicate Numbered(s: Stream, count: nat, isn: nat)
  {
    && (s.start.Some? ==> s.start.value == Wrap(isn + s.bufferOffset))
    && (s.next.Some? && s.status != Fin && s.status != AfterClose ==> s.next.value == Wrap(isn + count))
    && (s.status == Fin ==> s.next == Some(Wrap(isn + count + 1)))
    && (s.syn.Some? ==> s.next.Some? && Wrap(s.syn.value + 1) == Wrap(isn))
  }

  ghost predicate Represents(s: Stream, data: Bytes, isn: nat)
  {
    Buffered(s, data) && Numbered(s, |data|, isn)
  }

  function Position(seg: Segment): nat { Wrap(seg.sequence + if seg.syn then 1 else 0) }

  /** A second SYN that is not the first one again. */
  predicate Restarts(s: Stream, seg: Segment) { seg.syn && s.next.Some? && s.syn != Some(seg.sequence) }

  /** The segment is the next one, and the unread bytes leave room for it. */
  predicate Accepts(s: Stream, seg: Segment)
    requires s.Valid()
  {
    && s.status == Open && !seg.fragmented && !Restarts(s, seg) && seg.payload != []
    && (s.next.None? || Position(seg) == s.next.value)
    && Fits(s, |seg.payload|)
  }

  function Grown(s: Stream, data: Bytes, seg: Segment): Bytes
    requires s.Valid()
  {
    if Accepts(s, seg) then data + seg.payload else data
  }

  /** Byte zero is numbered by the first segment that says anything about numbers. */
  function Anchor(s: Stream, isn: nat, seg: Segment): nat
  {
    if s.next.None? then Position(seg) else isn
  }

  lemma {:induction false} WrapShift(a: int, b: int)
    ensures Wrap(Wrap(a) + b) == Wrap(a + b)
  { }

  lemma {:induction false} DeltaZero(sequence: nat, expected: nat)
    requires sequence < MODULUS && expected < MODULUS
    ensures SequenceDelta(sequence, expected) == Some(0) <==> sequence == expected
  { }

  predicate Fits(v: Stream, more: nat)
    requires v.Valid()
  {
    |v.payload| - v.consumed + more <= MAX_BYTES
  }

  lemma {:induction false} AppendBuffers(v: Stream, data: Bytes, payload: Bytes)
    requires Buffered(v, data) && v.status == Open && payload != []
    ensures var r := AppendPayload(v, payload);
            && Buffered(r, if Fits(v, |payload|) then data + payload else data)
            && r.ConsumedOffset() == v.ConsumedOffset()
            && r.status == (if Fits(v, |payload|) then Open else LimitExceeded)
            && (Fits(v, |payload|) ==> r.next.Some?)
  {
    hide Wrap, Reclaim, Fits, Buffered, AppendPayload;
    var related := v.(lastRelation := if v.start.None? then First else Contiguous);
    SameBuffer(v, related, data);
    var w := Reclaim(related, |payload|);
    ReclaimBuffers(related, data, |payload|);
    AppendIs(v, payload);
    if Fits(v, |payload|) {
      ReclaimFits(related, |payload|);
      SameFits(v, related, |payload|);
      MoreBuffered(w, data, payload, if w.start.None? then v.lastPayloadSequence else w.start.value,
                   Wrap(v.lastPayloadSequence + |payload|));
    } else {
      SameBuffer(w, w.(status := LimitExceeded), data);
    }
  }

  lemma {:induction false} AppendIs(v: Stream, payload: Bytes)
    requires v.Valid()
    ensures var related := v.(lastRelation := if v.start.None? then First else Contiguous);
            && related.Valid()
            && var w, start := Reclaim(related, |payload|), v.lastPayloadSequence;
               && AppendPayload(v, payload) ==
                  if Fits(v, |payload|) then
                    w.(start := Some(if w.start.None? then start else w.start.value),
                       payload := w.payload + payload, next := Some(Wrap(start + |payload|)))
                  else w.(status := LimitExceeded)
  {
    hide Wrap, Reclaim, Fits;
    var related := v.(lastRelation := if v.start.None? then First else Contiguous);
    SameFits(v, related, |payload|);
    ReclaimFits(related, |payload|);
  }

  lemma {:induction false} SameBuffer(v: Stream, w: Stream, data: Bytes)
    requires Buffered(v, data) && w == v.(lastRelation := w.lastRelation, status := w.status)
    ensures Buffered(w, data) && v.Valid() && w.Valid()
  { }

  lemma {:induction false} MoreBuffered(w: Stream, data: Bytes, payload: Bytes, start: nat, next: nat)
    requires Buffered(w, data) && payload != [] && |w.payload| + |payload| <= MAX_BYTES
    ensures Buffered(w.(start := Some(start), payload := w.payload + payload, next := Some(next)), data + payload)
  {
    assert (data + payload)[w.bufferOffset..] == data[w.bufferOffset..] + payload;
  }

  lemma {:induction false} ReclaimBuffers(v: Stream, data: Bytes, more: nat)
    requires Buffered(v, data)
    ensures var w := Reclaim(v, more);
            && Buffered(w, data) && w.Valid() && w.ConsumedOffset() == v.ConsumedOffset() && w.status == v.status
            && w.next == v.next && w.start.Some? == v.start.Some?
  {
    hide Wrap;
    if |v.payload| + more > MAX_BYTES && v.consumed > 0 { DroppedBuffers(v, data, Wrap(v.start.value + v.consumed)); }
  }

  lemma {:induction false} DroppedBuffers(v: Stream, data: Bytes, start: nat)
    requires Buffered(v, data) && v.start.Some?
    ensures Buffered(v.(payload := v.payload[v.consumed..], start := Some(start),
                        bufferOffset := v.bufferOffset + v.consumed, consumed := 0), data)
  {
    TailOfTail(data, v.bufferOffset, v.consumed);
  }

  lemma {:induction false} TailOfTail(data: Bytes, a: nat, b: nat)
    requires a + b <= |data|
    ensures data[a..][b..] == data[a + b..]
  { }

  lemma {:induction false} ReclaimNumbers(v: Stream, more: nat, count: nat, isn: nat)
    requires Numbered(v, count, isn) && v.Valid() && v.status == Open
    ensures Numbered(Reclaim(v, more), count, isn)
    ensures var w := Reclaim(v, more);
            w.start.Some? == v.start.Some? && w.next == v.next && w.status == v.status && w.syn == v.syn
  {
    WrapShift(isn + v.bufferOffset, v.consumed);
  }

  lemma {:induction false} ReclaimFits(v: Stream, more: nat)
    requires v.Valid()
    ensures |Reclaim(v, more).payload| + more <= MAX_BYTES <==> Fits(v, more)
  { }

  lemma {:induction false} AppendNumbers(v: Stream, count: nat, isn: nat, payload: Bytes)
    requires Numbered(v, count, isn) && v.Valid() && v.status == Open && payload != []
    requires v.start.None? ==> count == 0 && v.bufferOffset == 0
    requires v.start.Some? ==> v.next.Some?
    requires v.next == Some(v.lastPayloadSequence) || (v.next.None? && Wrap(isn) == v.lastPayloadSequence)
    ensures Numbered(AppendPayload(v, payload), if Fits(v, |payload|) then count + |payload| else count, isn)
  {
    hide Wrap, Reclaim, Fits;
    var related := v.(lastRelation := if v.start.None? then First else Contiguous);
    ReclaimNumbers(related, |payload|, count, isn);
    ReclaimFits(related, |payload|);
    SameFits(v, related, |payload|);
    if v.start.None? { NothingReclaimed(related, |payload|); }
    WrapShift(isn + count, |payload|);
    WrapShift(isn, |payload|);
  }

  lemma {:induction false} SameFits(v: Stream, w: Stream, more: nat)
    requires v.Valid() && w.Valid() && v.payload == w.payload && v.consumed == w.consumed
    ensures Fits(v, more) == Fits(w, more)
  { }

  lemma {:induction false} NothingReclaimed(v: Stream, more: nat)
    requires v.Valid() && v.start.None?
    ensures Reclaim(v, more) == v
  { }

  /** Same stream but for what it says about the last segment and, short of FIN, about its status. */
  predicate Relabels(v: Stream, w: Stream)
  {
    && v.status == Open && w.status != Fin
    && w == v.(status := w.status, lastRelation := w.lastRelation, lastDelta := w.lastDelta,
               lastSequence := w.lastSequence,
               lastPayloadSequence := w.lastPayloadSequence, lastPayloadLength := w.lastPayloadLength)
  }

  lemma {:induction false} RelabelRepresents(v: Stream, w: Stream, data: Bytes, isn: nat)
    requires Represents(v, data, isn) && Relabels(v, w)
    ensures Represents(w, data, isn)
  { }

  lemma {:induction false} PayloadRepresents(v: Stream, data: Bytes, isn: nat, payload: Bytes)
    requires Represents(v, data, isn) && v.status == Open && payload != []
    requires v.lastPayloadSequence < MODULUS && (v.next.None? ==> Wrap(isn) == v.lastPayloadSequence)
    ensures var r := ObservePayload(v, payload);
            var accepted := (v.next.None? || v.lastPayloadSequence == v.next.value) && Fits(v, |payload|);
            && Represents(r, if accepted then data + payload else data, isn)
            && r.ConsumedOffset() == v.ConsumedOffset()
            && (r.status == Open ==> r.next.Some?)
            && r.status != Fin
            && r.lastPayloadSequence == v.lastPayloadSequence
  {
    hide Wrap, AppendPayload, SequenceDelta, Buffered, Numbered, Disagrees;
    var delta := if v.next.None? then Some(0) else SequenceDelta(v.lastPayloadSequence, v.next.value);
    var w := if v.next.None? then v else v.(lastDelta := delta);
    NextInRange(v, data, isn);
    if v.next.Some? { DeltaZero(v.lastPayloadSequence, v.next.value); }
    RelabelRepresents(v, w, data, isn);
    if delta != Some(0) {
      RelabelRepresents(v, ObservePayload(v, payload), data, isn);
    } else {
      AppendKeeps(w, payload);
      AppendBuffers(w, data, payload);
      AppendNumbers(w, |data|, isn, payload);
    }
  }

  lemma {:induction false} NextInRange(v: Stream, data: Bytes, isn: nat)
    requires Represents(v, data, isn)
    ensures v.status == Open && v.next.Some? ==> v.next.value < MODULUS
    ensures v.Valid() && (v.start.None? <==> data == []) && (v.start.Some? ==> v.next.Some?)
            && (data == [] ==> v.bufferOffset == 0)
  { }

  lemma {:induction false} AppendKeeps(v: Stream, payload: Bytes)
    requires v.Valid()
    ensures AppendPayload(v, payload).lastPayloadSequence == v.lastPayloadSequence
  { }

  lemma {:induction false} CloseNumbers(v: Stream, count: nat, isn: nat, seg: Segment)
    requires Numbered(v, count, isn) && v.status == Open
    requires v.next.None? ==> count == 0 && seg.payload == [] && Wrap(isn) == v.lastPayloadSequence
    ensures Numbered(ObserveClose(v, seg), count, isn)
  {
    hide Wrap, SequenceDelta;
    var finSequence := Wrap(v.lastPayloadSequence + |seg.payload|);
    if v.next.Some? {
      DeltaZero(finSequence, v.next.value);
      WrapShift(isn + count, 1);
    } else {
      WrapShift(isn, 0);
      WrapShift(isn, 1);
    }
  }

  lemma {:induction false} CloseKeeps(v: Stream, seg: Segment)
    ensures var r := ObserveClose(v, seg);
            r == v.(status := r.status, next := r.next, lastDelta := r.lastDelta) && (v.next.Some? ==> r.next.Some?)
  { }

  lemma {:induction false} CloseRepresents(v: Stream, data: Bytes, isn: nat, seg: Segment)
    requires Represents(v, data, isn) && v.status == Open
    requires v.next.None? ==> seg.payload == [] && Wrap(isn) == v.lastPayloadSequence
    ensures var r := ObserveClose(v, seg);
            Represents(r, data, isn) && r.ConsumedOffset() == v.ConsumedOffset()
  {
    hide ObserveClose, Numbered, Wrap;
    CloseKeeps(v, seg);
    CloseNumbers(v, |data|, isn, seg);
  }

  /**
   * One segment: the bytes accepted grow by the segment or not at all, the
   * buffer still holds their tail, the sequence fields still number them, and
   * what has been consumed stays where it was.
   */
  lemma {:induction false} ObserveRepresents(s: Stream, data: Bytes, isn: nat, seg: Segment)
    requires Represents(s, data, isn)
    ensures var r := Observe(Some(s), seg);
            && Represents(r, Grown(s, data, seg), Anchor(s, isn, seg))
            && r.ConsumedOffset() == s.ConsumedOffset()
  {
    hide Wrap, ObservePayload, ObserveClose, Buffered, Numbered;
    NextInRange(s, data, isn);
    var v := Arrived(s, seg);
    if s.status == Open && !seg.fragmented && !Restarts(s, seg) {
      var t := if seg.syn && v.syn.None? then v.(syn := Some(seg.sequence), next := Some(Position(seg))) else v;
      RelabelRepresents(s, v, data, isn);
      SynRepresents(v, data, isn, seg);
      OpenSegmentRepresents(t, data, Anchor(s, isn, seg), seg);
      assert Observe(Some(s), seg) == ReadSegment(t, seg);
    } else {
      ClosedRepresents(s, data, isn, seg);
    }
  }

  lemma {:induction false} SynRepresents(v: Stream, data: Bytes, isn: nat, seg: Segment)
    requires Represents(v, data, isn) && v.status == Open && v.lastPayloadSequence == Position(seg)
    requires !Restarts(v, seg)
    ensures var t := if seg.syn && v.syn.None? then v.(syn := Some(seg.sequence), next := Some(Position(seg))) else v;
            && Represents(t, data, Anchor(v, isn, seg))
            && (t.next.None? ==> Wrap(Anchor(v, isn, seg)) == t.lastPayloadSequence)
  {
    hide Wrap;
    WrapShift(seg.sequence + if seg.syn then 1 else 0, 0);
  }

  lemma {:induction false} ClosedRepresents(s: Stream, data: Bytes, isn: nat, seg: Segment)
    requires Represents(s, data, isn)
    requires s.status != Open || seg.fragmented || Restarts(s, seg)
    ensures var r := Observe(Some(s), seg);
            && Represents(r, data, Anchor(s, isn, seg))
            && r.ConsumedOffset() == s.ConsumedOffset()
  {
    hide Wrap, ObservePayload, ObserveClose;
    ClosedKeeps(s, seg);
  }

  lemma {:induction false} ClosedKeeps(s: Stream, seg: Segment)
    requires s.Valid()
    requires s.status != Open || seg.fragmented || Restarts(s, seg)
    ensures var r := Observe(Some(s), seg);
            && r == s.(status := r.status, lastRelation := r.lastRelation, lastDelta := r.lastDelta,
                       lastSequence := r.lastSequence,
                       lastPayloadSequence := r.lastPayloadSequence, lastPayloadLength := r.lastPayloadLength)
            && r.status != Open
            && (s.status == Open ==> r.status == Fragmented || r.status == Restart)
            && (r.status == s.status || s.status == Open || r.status == AfterClose)
  {
    hide ObservePayload, ObserveClose;
  }

  /** The part of a segment that is left when nothing speaks against reading it. */
  function ReadSegment(v: Stream, seg: Segment): Stream
    requires v.Valid()
  {
    var t := if seg.payload != [] then ObservePayload(v, seg.payload) else v;
    if t.status == Open then ObserveClose(t, seg) else t
  }

  lemma {:induction false} OpenSegmentRepresents(v: Stream, data: Bytes, isn: nat, seg: Segment)
    requires Represents(v, data, isn) && v.status == Open && v.lastPayloadSequence < MODULUS
    requires v.next.None? ==> Wrap(isn) == v.lastPayloadSequence
    ensures var r := ReadSegment(v, seg);
            var accepted := seg.payload != [] && (v.next.None? || v.lastPayloadSequence == v.next.value)
                            && Fits(v, |seg.payload|);
            Represents(r, if accepted then data + seg.payload else data, isn)
              && r.ConsumedOffset() == v.ConsumedOffset()
  {
    hide Wrap, ObservePayload, ObserveClose, Buffered, Numbered;
    if seg.payload == [] {
      CloseRepresents(v, data, isn, seg);
    } else {
      NextInRange(v, data, isn);
      PayloadRepresents(v, data, isn, seg.payload);
      var t := ObservePayload(v, seg.payload);
      var accepted := (v.next.None? || v.lastPayloadSequence == v.next.value) && Fits(v, |seg.payload|);
      if t.status == Open { CloseRepresents(t, if accepted then data + seg.payload else data, isn, seg); }
    }
  }

  // ---------------------------------------------------------------- where a segment lies

  /** The bytes of a segment and of the accepted stream differ somewhere both still have one. */
  ghost predicate Differs(s: Stream, data: Bytes, payload: Bytes, pos: int)
  {
    exists p :: Max(pos, s.bufferOffset) <= p < Min(pos + |payload|, |data|) && data[p] != payload[p - pos]
  }

  /** What becomes of the status by the payload of a segment whose first byte belongs at `pos`. */
  ghost function PayloadVerdict(s: Stream, data: Bytes, payload: Bytes, pos: int): Status
  {
    if payload == [] then Open
    else if pos > |data| then Gap
    else if pos == |data| then if |data| - s.ConsumedOffset() + |payload| <= MAX_BYTES then Open else LimitExceeded
    else if Differs(s, data, payload, pos) then Conflict
    else if s.bufferOffset <= pos && pos + |payload| <= |data| then Open
    else Overlap
  }

  /** And then by its RST and FIN: `end` is where the segment ends, `count` how many bytes are accepted with it. */
  function CloseVerdict(seg: Segment, end: int, count: nat): Status
  {
    if seg.rst then Reset
    else if !seg.fin then Open
    else if end == count then Fin
    else if end > count then Gap
    else Overlap
  }

  /** The stream's own numbering agrees with the position given to a segment, which is known up to half the circle. */
  predicate Placed(isn: nat, count: nat, seg: Segment, pos: int)
  {
    Wrap(isn + pos - Position(seg)) == 0 && -HALF_RANGE < pos - count < HALF_RANGE
  }

  lemma {:induction false} ReadVerdict(s: Stream, data: Bytes, isn: nat, seg: Segment, pos: int)
    requires Represents(s, data, isn) && s.status == Open && !seg.fragmented && !Restarts(s, seg)
    requires Placed(Anchor(s, isn, seg), |data|, seg, pos)
    ensures var verdict := PayloadVerdict(s, data, seg.payload, pos);
            Observe(Some(s), seg).status ==
            if verdict != Open then verdict else CloseVerdict(seg, pos + |seg.payload|, |Grown(s, data, seg)|)
  {
    hide Wrap, ObservePayload, ObserveClose, Buffered, Numbered, SequenceDelta, PayloadVerdict;
    NextInRange(s, data, isn);
    var v := Arrived(s, seg);
    var t := if seg.syn && v.syn.None? then v.(syn := Some(seg.sequence), next := Some(Position(seg))) else v;
    RelabelRepresents(s, v, data, isn);
    SynRepresents(v, data, isn, seg);
    assert Observe(Some(s), seg) == ReadSegment(t, seg);
    var anchor := Anchor(s, isn, seg);
    SameVerdict(s, t, data, seg.payload, pos);
    if seg.payload == [] {
      NoPayload(t, data, pos);
      CloseVerdictHolds(t, data, anchor, seg, pos);
    } else {
      PayloadVerdictHolds(t, data, anchor, seg.payload, pos);
      PayloadRepresents(t, data, anchor, seg.payload);
      var u := ObservePayload(t, seg.payload);
      if u.status == Open {
        EndIsNear(t, data, seg, anchor, pos);
        CloseVerdictHolds(u, Grown(s, data, seg), anchor, seg, pos + |seg.payload|);
      }
    }
  }

  /**
   * What an open stream makes of any segment, by where it lies in the unbounded
   * stream: a fragment or a second beginning is refused, the payload is appended,
   * recognised or refused, and a FIN closes the stream if and only if the segment
   * ends where the accepted bytes end.
   */
  lemma {:induction false} SegmentVerdict(s: Stream, data: Bytes, isn: nat, seg: Segment, pos: int)
    requires Represents(s, data, isn) && s.status == Open
    requires Placed(Anchor(s, isn, seg), |data|, seg, pos)
    ensures var verdict := PayloadVerdict(s, data, seg.payload, pos);
            Observe(Some(s), seg).status ==
            if seg.fragmented then Fragmented
            else if Restarts(s, seg) then Restart
            else if verdict != Open then verdict
            else CloseVerdict(seg, pos + |seg.payload|, |Grown(s, data, seg)|)
  {
    hide Observe, Represents, Restarts, PayloadVerdict, Grown, Placed, Anchor;
    NextInRange(s, data, isn);
    if seg.fragmented || Restarts(s, seg) {
      RefusedWhole(s, seg);
    } else {
      ReadVerdict(s, data, isn, seg, pos);
    }
  }

  /** The relation reported for a payload that begins at `pos`. */
  ghost function RelationAt(s: Stream, data: Bytes, payload: Bytes, pos: int): Relation
  {
    if payload == [] then Empty
    else if pos > |data| then GapRelation
    else if pos == |data| then if data == [] then First else Contiguous
    else if !Differs(s, data, payload, pos) && s.bufferOffset <= pos && pos + |payload| <= |data| then Duplicate
    else OverlapRelation
  }

  /**
   * What is reported about a segment that an open stream reads: how it lies to the bytes
   * accepted before it, and how far its payload is from where they end.
   */
  lemma {:induction false} RelationVerdict(s: Stream, data: Bytes, isn: nat, seg: Segment, pos: int)
    requires Represents(s, data, isn) && s.status == Open && !seg.fragmented && !Restarts(s, seg)
    requires Placed(Anchor(s, isn, seg), |data|, seg, pos)
    ensures var r := Observe(Some(s), seg);
            && r.lastRelation == RelationAt(s, data, seg.payload, pos)
            && r.lastSequence == seg.sequence && r.lastPayloadSequence == Position(seg)
            && r.lastPayloadLength == |seg.payload|
            && (s.next.Some? && seg.payload != [] ==> r.lastDelta == Some(pos - |data|))
            && (seg.payload == [] ==> r.lastDelta == if seg.fin && !seg.rst then Some(pos - |data|) else None)
  {
    hide Wrap, ObservePayload, ObserveClose, Buffered, Numbered, SequenceDelta, RelationAt, Placed;
    NextInRange(s, data, isn);
    var v := Arrived(s, seg);
    var t := if seg.syn && v.syn.None? then v.(syn := Some(seg.sequence), next := Some(Position(seg))) else v;
    RelabelRepresents(s, v, data, isn);
    SynRepresents(v, data, isn, seg);
    assert Observe(Some(s), seg) == ReadSegment(t, seg);
    SameRelation(s, t, data, seg.payload, pos);
    PlacedIsWrapped(Anchor(s, isn, seg), |data|, seg, pos);
    if seg.payload == [] {
      CloseReports(t, seg);
      CloseMeasures(t, data, Anchor(s, isn, seg), seg, pos);
    } else {
      RelationHolds(t, data, Anchor(s, isn, seg), seg.payload, pos);
      CloseReports(ObservePayload(t, seg.payload), seg);
    }
  }

  lemma {:induction false} PlacedIsWrapped(isn: nat, count: nat, seg: Segment, pos: int)
    requires Placed(isn, count, seg, pos)
    ensures Wrap(isn + pos - Position(seg)) == 0 && -HALF_RANGE < pos - count < HALF_RANGE && Position(seg) < MODULUS
  { }

  lemma {:induction false} SameRelation(s: Stream, t: Stream, data: Bytes, payload: Bytes, pos: int)
    requires s.bufferOffset == t.bufferOffset
    ensures RelationAt(s, data, payload, pos) == RelationAt(t, data, payload, pos)
    ensures payload == [] ==> RelationAt(s, data, payload, pos) == Empty
  { }

  lemma {:induction false} CloseReports(v: Stream, seg: Segment)
    ensures var r := ObserveClose(v, seg);
            && r.lastRelation == v.lastRelation && r.lastSequence == v.lastSequence
            && r.lastPayloadSequence == v.lastPayloadSequence && r.lastPayloadLength == v.lastPayloadLength
            && (seg.payload != [] ==> r.lastDelta == v.lastDelta)
  { }

  lemma {:induction false} CloseMeasures(v: Stream, data: Bytes, isn: nat, seg: Segment, end: int)
    requires Represents(v, data, isn) && v.status == Open && seg.payload == [] && v.lastDelta.None?
    requires Wrap(isn + end - v.lastPayloadSequence) == 0 && -HALF_RANGE < end - |data| < HALF_RANGE
    requires v.lastPayloadSequence < MODULUS && (v.next.None? ==> Wrap(isn) == v.lastPayloadSequence)
    ensures ObserveClose(v, seg).lastDelta == if seg.fin && !seg.rst then Some(end - |data|) else None
  {
    hide SequenceDelta, Buffered;
    if v.next.Some? {
      WrapSmall(v.lastPayloadSequence);
      hide Wrap;
      DistanceIsDelta(v.next.value, isn, |data|, v.lastPayloadSequence, end);
    } else {
      NextInRange(v, data, isn);
      WrapSmall(v.lastPayloadSequence);
      OnlyZero(isn, end);
    }
  }

  lemma {:induction false} RelationHolds(v: Stream, data: Bytes, isn: nat, payload: Bytes, pos: int)
    requires Represents(v, data, isn) && v.status == Open && payload != [] && v.lastPayloadSequence < MODULUS
    requires Wrap(isn + pos - v.lastPayloadSequence) == 0 && -HALF_RANGE < pos - |data| < HALF_RANGE
    requires v.next.None? ==> Wrap(isn) == v.lastPayloadSequence
    ensures var r := ObservePayload(v, payload);
            && r.lastRelation == RelationAt(v, data, payload, pos)
            && r.lastSequence == v.lastSequence && r.lastPayloadSequence == v.lastPayloadSequence
            && r.lastPayloadLength == v.lastPayloadLength
            && (v.next.Some? ==> r.lastDelta == Some(pos - |data|))
  {
    hide Wrap, SequenceDelta, AppendPayload, RelationAt, ObserveOverlap, Numbered;
    PositionIsDelta(v, data, isn, pos);
    var w := if v.next.None? then v else v.(lastDelta := SequenceDelta(v.lastPayloadSequence, v.next.value));
    SameRelation(v, w, data, payload, pos);
    if pos < |data| {
      EarlierRelation(w, data, payload, pos);
    } else if pos > |data| {
      LaterRelation(w, data, payload, pos);
    } else {
      LaterRelation(w, data, payload, pos);
      AppendReports(w, payload);
    }
  }

  lemma {:induction false} EarlierRelation(w: Stream, data: Bytes, payload: Bytes, pos: int)
    requires Buffered(w, data) && payload != [] && pos < |data|
    ensures var r := ObserveOverlap(w, |w.payload| + (pos - |data|), payload);
            && r.lastRelation == RelationAt(w, data, payload, pos)
            && r == w.(lastRelation := r.lastRelation, status := r.status)
  {
    hide Disagrees;
    DisagreementIsDifference(w.payload, data, w.bufferOffset, pos, payload);
    assert |w.payload| + (pos - |data|) == pos - w.bufferOffset;
  }

  lemma {:induction false} LaterRelation(w: Stream, data: Bytes, payload: Bytes, pos: int)
    requires Buffered(w, data) && payload != [] && pos >= |data|
    ensures RelationAt(w, data, payload, pos)
         == if pos > |data| then GapRelation else if w.start.None? then First else Contiguous
  {
    hide Differs;
  }

  lemma {:induction false} AppendReports(v: Stream, payload: Bytes)
    requires v.Valid()
    ensures var r := AppendPayload(v, payload);
            && r.lastRelation == (if v.start.None? then First else Contiguous)
            && r.lastSequence == v.lastSequence && r.lastPayloadSequence == v.lastPayloadSequence
            && r.lastPayloadLength == v.lastPayloadLength && r.lastDelta == v.lastDelta
  { }

  lemma {:induction false} RefusedWhole(s: Stream, seg: Segment)
    requires s.Valid() && s.status == Open && (seg.fragmented || Restarts(s, seg))
    ensures Observe(Some(s), seg).status == if seg.fragmented then Fragmented else Restart
    ensures Observe(Some(s), seg).lastRelation == Unavailable
  {
    hide ObservePayload, ObserveClose;
  }

  lemma {:induction false} SameVerdict(s: Stream, t: Stream, data: Bytes, payload: Bytes, pos: int)
    requires s.bufferOffset == t.bufferOffset && s.consumed == t.consumed
    ensures PayloadVerdict(s, data, payload, pos) == PayloadVerdict(t, data, payload, pos)
  { }

  lemma {:induction false} NoPayload(s: Stream, data: Bytes, pos: int)
    ensures PayloadVerdict(s, data, [], pos) == Open
  { }

  /** A payload that was taken or recognised ends at most half a circle before the end of the accepted bytes. */
  lemma {:induction false} EndIsNear(v: Stream, data: Bytes, seg: Segment, isn: nat, pos: int)
    requires Represents(v, data, isn) && v.status == Open && seg.payload != [] && v.lastPayloadSequence == Position(seg)
    requires Placed(isn, |data|, seg, pos) && (v.next.None? ==> Wrap(isn) == v.lastPayloadSequence)
    requires PayloadVerdict(v, data, seg.payload, pos) == Open
    ensures pos == |data| <==> v.next.None? || v.lastPayloadSequence == v.next.value
    ensures pos == |data| ==> Fits(v, |seg.payload|)
    ensures pos != |data| ==> -HALF_RANGE < pos + |seg.payload| - |data| <= 0
  {
    hide Wrap, SequenceDelta, Disagrees;
    PositionIsDelta(v, data, isn, pos);
    if v.next.Some? { DeltaZero(v.lastPayloadSequence, v.next.value); }
  }

  /** The distance the program computes is that of the positions. */
  lemma {:induction false} PositionIsDelta(v: Stream, data: Bytes, isn: nat, pos: int)
    requires Represents(v, data, isn) && v.status == Open && v.lastPayloadSequence < MODULUS
    requires Wrap(isn + pos - v.lastPayloadSequence) == 0 && -HALF_RANGE < pos - |data| < HALF_RANGE
    requires v.next.None? ==> Wrap(isn) == v.lastPayloadSequence
    ensures v.next.Some? ==> v.next.value < MODULUS
                             && SequenceDelta(v.lastPayloadSequence, v.next.value) == Some(pos - |data|)
    ensures v.next.None? ==> data == [] && pos == 0
  {
    hide SequenceDelta;
    if v.next.Some? {
      hide Wrap;
      DistanceIsDelta(v.next.value, isn, |data|, v.lastPayloadSequence, pos);
    } else {
      OnlyZero(isn, pos);
    }
  }

  lemma {:induction false} OnlyZero(isn: nat, pos: int)
    requires Wrap(isn + pos - Wrap(isn)) == 0 && -HALF_RANGE < pos < HALF_RANGE
    ensures pos == 0
  {
    var a, b := isn / MODULUS, (isn + pos - Wrap(isn)) / MODULUS;
    assert isn - Wrap(isn) == a * MODULUS;
    assert pos == (b - a) * MODULUS;
  }

  lemma {:induction false} PayloadVerdictHolds(v: Stream, data: Bytes, isn: nat, payload: Bytes, pos: int)
    requires Represents(v, data, isn) && v.status == Open && payload != [] && v.lastPayloadSequence < MODULUS
    requires Wrap(isn + pos - v.lastPayloadSequence) == 0 && -HALF_RANGE < pos - |data| < HALF_RANGE
    requires v.next.None? ==> Wrap(isn) == v.lastPayloadSequence
    ensures ObservePayload(v, payload).status == PayloadVerdict(v, data, payload, pos)
  {
    hide Wrap, SequenceDelta, AppendPayload, PayloadVerdict, ObserveOverlap, Numbered;
    PositionIsDelta(v, data, isn, pos);
    var w := if v.next.None? then v else v.(lastDelta := SequenceDelta(v.lastPayloadSequence, v.next.value));
    RelabelRepresents(v, w, data, isn);
    if pos < |data| {
      EarlierVerdict(w, data, payload, pos);
    } else {
      LaterVerdict(w, data, payload, pos);
    }
    SameVerdict(v, w, data, payload, pos);
  }

  lemma {:induction false} EarlierVerdict(w: Stream, data: Bytes, payload: Bytes, pos: int)
    requires Buffered(w, data) && w.status == Open && payload != [] && pos < |data|
    ensures ObserveOverlap(w, |w.payload| + (pos - |data|), payload).status == PayloadVerdict(w, data, payload, pos)
  {
    hide Wrap, Disagrees;
    DisagreementIsDifference(w.payload, data, w.bufferOffset, pos, payload);
    assert |w.payload| + (pos - |data|) == pos - w.bufferOffset;
  }

  lemma {:induction false} LaterVerdict(w: Stream, data: Bytes, payload: Bytes, pos: int)
    requires Buffered(w, data) && w.status == Open && payload != [] && pos >= |data|
    ensures PayloadVerdict(w, data, payload, pos) == if pos > |data| then Gap else AppendPayload(w, payload).status
  {
    hide Wrap, AppendPayload;
    AppendBuffers(w, data, payload);
  }

  lemma {:induction false} CloseVerdictHolds(v: Stream, data: Bytes, isn: nat, seg: Segment, end: int)
    requires Represents(v, data, isn) && v.status == Open
    requires Wrap(isn + end - (v.lastPayloadSequence + |seg.payload|)) == 0 && -HALF_RANGE < end - |data| < HALF_RANGE
    requires v.next.None? ==> seg.payload == [] && Wrap(isn) == v.lastPayloadSequence
    ensures ObserveClose(v, seg).status == CloseVerdict(seg, end, |data|)
  {
    hide SequenceDelta;
    var finSequence := Wrap(v.lastPayloadSequence + |seg.payload|);
    if v.next.Some? {
      WrapDifference(isn + end, v.lastPayloadSequence + |seg.payload|);
      hide Wrap;
      DistanceIsDelta(v.next.value, isn, |data|, finSequence, end);
    } else {
      OnlyZero(isn, end);
    }
  }

  lemma {:induction false} WrapDifference(a: int, b: int)
    requires Wrap(a - b) == 0
    ensures Wrap(a - Wrap(b)) == 0
  { }

  /**
   * At exactly half the circle a position says nothing, and the stream is given up, but
   * for a bare RST or nothing at all.
   */
  lemma {:induction false} HalfwayIsAmbiguous(s: Stream, data: Bytes, isn: nat, seg: Segment)
    requires Represents(s, data, isn) && s.status == Open && s.next.Some? && !seg.fragmented && !Restarts(s, seg)
    requires Wrap(isn + |data| + HALF_RANGE - Position(seg)) == 0
    ensures Observe(Some(s), seg).status ==
            if seg.payload != [] then Ambiguous else if seg.rst then Reset else if seg.fin then Ambiguous else Open
  {
    hide Wrap, SequenceDelta, AppendPayload, ObserveOverlap;
    HalfwayDelta(s.next.value, isn + |data|, Position(seg));
    WrapShift(seg.sequence + if seg.syn then 1 else 0, 0);
  }

  lemma {:induction false} HalfwayDelta(next: nat, count: nat, sequence: nat)
    requires next == Wrap(count) && Wrap(count + HALF_RANGE - sequence) == 0
    ensures SequenceDelta(sequence, next).None?
  {
    var a, b := count / MODULUS, (count + HALF_RANGE - sequence) / MODULUS;
    assert count == a * MODULUS + next && count + HALF_RANGE - sequence == b * MODULUS;
    WrapPeriod(HALF_RANGE, a - b);
    assert sequence - next == HALF_RANGE + (a - b) * MODULUS;
    WrapSmall(HALF_RANGE);
  }

  /**
   * A FIN that closed the stream may come again only without its bytes: with them the
   * same segment ends the readable stream.
   */
  lemma {:induction false} FinAgain(s: Stream, seg: Segment)
    requires s.Valid() && s.status == Open && seg.fin && Observe(Some(s), seg).Valid()
             && Observe(Some(s), seg).status == Fin
    ensures var r := Observe(Some(s), seg);
            var again := Observe(Some(r), seg);
            && again.status == (if seg.payload != [] || seg.syn then AfterClose else Fin)
            && (again.Readable() <==> seg.payload == [] && !seg.syn)
            && again.payload == r.payload && again.next == r.next && again.ConsumedOffset() == r.ConsumedOffset()
  {
    hide Observe;
    FailureIsFinal(Observe(Some(s), seg), seg);
  }

  /** One byte and a FIN, twice: closed by the first, unreadable after the second. */
  lemma {:induction false} FinTwice()
    ensures var seg := Segment(7, false, true, false, [1], false);
            var r := Observe(Some(UNSEEN), seg);
            && r.status == Fin && r.payload == [1] && r.Readable()
            && Observe(Some(r), seg).status == AfterClose && !Observe(Some(r), seg).Readable()
  {
    var seg := Segment(7, false, true, false, [1], false);
    var r := Observe(Some(UNSEEN), seg);
    assert r.next == Some(9) && r.status == Fin;
  }

  /** The stream once it has noted a segment's numbers. */
  function Arrived(s: Stream, seg: Segment): Stream
  {
    s.(lastRelation := Empty, lastSequence := seg.sequence, lastPayloadSequence := Position(seg),
       lastPayloadLength := |seg.payload|, lastDelta := None)
  }

  lemma {:induction false} WrapPeriod(a: int, k: int)
    ensures Wrap(a + k * MODULUS) == Wrap(a)
  { }

  lemma {:induction false} WrapSmall(a: int)
    requires -MODULUS <= a < MODULUS
    ensures Wrap(a) == if a < 0 then a + MODULUS else a
  { }

  lemma {:induction false} DistanceIsDelta(next: nat, isn: nat, count: nat, sequence: nat, pos: int)
    requires next == Wrap(isn + count)
    requires Wrap(isn + pos - sequence) == 0 && -HALF_RANGE < pos - count < HALF_RANGE
    ensures SequenceDelta(sequence, next) == Some(pos - count)
  {
    var a, b := (isn + count) / MODULUS, (isn + pos - sequence) / MODULUS;
    assert isn + count == a * MODULUS + next;
    assert isn + pos - sequence == b * MODULUS;
    WrapPeriod(pos - count, a - b);
    assert sequence - next == (pos - count) + (a - b) * MODULUS;
    WrapSmall(pos - count);
  }

  lemma {:induction false} DisagreementIsDifference(buffer: Bytes, data: Bytes, floor: nat, pos: int, payload: Bytes)
    requires floor <= |data| && buffer == data[floor..]
    ensures Disagrees(buffer, pos - floor, payload)
       <==> exists p :: Max(pos, floor) <= p < Min(pos + |payload|, |data|) && data[p] != payload[p - pos]
  {
    var offset := pos - floor;
    if Disagrees(buffer, offset, payload) {
      var k :| 0 <= k < |buffer| && offset <= k < offset + |payload| && buffer[k] != payload[k - offset];
      var p := k + floor;
      assert data[p] != payload[p - pos];
    }
    if exists p :: Max(pos, floor) <= p < Min(pos + |payload|, |data|) && data[p] != payload[p - pos] {
      var p :| Max(pos, floor) <= p < Min(pos + |payload|, |data|) && data[p] != payload[p - pos];
      var k := p - floor;
      assert buffer[k] != payload[k - offset];
    }
  }

  /**
   * Bytes still in the buffer may be sent again any number of times without
   * effect on them; a FIN they carry closes the stream if they reach its end.
   */
  lemma {:induction false} RetransmissionIsHarmless(s: Stream, data: Bytes, isn: nat, seg: Segment, pos: nat)
    requires Represents(s, data, isn) && s.status == Open && s.next.Some? && !seg.fragmented && !Restarts(s, seg)
    requires seg.payload != [] && Wrap(isn + pos - Position(seg)) == 0
    requires s.bufferOffset <= pos && pos + |seg.payload| <= |data| && data[pos..pos + |seg.payload|] == seg.payload
    ensures var r := Observe(Some(s), seg);
            && r.status == CloseVerdict(seg, pos + |seg.payload|, |data|)
            && r.lastRelation == Duplicate && r.payload == s.payload && r.start == s.start
            && (r.status != Fin ==> r.next == s.next)
            && r.ConsumedOffset() == s.ConsumedOffset() && r.bufferOffset == s.bufferOffset
  {
    hide Observe, Wrap, SequenceDelta, ObserveClose, AppendPayload;
    var v := Arrived(s, seg);
    NextInRange(s, data, isn);
    WrapShift(seg.sequence + if seg.syn then 1 else 0, 0);
    RelabelRepresents(s, v, data, isn);
    PositionIsDelta(v, data, isn, pos);
    DisagreementIsDifference(s.payload, data, s.bufferOffset, pos, seg.payload);
    forall p | Max(pos, s.bufferOffset) <= p < Min(pos + |seg.payload|, |data|)
      ensures data[p] == seg.payload[p - pos]
    {
      assert data[pos..pos + |seg.payload|][p - pos] == data[p];
    }
    var u := ObservePayload(v, seg.payload);
    assert u == v.(lastDelta := Some(pos - |data|), lastRelation := Duplicate);
    ReadsOn(s, seg);
    RelabelRepresents(v, u, data, isn);
    CloseVerdictHolds(u, data, isn, seg, pos + |seg.payload|);
    CloseKeeps(u, seg);
    CloseMovesNext(u, seg);
  }

  lemma {:induction false} ReadsOn(s: Stream, seg: Segment)
    requires s.Valid() && s.status == Open && s.next.Some? && !seg.fragmented && !Restarts(s, seg)
    ensures Observe(Some(s), seg) == ReadSegment(Arrived(s, seg), seg)
  {
    hide ObservePayload, ObserveClose;
  }

  lemma {:induction false} CloseMovesNext(v: Stream, seg: Segment)
    ensures ObserveClose(v, seg).status != Fin ==> ObserveClose(v, seg).next == v.next
    ensures ObserveClose(v, seg).lastRelation == v.lastRelation
  { }

  // ---------------------------------------------------------------- whole runs

  /** What can happen to one direction: a segment arrives, or its reader takes some bytes. */
  datatype Event = Arrive(seg: Segment) | Read(count: int)

  function Apply(s: Stream, e: Event): (r: Stream)
    requires s.Valid()
  {
    match e
    case Arrive(seg) => Observe(Some(s), seg)
    case Read(count) => match Consume(s, count) case Ok(after) => after case Err(_) => s
  }

  function DataAfter(s: Stream, data: Bytes, e: Event): Bytes
    requires s.Valid()
  {
    match e
    case Arrive(seg) => Grown(s, data, seg)
    case Read(_) => data
  }

  /** A run beside the bytes it has accepted and the number of the first one. */
  datatype Run = Run(stream: Stream, data: Bytes, isn: nat)

  function RunStep(r: Run, e: Event): Run
    requires r.stream.Valid()
  {
    Run(Apply(r.stream, e), DataAfter(r.stream, r.data, e), if e.Arrive? then Anchor(r.stream, r.isn, e.seg) else r.isn)
  }

  lemma {:induction false} StepRepresents(r: Run, e: Event)
    requires Represents(r.stream, r.data, r.isn)
    ensures Represents(RunStep(r, e).stream, RunStep(r, e).data, RunStep(r, e).isn)
    ensures r.data <= RunStep(r, e).data
    ensures e.Arrive? ==> RunStep(r, e).stream.ConsumedOffset() == r.stream.ConsumedOffset()
    ensures r.stream.status != Open ==> RunStep(r, e).data == r.data && RunStep(r, e).stream.status != Open
  {
    if e.Arrive? {
      hide Observe;
      ObserveRepresents(r.stream, r.data, r.isn, e.seg);
      if r.stream.status != Open { FailureIsFinal(r.stream, e.seg); }
    }
  }

  /** A stream that is no longer open never is again, and its bytes never change. */
  lemma {:induction false} FailureIsFinal(s: Stream, seg: Segment)
    requires s.Valid() && s.status != Open
    ensures var r := Observe(Some(s), seg);
            && r.status == (if (s.status == Fin || s.status == Reset) && (seg.payload != [] || seg.syn) then AfterClose
                            else s.status)
            && r.payload == s.payload && r.bufferOffset == s.bufferOffset && r.consumed == s.consumed
            && r.next == s.next && r.lastDelta.None?
            && r.lastRelation == (if seg.payload != [] || (r.status == AfterClose && s.status != AfterClose)
                                  then Unavailable else Empty)
  { }

  ghost function RunAll(events: seq<Event>): (r: Run)
    ensures Represents(r.stream, r.data, r.isn)
  {
    if events == [] then Run(UNSEEN, [], 0)
    else
      var before := RunAll(events[..|events| - 1]);
      StepRepresents(before, events[|events| - 1]);
      RunStep(before, events[|events| - 1])
  }

  /**
   * On every run of arrivals and reads the buffer is a bounded window on the
   * accepted bytes, and the unread bytes are all of those not yet consumed.
   */
  lemma {:induction false} EveryRunIsAWindow(events: seq<Event>)
    ensures var r := RunAll(events);
            && |r.stream.payload| <= MAX_BYTES
            && r.stream.payload == r.data[r.stream.bufferOffset..]
            && r.stream.ConsumedOffset() <= |r.data|
            && r.stream.Unconsumed() == r.data[r.stream.ConsumedOffset()..]
            && (r.stream.status == Open && r.data != [] ==> r.stream.next == Some(Wrap(r.isn + |r.data|)))
  {
    hide RunAll, Wrap;
    var r := RunAll(events);
    UnreadIs(r.stream, r.data, r.isn);
  }

  /** Reading takes exactly what it is given; nothing else moves the reading position. */
  lemma {:induction false} StepReads(r: Run, e: Event)
    requires Represents(r.stream, r.data, r.isn)
    ensures var r' := RunStep(r, e);
            r'.stream.ConsumedOffset() == r.stream.ConsumedOffset()
              + if e.Read? && Consume(r.stream, e.count).Ok? then e.count else 0
    ensures !r.stream.Readable() ==> !RunStep(r, e).stream.Readable()
  {
    hide Wrap;
    if e.Arrive? {
      hide Observe;
      StepRepresents(r, e);
      if r.stream.status != Open { FailureIsFinal(r.stream, e.seg); }
    }
  }

  lemma {:induction false} RunsGrow(events: seq<Event>, more: seq<Event>)
    ensures var r, r' := RunAll(events), RunAll(events + more);
            && r.data <= r'.data && r.stream.ConsumedOffset() <= r'.stream.ConsumedOffset()
            && (r'.stream.Readable() ==> r.stream.Readable())
    decreases |more|
  {
    hide RunAll, RunStep, Represents, Stream.Readable, Stream.ConsumedOffset;
    if more == [] {
      assert events + more == events;
    } else {
      var init, e := more[..|more| - 1], more[|more| - 1];
      RunsGrow(events, init);
      RunMore(events + init, e);
      StepRepresents(RunAll(events + init), e);
      StepReads(RunAll(events + init), e);
      assert events + more == events + init + [e];
    }
  }

  /** Whatever happens later, an accepted byte stays at its place among the unread bytes until it is consumed. */
  lemma {:induction false} AcceptedStaysUnread(events: seq<Event>, more: seq<Event>)
    ensures var r, r' := RunAll(events), RunAll(events + more);
            && r.data <= r'.data && r.stream.ConsumedOffset() <= r'.stream.ConsumedOffset()
            && r'.stream.Unconsumed() == r'.data[r'.stream.ConsumedOffset()..]
            && (forall p :: r'.stream.ConsumedOffset() <= p < |r.data|
                  ==> r'.stream.Unconsumed()[p - r'.stream.ConsumedOffset()] == r.data[p])
            && (r'.stream.Readable() ==> r.stream.Readable())
  {
    hide RunAll, Represents, Stream.Readable;
    RunsGrow(events, more);
    EveryRunIsAWindow(events + more);
  }

  lemma {:induction false} RunMore(events: seq<Event>, e: Event)
    ensures RunAll(events).stream.Valid() && RunAll(events + [e]) == RunStep(RunAll(events), e)
  {
    hide RunStep, Numbered;
    var all := events + [e];
    assert all[..|events|] == events && all[|events|] == e;
  }

  lemma {:induction false} AcceptedIsReadable(s: Stream, seg: Segment)
    requires s.Valid() && Accepts(s, seg)
    requires s.next.Some? ==> s.next.value < MODULUS
    ensures Observe(Some(s), seg).Readable()
  {
    hide Reclaim, Wrap, SequenceDelta;
    var v := Arrived(s, seg);
    var t := if seg.syn && v.syn.None? then v.(syn := Some(seg.sequence), next := Some(Position(seg))) else v;
    if t.next.Some? { DeltaZero(t.lastPayloadSequence, t.next.value); }
    var w := if t.next.None? then t else t.(lastDelta := Some(0));
    AcceptedAppends(w, seg.payload);
    var u := AppendPayload(w, seg.payload);
    assert u == ObservePayload(t, seg.payload);
    DeltaZero(u.next.value, u.next.value);
  }

  lemma {:induction false} AcceptedAppends(v: Stream, payload: Bytes)
    requires v.Valid() && v.status == Open && payload != [] && Fits(v, |payload|)
    ensures var u := AppendPayload(v, payload);
            && u.status == Open && u.next == Some(Wrap(v.lastPayloadSequence + |payload|))
            && u.lastPayloadSequence == v.lastPayloadSequence
  { }

  lemma {:induction false} AcceptsOpen(s: Stream, seg: Segment)
    requires s.Valid() && Accepts(s, seg)
    ensures s.status == Open
  { }

  lemma {:induction false} ConsumedRepresents(s: Stream, data: Bytes, isn: nat, count: nat)
    requires Represents(s, data, isn) && count <= |s.payload| - s.consumed
    ensures Represents(s.(consumed := s.consumed + count), data, isn)
  { }

  /**
   * `consume_tcp_stream`: it fails exactly when the stream cannot be read or more
   * is asked for than is unread; else it takes the front of the unread bytes.
   */
  lemma {:induction false} ConsumeRepresents(s: Stream, data: Bytes, isn: nat, count: int)
    requires Represents(s, data, isn)
    ensures Consume(s, count).Ok? <==> s.Readable() && 0 <= count <= |data| - s.ConsumedOffset()
    ensures Consume(s, count) == Err(UnavailableStream) <==> !s.Readable()
    ensures Consume(s, count).Ok? ==>
              var r := Consume(s, count).value;
              && Represents(r, data, isn) && r.ConsumedOffset() == s.ConsumedOffset() + count
              && r.Unconsumed() == data[s.ConsumedOffset() + count..] && s.Unconsumed() == data[s.ConsumedOffset()..]
              && r.status == s.status && r.payload == s.payload && r.next == s.next && r.start == s.start
  {
    hide Represents;
    UnreadIs(s, data, isn);
    if Consume(s, count).Ok? {
      ConsumedRepresents(s, data, isn, count);
      UnreadIs(s.(consumed := s.consumed + count), data, isn);
    }
  }

  lemma {:induction false} UnreadIs(s: Stream, data: Bytes, isn: nat)
    requires Represents(s, data, isn)
    ensures s.Valid() && s.ConsumedOffset() <= |data| && |data| - s.ConsumedOffset() == |s.payload| - s.consumed
    ensures s.Unconsumed() == data[s.ConsumedOffset()..]
  {
    hide Numbered;
    TailOfTail(data, s.bufferOffset, s.consumed);
  }

  // ---------------------------------------------------------------- the opening SYN

  /** A segment that says anything about the sequence numbers of its bytes. */
  predicate Speaks(seg: Segment) { seg.syn || seg.payload != [] }

  /** The first segment of a run that says anything about sequence numbers. */
  ghost function Opening(events: seq<Event>): Option<Segment>
  {
    if events == [] then None
    else if events[0].Arrive? && Speaks(events[0].seg) then Some(events[0].seg)
    else Opening(events[1..])
  }

  /** The sequence number of the SYN that opened a run, if one did. */
  ghost function OpeningSyn(events: seq<Event>): Option<nat>
  {
    var o := Opening(events);
    if o.Some? && o.value.syn then Some(o.value.sequence) else None
  }

  lemma {:induction false} OpeningMore(events: seq<Event>, e: Event)
    ensures Opening(events + [e]) ==
            if Opening(events).Some? then Opening(events)
            else if e.Arrive? && Speaks(e.seg) then Some(e.seg) else None
  {
    var all := events + [e];
    if events == [] {
      assert all[1..] == [];
    } else {
      assert all[1..] == events[1..] + [e];
      OpeningMore(events[1..], e);
    }
  }

  /** A run has noted the segment that opened it, and numbers its bytes from there. */
  ghost predicate Remembers(r: Run, o: Option<Segment>)
  {
    && (r.stream.next.Some? <==> o.Some?)
    && r.stream.syn == (if o.Some? && o.value.syn then Some(o.value.sequence) else None)
    && (o.Some? ==> r.isn == Position(o.value))
  }

  /** While a run is open, its stream knows the segment that opened it. */
  lemma {:induction false} OpeningIsRemembered(events: seq<Event>)
    ensures RunAll(events).stream.status == Open ==> Remembers(RunAll(events), Opening(events))
    decreases |events|
  {
    hide RunAll, Observe, Represents, Opening, Wrap, Remembers, RunStep, Speaks;
    if events == [] {
      NothingRemembered();
    } else {
      var less, e := events[..|events| - 1], events[|events| - 1];
      OpeningIsRemembered(less);
      OpeningMore(less, e);
      RunMore(less, e);
      assert less + [e] == events;
      StepRepresents(RunAll(less), e);
      if RunAll(events).stream.status == Open { StepRemembers(RunAll(less), Opening(less), e); }
    }
  }

  lemma {:induction false} NothingRemembered()
    ensures Remembers(RunAll([]), Opening([]))
  { }

  lemma {:induction false} StepRemembers(r: Run, o: Option<Segment>, e: Event)
    requires Represents(r.stream, r.data, r.isn) && r.stream.status == Open && Remembers(r, o)
    requires RunStep(r, e).stream.status == Open
    ensures Remembers(RunStep(r, e), if o.Some? then o else if e.Arrive? && Speaks(e.seg) then Some(e.seg) else None)
  {
    hide Observe, Represents, Wrap;
    NextInRange(r.stream, r.data, r.isn);
    if e.Arrive? { OpeningStep(r.stream, r.data, r.isn, e.seg); }
  }

  lemma {:induction false} OpeningStep(s: Stream, data: Bytes, isn: nat, seg: Segment)
    requires Represents(s, data, isn) && s.status == Open
    ensures s.next.None? ==> s.syn.None?
    ensures var r := Observe(Some(s), seg);
            r.status == Open ==>
              && (r.next.Some? <==> s.next.Some? || Speaks(seg))
              && r.syn == if s.next.None? && seg.syn then Some(seg.sequence) else s.syn
  {
    hide Wrap, SequenceDelta, ObservePayload, ObserveClose;
    if seg.fragmented || Restarts(s, seg) {
      ClosedKeeps(s, seg);
    } else {
      var v := Arrived(s, seg);
      var t := if seg.syn && v.syn.None? then v.(syn := Some(seg.sequence), next := Some(Position(seg))) else v;
      assert Observe(Some(s), seg) == ReadSegment(t, seg);
      ReadKeepsSyn(t, seg);
    }
  }

  lemma {:induction false} ReadKeepsSyn(v: Stream, seg: Segment)
    requires v.Valid() && v.status == Open
    ensures var r := ReadSegment(v, seg);
            && r.syn == v.syn
            && (r.status == Open ==> (r.next.Some? <==> v.next.Some? || seg.payload != []))
  {
    hide Wrap, SequenceDelta, Disagrees;
  }

  /** Which SYN is a second beginning, by the segments alone. */
  lemma {:induction false} RestartsExactly(events: seq<Event>, seg: Segment)
    requires RunAll(events).stream.status == Open
    ensures Restarts(RunAll(events).stream, seg)
       <==> seg.syn && Opening(events).Some? && OpeningSyn(events) != Some(seg.sequence)
  {
    hide RunAll, Opening;
    OpeningIsRemembered(events);
  }

  /**
   * A SYN on an open stream, by the segments that came before it: another number
   * than that of the opening SYN ends the stream, the same number leaves its bytes
   * alone, and with it the payload that the first of them brought.
   */
  lemma {:induction false} SynVerdict(events: seq<Event>, seg: Segment)
    requires RunAll(events).stream.status == Open && Opening(events).Some? && seg.syn && !seg.fragmented
    ensures var r, r' := RunAll(events), RunAll(events + [Arrive(seg)]);
            if OpeningSyn(events) != Some(seg.sequence) then
              r'.stream.status == Restart && r'.data == r.data && r'.stream.payload == r.stream.payload
            else
              && (seg.payload == [] && !seg.rst && !seg.fin ==>
                    && r'.stream.status == Open && r'.data == r.data && r'.stream.payload == r.stream.payload
                    && r'.stream.next == r.stream.next && r'.stream.syn == r.stream.syn
                    && r'.stream.ConsumedOffset() == r.stream.ConsumedOffset())
              && (seg.payload != [] && r.stream.bufferOffset == 0 && seg.payload <= r.data ==>
                    && r'.stream.status == CloseVerdict(seg, |seg.payload|, |r.data|)
                    && r'.stream.payload == r.stream.payload && r'.stream.lastRelation == Duplicate
                    && r'.stream.ConsumedOffset() == r.stream.ConsumedOffset())
  {
    hide RunAll, Opening, Observe, Wrap, Represents;
    var r := RunAll(events);
    OpeningIsRemembered(events);
    RunMore(events, Arrive(seg));
    RestartsExactly(events, seg);
    NextInRange(r.stream, r.data, r.isn);
    if OpeningSyn(events) != Some(seg.sequence) {
      RefusedWhole(r.stream, seg);
      ClosedKeeps(r.stream, seg);
    } else if seg.payload == [] {
      if !seg.rst && !seg.fin { SynAgain(r.stream, seg); }
    } else if r.stream.bufferOffset == 0 && seg.payload <= r.data {
      SamePosition(Opening(events).value, seg);
      WrapZero(r.isn);
      RetransmissionIsHarmless(r.stream, r.data, r.isn, seg, 0);
    }
  }

  lemma {:induction false} WrapZero(a: int)
    ensures Wrap(a + 0 - a) == 0
  { }

  lemma {:induction false} SamePosition(a: Segment, b: Segment)
    requires a.syn && b.syn && a.sequence == b.sequence
    ensures Position(a) == Position(b)
  { }

  /** The opening SYN once more, with nothing else in it. */
  lemma {:induction false} SynAgain(s: Stream, seg: Segment)
    requires s.Valid() && s.status == Open && s.next.Some? && seg.syn && s.syn == Some(seg.sequence)
    requires seg.payload == [] && !seg.rst && !seg.fin && !seg.fragmented
    ensures Observe(Some(s), seg) == Arrived(s, seg)
  {
    hide ObservePayload;
  }

  lemma {:induction false} StartsUnseen()
    ensures RunAll([]) == Run(UNSEEN, [], 0)
  { }

  lemma {:induction false} SynOnce(seg: Segment)
    requires seg == Segment(seg.sequence, true, false, false, [], false) && seg.sequence + 1 < MODULUS
    ensures var r := Observe(Some(UNSEEN), seg);
            r.Valid() && r.status == Open && r.syn == Some(seg.sequence) && r.next == Some(seg.sequence + 1)
  { }

  lemma {:induction false} TwoSegments(a: Segment, b: Segment)
    ensures Observe(Some(UNSEEN), a).Valid()
    ensures RunAll([Arrive(a), Arrive(b)]).stream == Observe(Some(Observe(Some(UNSEEN), a)), b)
  {
    hide RunAll, Observe, Represents;
    StartsUnseen();
    RunMore([], Arrive(a));
    assert [] + [Arrive(a)] == [Arrive(a)] && [Arrive(a)] + [Arrive(b)] == [Arrive(a), Arrive(b)];
    RunMore([Arrive(a)], Arrive(b));
  }

  /** An ordinary retransmitted SYN, and one with another number. */
  lemma {:induction false} SynTwice()
    ensures var syn, other := Segment(7, true, false, false, [], false), Segment(8, true, false, false, [], false);
            var twice := RunAll([Arrive(syn), Arrive(syn)]).stream;
            && twice.status == Open && twice.Readable() && twice.syn == Some(7) && twice.next == Some(8)
            && RunAll([Arrive(syn), Arrive(other)]).stream.status == Restart
  {
    hide RunAll, Observe;
    var syn, other := Segment(7, true, false, false, [], false), Segment(8, true, false, false, [], false);
    var once := Observe(Some(UNSEEN), syn);
    SynOnce(syn);
    TwoSegments(syn, syn);
    TwoSegments(syn, other);
    SynAgain(once, syn);
    RefusedWhole(once, other);
  }

  // ---------------------------------------------------------------- when consumed bytes are forgotten

  /** A payload that belongs right behind the accepted bytes. */
  predicate IsNext(v: Stream, payload: Bytes)
  {
    payload != [] && (v.next.None? || SequenceDelta(v.lastPayloadSequence, v.next.value) == Some(0))
  }

  predicate RoomIsShort(s: Stream, more: nat) { s.consumed > 0 && |s.payload| + more > MAX_BYTES }

  lemma {:induction false} ReadForgets(v: Stream, seg: Segment)
    requires v.Valid() && v.status == Open
    ensures var r := ReadSegment(v, seg);
            if IsNext(v, seg.payload) && RoomIsShort(v, |seg.payload|) then
              && r.bufferOffset == v.ConsumedOffset() && r.consumed == 0
              && (!Fits(v, |seg.payload|) ==> r.status == LimitExceeded)
            else r.bufferOffset == v.bufferOffset && r.consumed == v.consumed
  {
    hide Wrap, SequenceDelta, Disagrees;
  }

  /** Consumed bytes leave the buffer only for a segment that needs their room: the next one, read in its turn. */
  lemma {:induction false} ForgetsOnlyForRoom(s: Stream, data: Bytes, isn: nat, seg: Segment)
    requires Represents(s, data, isn)
    ensures var r := Observe(Some(s), seg);
            if RoomIsShort(s, |seg.payload|)
               && (Accepts(s, seg) || (s.status == Open && r.status == LimitExceeded)) then
              r.bufferOffset == s.ConsumedOffset() && r.consumed == 0
            else r.bufferOffset == s.bufferOffset && r.consumed == s.consumed
  {
    hide Observe, ReadSegment, Represents, SequenceDelta, IsNext;
    NextInRange(s, data, isn);
    if s.status != Open || seg.fragmented || Restarts(s, seg) {
      ClosedKeeps(s, seg);
    } else {
      var t := Begun(s, seg);
      ReadsBegun(s, seg);
      NextIsNext(s, data, isn, seg, t);
      ReadForgets(t, seg);
      LimitIsForNext(t, seg);
      hide Restarts;
    }
  }

  /** The stream once it has noted a segment's numbers, and the SYN if it is the first one. */
  function Begun(s: Stream, seg: Segment): (t: Stream)
    ensures t.payload == s.payload && t.consumed == s.consumed && t.bufferOffset == s.bufferOffset
    ensures t.status == s.status && t.start == s.start && t.lastPayloadSequence == Position(seg)
    ensures t.next == if seg.syn && s.syn.None? then Some(Position(seg)) else s.next
    ensures t.syn == if seg.syn && s.syn.None? then Some(seg.sequence) else s.syn
  {
    var v := Arrived(s, seg);
    if seg.syn && v.syn.None? then v.(syn := Some(seg.sequence), next := Some(Position(seg))) else v
  }

  lemma {:induction false} ReadsBegun(s: Stream, seg: Segment)
    requires s.Valid() && s.status == Open && !seg.fragmented && !Restarts(s, seg)
    ensures Begun(s, seg).Valid() && Observe(Some(s), seg) == ReadSegment(Begun(s, seg), seg)
  {
    hide ObservePayload, ObserveClose;
  }

  lemma {:induction false} NextIsNext(s: Stream, data: Bytes, isn: nat, seg: Segment, t: Stream)
    requires Represents(s, data, isn) && s.status == Open && !seg.fragmented && !Restarts(s, seg)
    requires t.lastPayloadSequence == Position(seg)
    requires t.next == if seg.syn && s.syn.None? then Some(Position(seg)) else s.next
    ensures s.Valid()
    ensures Accepts(s, seg) <==> IsNext(t, seg.payload) && Fits(s, |seg.payload|)
  {
    hide SequenceDelta, Fits;
    NextInRange(s, data, isn);
    if t.next.Some? { DeltaZero(t.lastPayloadSequence, t.next.value); }
  }

  lemma {:induction false} LimitIsForNext(v: Stream, seg: Segment)
    requires v.Valid() && v.status == Open
    ensures ReadSegment(v, seg).status == LimitExceeded ==> IsNext(v, seg.payload) && !Fits(v, |seg.payload|)
  {
    hide Wrap, SequenceDelta, Disagrees;
  }

  /** As long as all accepted bytes fit in the buffer, and it has not overflowed, all of them are still there. */
  lemma {:induction false} NothingForgotten(events: seq<Event>)
    requires |RunAll(events).data| <= MAX_BYTES && RunAll(events).stream.status != LimitExceeded
    ensures RunAll(events).stream.bufferOffset == 0 && RunAll(events).stream.payload == RunAll(events).data
    decreases |events|
  {
    hide RunAll, Observe, Represents, Wrap, Accepts;
    if events == [] {
      StartsUnseen();
    } else {
      var less, e := events[..|events| - 1], events[|events| - 1];
      assert less + [e] == events;
      RunMore(less, e);
      var r := RunAll(less);
      StepRepresents(r, e);
      if r.stream.status == LimitExceeded { LimitStays(r, e); }
      NothingForgotten(less);
      if e.Arrive? { NotForgotten(r, e.seg); }
    }
    EveryRunIsAWindow(events);
  }

  lemma {:induction false} LimitStays(r: Run, e: Event)
    requires r.stream.Valid() && r.stream.status == LimitExceeded
    ensures RunStep(r, e).stream.status == LimitExceeded
  {
    hide Observe;
    if e.Arrive? { FailureIsFinal(r.stream, e.seg); }
  }

  lemma {:induction false} NotForgotten(r: Run, seg: Segment)
    requires Represents(r.stream, r.data, r.isn) && r.stream.bufferOffset == 0
    requires Observe(Some(r.stream), seg).status != LimitExceeded
    requires |Grown(r.stream, r.data, seg)| <= MAX_BYTES
    ensures Observe(Some(r.stream), seg).bufferOffset == 0
  {
    hide Wrap, Observe, Accepts, Numbered;
    ForgetsOnlyForRoom(r.stream, r.data, r.isn, seg);
  }

  // ---------------------------------------------------------------- in-order streams

  /** Segments no larger than the buffer: all that IP can carry, and more. */
  ghost predicate Carriable(segments: seq<Segment>)
  {
    forall i :: 0 <= i < |segments| ==> |segments[i].payload| <= MAX_BYTES
  }

  ghost function Payloads(segments: seq<Segment>): Bytes
  {
    if segments == [] then [] else Payloads(segments[..|segments| - 1]) + segments[|segments| - 1].payload
  }

  /**
   * Segments that follow one another from `isn` on: they may begin with a SYN, which may
   * come again at any time, end with a FIN, and carry no bytes at all.
   */
  ghost predicate InOrder(segments: seq<Segment>, isn: nat)
  {
    forall i :: 0 <= i < |segments| ==> InPlace(segments, isn, i)
  }

  ghost predicate InPlace(segments: seq<Segment>, isn: nat, i: nat)
    requires i < |segments|
  {
    var seg := segments[i];
    && !seg.rst && !seg.fragmented && (seg.fin ==> i == |segments| - 1) && |seg.payload| <= MAX_BYTES
    && ((i > 0 && RepeatsSyn(segments[0], seg))
        || ((seg.syn ==> i == 0) && Position(seg) == Wrap(isn + |Payloads(segments[..i])|)))
  }

  /** The opening SYN once more, with nothing else in it. */
  predicate RepeatsSyn(first: Segment, seg: Segment)
  {
    first.syn && seg.syn && seg.sequence == first.sequence && seg.payload == [] && !seg.fin
  }

  /** The number of the SYN that the segments begin with, if they do. */
  function LeadingSyn(segments: seq<Segment>): Option<nat>
  {
    if segments != [] && segments[0].syn then Some(segments[0].sequence) else None
  }

  /** The last segment carries a FIN. */
  predicate Closes(segments: seq<Segment>) { segments != [] && segments[|segments| - 1].fin }

  lemma {:induction false} InPlacePrefix(segments: seq<Segment>, isn: nat, n: nat)
    requires n <= |segments| && InOrder(segments, isn)
    ensures InOrder(segments[..n], isn) && Carriable(segments[..n])
    ensures n < |segments| ==> !Closes(segments[..n])
  {
    forall i | 0 <= i < n ensures InPlace(segments[..n], isn, i) {
      assert InPlace(segments, isn, i);
      assert segments[..n][..i] == segments[..i];
    }
    forall i | 0 <= i < n ensures |segments[..n][i].payload| <= MAX_BYTES { assert InPlace(segments, isn, i); }
    if 0 < n < |segments| { assert InPlace(segments, isn, n - 1); }
  }

  lemma {:induction false} LastInOrder(segments: seq<Segment>, isn: nat)
    requires InOrder(segments, isn) && segments != []
    ensures var less, seg := segments[..|segments| - 1], segments[|segments| - 1];
            && !seg.rst && !seg.fragmented && |seg.payload| <= MAX_BYTES
            && ((less != [] && RepeatsSyn(less[0], seg))
                || ((seg.syn ==> less == []) && Position(seg) == Wrap(isn + |Payloads(less)|)))
            && Payloads(segments) == Payloads(less) + seg.payload
            && Closes(segments) == seg.fin
            && LeadingSyn(segments) == if seg.syn then Some(seg.sequence) else LeadingSyn(less)
  {
    hide Wrap;
    assert InPlace(segments, isn, |segments| - 1);
  }

  /** The segment is the next one, or the opening SYN again. */
  predicate Comes(s: Stream, count: nat, isn: nat, seg: Segment)
  {
    || (s.syn.Some? && RepeatsSyn(seg.(sequence := s.syn.value), seg))
    || ((seg.syn ==> s.next.None?) && Position(seg) == Wrap(isn + count))
  }

  lemma {:induction false} LastComes(s: Stream, segments: seq<Segment>, isn: nat)
    requires InOrder(segments, isn) && segments != []
    requires var less := segments[..|segments| - 1]; s.syn == LeadingSyn(less) && (less == [] ==> s.next.None?)
    ensures Comes(s, |Payloads(segments[..|segments| - 1])|, isn, segments[|segments| - 1])
  {
    hide Wrap, Payloads;
    LastInOrder(segments, isn);
  }

  /**
   * One more segment in its place: accepted if the unread bytes leave room for it, and
   * otherwise the end of the stream. A FIN in its place closes it, and the opening SYN
   * does nothing when it comes again.
   */
  lemma {:induction false} InPlaceStep(s: Stream, data: Bytes, seg: Segment, isn: nat, isn0: nat)
    requires Represents(s, data, isn0) && s.status == Open
    requires if s.next.None? then data == [] else isn0 == Wrap(isn)
    requires !seg.rst && !seg.fragmented && |seg.payload| <= MAX_BYTES
    requires Comes(s, |data|, isn, seg)
    ensures var fits := |data| - s.ConsumedOffset() + |seg.payload| <= MAX_BYTES;
            && Grown(s, data, seg) == (if fits then data + seg.payload else data)
            && Observe(Some(s), seg).status == (if !fits then LimitExceeded else if seg.fin then Fin else Open)
            && Observe(Some(s), seg).syn == if seg.syn then Some(seg.sequence) else s.syn
    ensures Anchor(s, isn0, seg) == Wrap(isn)
  {
    hide Wrap, Observe;
    NextInRange(s, data, isn0);
    if seg.payload == [] { assert data + seg.payload == data; }
    if s.next.Some? && seg.syn {
      SynAgain(s, seg);
    } else {
      NextStep(s, data, seg, isn, isn0);
    }
  }

  lemma {:induction false} NextStep(s: Stream, data: Bytes, seg: Segment, isn: nat, isn0: nat)
    requires Represents(s, data, isn0) && s.status == Open && (seg.syn ==> s.next.None?)
    requires if s.next.None? then data == [] else isn0 == Wrap(isn)
    requires !seg.rst && !seg.fragmented && |seg.payload| <= MAX_BYTES
    requires Position(seg) == Wrap(isn + |data|)
    ensures var fits := |data| - s.ConsumedOffset() + |seg.payload| <= MAX_BYTES;
            && Grown(s, data, seg) == (if fits then data + seg.payload else data)
            && Observe(Some(s), seg).status == (if !fits then LimitExceeded else if seg.fin then Fin else Open)
            && Observe(Some(s), seg).syn == if seg.syn then Some(seg.sequence) else s.syn
    ensures Anchor(s, isn0, seg) == Wrap(isn)
  {
    hide Wrap, Observe, Represents;
    NextInRange(s, data, isn0);
    WrapShift(isn + |data|, 0);
    BackToStart(isn, |data|);
    SegmentVerdict(s, data, isn0, seg, |data|);
    InPlaceFits(s, data, isn0, seg, isn);
    SynIsTaken(s, data, isn0, seg);
    if seg.payload == [] { assert data + seg.payload == data; }
  }

  lemma {:induction false} SynIsTaken(s: Stream, data: Bytes, isn: nat, seg: Segment)
    requires Represents(s, data, isn) && s.status == Open && !seg.fragmented && (seg.syn ==> s.next.None?)
    ensures Observe(Some(s), seg).syn == if seg.syn then Some(seg.sequence) else s.syn
  {
    hide Observe, ReadSegment, Buffered, Wrap;
    NextInRange(s, data, isn);
    ReadsBegun(s, seg);
    ReadKeepsSyn(Begun(s, seg), seg);
  }

  lemma {:induction false} BackToStart(isn: nat, count: nat)
    ensures Wrap(Wrap(isn) + count - Wrap(isn + count)) == 0
  {
    WrapDifference(isn + count, isn + count);
    var a, b := (isn + count) / MODULUS, isn / MODULUS;
    assert Wrap(isn) + count - Wrap(isn + count) == (a - b) * MODULUS;
    WrapPeriod(0, a - b);
  }

  lemma {:induction false} InPlaceFits(s: Stream, data: Bytes, isn0: nat, seg: Segment, isn: nat)
    requires Represents(s, data, isn0) && s.status == Open && !seg.fragmented
    requires if s.next.None? then data == [] else isn0 == Wrap(isn) && !seg.syn
    requires Position(seg) == Wrap(isn + |data|)
    ensures Anchor(s, isn0, seg) == Wrap(isn) && |data| - s.ConsumedOffset() <= MAX_BYTES
    ensures Accepts(s, seg) <==> seg.payload != [] && |data| - s.ConsumedOffset() + |seg.payload| <= MAX_BYTES
  {
    hide Wrap;
    WrapShift(isn, |data|);
  }
}
