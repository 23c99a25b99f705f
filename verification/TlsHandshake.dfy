/**
 * TLS handshake messages, which run across record boundaries: the payloads of
 * the handshake records of one direction, framed once more.
 */
module TlsHandshake {
  import opened Common
  import opened Framing
  import T = TcpStream
  import opened StreamRefinement
  import SF = StreamFraming

  /** Type and a three-byte length (section 4 of RFC 8446). */
  const HANDSHAKE := Config(4, 1, 262144)

  const HANDSHAKE_RECORD := 22

  /** A complete TLS record and how far its direction had been consumed when it was emitted. */
  datatype Record = Record(consumedOffset: nat, frame: Frame)

  datatype Observation = Observation(
    consumedOffset: nat, prefix: Bytes, header: Option<Bytes>, payload: Bytes, reason: Option<T.Status>)

  datatype HandshakeError = LostObservation | Backwards

  datatype Handshakes = Handshakes(observation: Option<Observation>, messages: seq<Frame>)

  predicate IsHandshake(f: Frame) { |f.header| > 0 && f.header[0] == HANDSHAKE_RECORD }

  /** The bytes that the handshake records among these carry. */
  ghost function Carried(frames: seq<Frame>): Bytes
  {
    if frames == [] then []
    else
      var f := frames[|frames| - 1];
      Carried(frames[..|frames| - 1]) + if IsHandshake(f) then f.payload else []
  }

  ghost function Frames(records: seq<Record>): (r: seq<Frame>)
    ensures |r| == |records|
  {
    seq(|records|, i requires 0 <= i < |records| => records[i].frame)
  }

  function ParserOf(o: Option<Observation>): Parser
  {
    if o.None? then START
    else Parser(o.value.prefix, o.value.header, o.value.payload,
                o.value.header.Some? && Declared(HANDSHAKE, o.value.header.value) > HANDSHAKE.limit)
  }

  ghost predicate Sound(o: Option<Observation>)
  {
    && WellFormed(HANDSHAKE, ParserOf(o))
    && (o.Some? && ParserOf(o).failed ==> o.value.reason.Some?)
  }

  /** Records at or before the point already handled have been seen. */
  predicate Seen(o: Option<Observation>, r: Record) { o.Some? && r.consumedOffset <= o.value.consumedOffset }

  /** The records that have not been handled yet. */
  ghost function Unseen(o: Option<Observation>, records: seq<Record>): seq<Record>
  {
    if records == [] then []
    else
      var last := records[|records| - 1];
      Unseen(o, records[..|records| - 1]) + if Seen(o, last) then [] else [last]
  }

  /** What the unhandled records among these make of a parser. */
  ghost function After(o: Option<Observation>, p: Parser, records: seq<Record>): (r: Output)
    requires WellFormed(HANDSHAKE, p)
    ensures WellFormed(HANDSHAKE, r.parser)
  {
    Feed(HANDSHAKE, p, Carried(Frames(Unseen(o, records))))
  }

  lemma {:induction false} CarriedConcat(a: seq<Frame>, b: seq<Frame>)
    ensures Carried(a + b) == Carried(a) + Carried(b)
  {
    if b == [] {
      assert a + b == a;
    } else {
      assert (a + b)[..|a + b| - 1] == a + b[..|b| - 1];
      CarriedConcat(a, b[..|b| - 1]);
    }
  }

  /** One more record adds its payload, nothing if it is seen or carries something else. */
  lemma {:induction false} CarriedMore(o: Option<Observation>, records: seq<Record>, k: nat)
    requires k < |records|
    ensures Carried(Frames(Unseen(o, records[..k + 1])))
         == Carried(Frames(Unseen(o, records[..k])))
            + if Seen(o, records[k]) || !IsHandshake(records[k].frame) then [] else records[k].frame.payload
  {
    var more, less := Unseen(o, records[..k + 1]), Unseen(o, records[..k]);
    assert records[..k + 1][..k] == records[..k];
    assert more == less + if Seen(o, records[k]) then [] else [records[k]];
    if Seen(o, records[k]) {
      assert more == less;
    } else {
      assert Frames(more) == Frames(less) + [records[k].frame];
      assert Frames(more)[..|Frames(more)| - 1] == Frames(less);
    }
  }

  lemma {:induction false} AfterMore(o: Option<Observation>, p: Parser, records: seq<Record>, k: nat)
    requires WellFormed(HANDSHAKE, p) && k < |records|
    ensures var more := if Seen(o, records[k]) || !IsHandshake(records[k].frame) then [] else records[k].frame.payload;
            var before := After(o, p, records[..k]);
            && After(o, p, records[..k + 1]).parser == Feed(HANDSHAKE, before.parser, more).parser
            && After(o, p, records[..k + 1]).frames == before.frames + Feed(HANDSHAKE, before.parser, more).frames
  {
    CarriedMore(o, records, k);
    FeedConcat(HANDSHAKE, p, Carried(Frames(Unseen(o, records[..k]))),
               if Seen(o, records[k]) || !IsHandshake(records[k].frame) then [] else records[k].frame.payload);
  }

  /** After a refused message length nothing else is looked at. */
  lemma {:induction false} AfterFailure(o: Option<Observation>, p: Parser, records: seq<Record>, k: nat)
    requires WellFormed(HANDSHAKE, p) && k <= |records| && After(o, p, records[..k]).parser.failed
    ensures After(o, p, records).parser == After(o, p, records[..k]).parser
    ensures After(o, p, records).frames == After(o, p, records[..k]).frames
    decreases |records| - k
  {
    hide After;
    assert records[..|records|] == records;
    if k < |records| {
      AfterMore(o, p, records, k);
      FailedIgnores(HANDSHAKE, After(o, p, records[..k]).parser,
                    if Seen(o, records[k]) || !IsHandshake(records[k].frame) then [] else records[k].frame.payload);
      AfterFailure(o, p, records, k + 1);
    }
  }

  /** What one direction makes of one update of its records. */
  ghost function Spec(current: Option<Observation>, framing: SF.Observation,
          records: seq<Record>): (r: (Observation, seq<Frame>))
    requires Sound(current)
    ensures Sound(Some(r.0))
  {
    var p := ParserOf(current);
    var reason := if current.Some? then current.value.reason else None;
    var fed := if reason.Some? then Output(p, []) else After(current, p, records);
    var q := fed.parser;
    var reason' := if reason.Some? then reason else if q.failed then Some(T.LimitExceeded) else framing.reason;
    (Observation(framing.stream.ConsumedOffset(), q.prefix, q.header, q.payload, reason'), fed.frames)
  }

  /** `_frame_direction`: every new handshake record's payload continues the parser. */
  method FrameDirection(current: Option<Observation>, framing: Option<SF.Observation>, records: seq<Record>)
    returns (r: Result<Handshakes, HandshakeError>)
    requires Sound(current)
    ensures framing.None? ==> r == if current.Some? then Err(LostObservation) else Ok(Handshakes(None, []))
    ensures framing.Some? ==>
              if current.Some? && framing.value.stream.ConsumedOffset() < current.value.consumedOffset
                 then r == Err(Backwards)
              else r == Ok(Handshakes(Some(Spec(current, framing.value, records).0),
                                      Spec(current, framing.value, records).1))
  {
    if framing.None? {
      if current.Some? { return Err(LostObservation); }
      return Ok(Handshakes(None, []));
    }
    if current.Some? && framing.value.stream.ConsumedOffset() < current.value.consumedOffset {
      return Err(Backwards);
    }
    hide After, Feed, WellFormed, Declared;
    var p, messages := ParserOf(current), [];
    var reason := if current.Some? then current.value.reason else None;
    if reason.None? {
      p, messages := ReadRecords(current, p, records);
      if p.failed { reason := Some(T.LimitExceeded); }
    }
    if reason.None? { reason := framing.value.reason; }
    r := Ok(Handshakes(
      Some(Observation(framing.value.stream.ConsumedOffset(), p.prefix, p.header, p.payload, reason)), messages));
  }

  /** The loop over records; the inner loop over one payload is the framing loop itself. */
  method ReadRecords(current: Option<Observation>, first: Parser, records: seq<Record>)
    returns (p: Parser, messages: seq<Frame>)
    requires WellFormed(HANDSHAKE, first) && !first.failed
    ensures WellFormed(HANDSHAKE, p)
    ensures p == After(current, first, records).parser && messages == After(current, first, records).frames
  {
    hide Feed, WellFormed, After;
    p, messages := first, [];
    AfterNothing(current, first, records);
    var k := 0;
    while k < |records| && !p.failed
      invariant 0 <= k <= |records|
      invariant WellFormed(HANDSHAKE, p)
      invariant p == After(current, first, records[..k]).parser
      invariant messages == After(current, first, records[..k]).frames
    {
      var record := records[k];
      AfterMore(current, first, records, k);
      FeedNothing(HANDSHAKE, p);
      assert messages + [] == messages;
      k := k + 1;
      if Seen(current, record) { continue; }
      if !IsHandshake(record.frame) { continue; }
      var more, offset;
      p, more, offset := Advance(HANDSHAKE, p, record.frame.payload);
      messages := messages + more;
    }
    if p.failed { AfterFailure(current, first, records, k); }
    assert records[..|records|] == records;
  }

  lemma {:induction false} AfterNothing(o: Option<Observation>, p: Parser, records: seq<Record>)
    requires WellFormed(HANDSHAKE, p)
    ensures After(o, p, records[..0]).parser == p && After(o, p, records[..0]).frames == []
  {
    assert records[..0] == [];
    assert Frames(Unseen(o, [])) == [];
  }

  // ---------------------------------------------------------------- replays

  lemma {:induction false} AllSeen(o: Option<Observation>, records: seq<Record>)
    requires forall i :: 0 <= i < |records| ==> Seen(o, records[i])
    ensures Unseen(o, records) == []
  {
    if records != [] { AllSeen(o, records[..|records| - 1]); }
  }

  lemma {:induction false} NoneSeen(o: Option<Observation>, records: seq<Record>)
    requires forall i :: 0 <= i < |records| ==> !Seen(o, records[i])
    ensures Unseen(o, records) == records
  {
    if records != [] { NoneSeen(o, records[..|records| - 1]); }
  }

  /** Presenting records again that an update has already handled emits nothing and changes nothing. */
  lemma {:induction false} ReplayIsInvisible(current: Option<Observation>, framing: SF.Observation,
          records: seq<Record>)
    requires Sound(current)
    requires forall i :: 0 <= i < |records| ==> records[i].consumedOffset <= framing.stream.ConsumedOffset()
    ensures var once := Spec(current, framing, records);
            Spec(Some(once.0), framing, records) == (once.0, [])
  {
    hide Feed, WellFormed, Declared;
    var once := Spec(current, framing, records);
    AllSeen(Some(once.0), records);
    assert Frames([]) == [];
    FeedNothing(HANDSHAKE, ParserOf(Some(once.0)));
    StoredParser(current, framing, records);
  }

  /** The observation stores the parser it reached. */
  lemma {:induction false} StoredParser(current: Option<Observation>, framing: SF.Observation, records: seq<Record>)
    requires Sound(current)
    ensures ParserOf(Some(Spec(current, framing, records).0)) ==
            (if current.Some? && current.value.reason.Some? then ParserOf(current)
             else After(current, ParserOf(current), records).parser)
  {
    hide Feed;
  }

  // ---------------------------------------------------------------- both layers on a stream

  datatype Layers = Layers(records: SF.Session, handshake: Option<Observation>, messages: seq<Frame>)

  const IDLE := Layers(SF.IDLE, None, [])

  function Batch(offset: nat, frames: seq<Frame>): (r: seq<Record>)
    ensures |r| == |frames|
    ensures forall i :: 0 <= i < |r| ==> r[i] == Record(offset, frames[i])
  {
    seq(|frames|, i requires 0 <= i < |frames| => Record(offset, frames[i]))
  }

  /** One packet: the buffer, then the records, then the messages in them. */
  ghost function Deliver(l: Layers, seg: T.Segment): Layers
    requires Sound(l.handshake) && SF.Sound(SF.TLS, l.records.observation)
    requires l.records.stream.Valid() && T.Observe(Some(l.records.stream), seg).Valid()
  {
    var (o, frames) := SF.FrameSpec(SF.TLS, l.records.observation, T.Observe(Some(l.records.stream), seg));
    var (h, more) := Spec(l.handshake, o, Batch(o.stream.ConsumedOffset(), frames));
    Layers(SF.Deliver(SF.TLS, l.records, seg), Some(h), l.messages + more)
  }

  /** Messages and unfinished message are those of all handshake bytes in these records. */
  ghost predicate FeedsAll(h: Option<Observation>, messages: seq<Frame>, records: seq<Frame>)
  {
    && WellFormed(HANDSHAKE, START)
    && var whole := Feed(HANDSHAKE, START, Carried(records));
       ParserOf(h) == whole.parser && messages == whole.frames
  }

  /** The handshake layer is as far as the record layer, and fails for its own limit or for that one's reason. */
  ghost predicate Level(h: Option<Observation>, records: SF.Session)
  {
    && (h.None? <==> records.observation.None?)
    && (h.Some? ==>
          && h.value.consumedOffset == records.stream.ConsumedOffset()
          && h.value.reason == if ParserOf(h).failed then Some(T.LimitExceeded) else records.observation.value.reason)
  }

  ghost predicate Follows(l: Layers)
  {
    SF.Follows(SF.TLS, l.records) && Sound(l.handshake) && FeedsAll(l.handshake, l.messages, l.records.frames)
      && Level(l.handshake, l.records)
  }

  /** Records are only emitted by an update that consumes something. */
  lemma {:induction false} EmittingConsumes(current: Option<SF.Observation>, stream: T.Stream)
    requires SF.Sound(SF.TLS, current) && stream.Valid()
    ensures var (o, frames) := SF.FrameSpec(SF.TLS, current, stream);
            frames != [] ==> o.stream.ConsumedOffset() > stream.ConsumedOffset()
  {
    hide Feed, Taken, WellFormed;
    FramesNeedBytes(SF.TLS, SF.ParserOf(SF.TLS, current), stream.Unconsumed());
  }

  /** So a new batch is never mistaken for an old one. */
  lemma {:induction false} NewBatchIsUnseen(l: Layers, seg: T.Segment)
    requires Follows(l) && |seg.payload| <= T.MAX_BYTES
    ensures l.records.stream.Valid() && T.Observe(Some(l.records.stream), seg).Valid()
    ensures var (o, frames) := SF.FrameSpec(SF.TLS, l.records.observation, T.Observe(Some(l.records.stream), seg));
            var batch := Batch(o.stream.ConsumedOffset(), frames);
            Unseen(l.handshake, batch) == batch
  {
    hide Feed, Taken, T.Observe, Numbered, T.Wrap, Grown, SF.Follows, SF.FrameSpec, SF.Sound, FeedsAll, Sound,
         ParserOf, Unseen;
    SF.FollowsIsSettled(SF.TLS, l.records);
    NextInRange(l.records.stream, l.records.data, l.records.isn);
    ObserveRepresents(l.records.stream, l.records.data, l.records.isn, seg);
    var s' := T.Observe(Some(l.records.stream), seg);
    EmittingConsumes(l.records.observation, s');
    var (o, frames) := SF.FrameSpec(SF.TLS, l.records.observation, s');
    NoneSeen(l.handshake, Batch(o.stream.ConsumedOffset(), frames));
  }

  /** The handshake layer by itself: a new batch continues the feeding of all handshake bytes. */
  lemma {:induction false} BatchContinues(h: Option<Observation>, o: SF.Observation, batch: seq<Record>,
          done: seq<Frame>, messages: seq<Frame>)
    requires Sound(h) && FeedsAll(h, messages, done) && Unseen(h, batch) == batch
    requires h.Some? && h.value.reason.Some? ==> ParserOf(h).failed || batch == []
    ensures var (h', more) := Spec(h, o, batch);
            && FeedsAll(Some(h'), messages + more, done + Frames(batch))
            && (ParserOf(h).failed ==> ParserOf(Some(h')).failed)
  {
    hide Feed, WellFormed, Declared, Carried;
    var frames := Frames(batch);
    CarriedConcat(done, frames);
    FeedConcat(HANDSHAKE, START, Carried(done), Carried(frames));
    StoredParser(h, o, batch);
    if ParserOf(h).failed {
      FailedIgnores(HANDSHAKE, ParserOf(h), Carried(frames));
    } else if batch == [] {
      NothingCarried();
      FeedNothing(HANDSHAKE, ParserOf(h));
    }
    assert messages + [] == messages;
  }

  lemma {:induction false} NothingCarried()
    ensures Carried([]) == [] && Frames([]) == []
  { }

  /** Why the handshake layer gives up: its own limit, or else what the records report. */
  lemma {:induction false} ReasonsComeFrom(h: Option<Observation>, before: Option<T.Status>, o: SF.Observation,
          batch: seq<Record>)
    requires Sound(h) && (before.Some? ==> o.reason == before)
    requires h.Some? ==> h.value.reason == if ParserOf(h).failed then Some(T.LimitExceeded) else before
    ensures var h' := Spec(h, o, batch).0;
            && h'.consumedOffset == o.stream.ConsumedOffset()
            && h'.reason == if ParserOf(Some(h')).failed then Some(T.LimitExceeded) else o.reason
  {
    hide Feed, WellFormed;
    StoredParser(h, o, batch);
  }

  lemma {:induction false} DeliverFollows(l: Layers, seg: T.Segment)
    requires Follows(l) && |seg.payload| <= T.MAX_BYTES
    ensures l.records.stream.Valid() && T.Observe(Some(l.records.stream), seg).Valid()
    ensures Follows(Deliver(l, seg))
  {
    hide Feed, Taken, T.Observe, SF.FrameSpec, T.Wrap, Declared, SF.Follows, SF.Sound, Spec, Sound, FeedsAll, ParserOf,
         Unseen, Carried,
         Grown, Represents, WellFormed;
    SF.FollowsIsSettled(SF.TLS, l.records);
    NewBatchIsUnseen(l, seg);
    SF.DeliverFollows(SF.TLS, l.records, seg);
    var (o, frames) := SF.FrameSpec(SF.TLS, l.records.observation, T.Observe(Some(l.records.stream), seg));
    var batch := Batch(o.stream.ConsumedOffset(), frames);
    assert Frames(batch) == frames;
    UnavailableStays(l.records.observation, T.Observe(Some(l.records.stream), seg));
    BatchContinues(l.handshake, o, batch, l.records.frames, l.messages);
    ReasonsComeFrom(l.handshake, if l.handshake.Some? then l.records.observation.value.reason else None, o, batch);
  }

  lemma {:induction false} UnavailableStays(current: Option<SF.Observation>, stream: T.Stream)
    requires SF.Sound(SF.TLS, current) && stream.Valid()
    ensures current.Some? && current.value.reason.Some? ==>
              && SF.FrameSpec(SF.TLS, current, stream).0.reason == current.value.reason
              && SF.FrameSpec(SF.TLS, current, stream).1 == []
  { }

  ghost function Run(segments: seq<T.Segment>): (l: Layers)
    requires Carriable(segments)
    ensures Follows(l) && l.records == SF.Sessions(SF.TLS, segments)
  {
    if segments == [] then
      IdleFollows();
      IDLE
    else
      var before := Run(segments[..|segments| - 1]);
      var seg := segments[|segments| - 1];
      DeliverFollows(before, seg);
      Deliver(before, seg)
  }

  lemma {:induction false} IdleFollows()
    ensures Follows(IDLE)
  {
    hide Feed, Declared, SF.Follows;
    assert SF.Sessions(SF.TLS, []) == SF.IDLE;
    FeedNothing(HANDSHAKE, START);
    assert Carried([]) == [];
  }

  /**
   * Segmentation independence through both layers: over any run of segments
   * the records are those of the accepted bytes taken at once, and the
   * messages and the unfinished message are those of the handshake bytes these
   * records carry, taken at once.
   */
  lemma {:induction false} BothLayersAreOneFeed(segments: seq<T.Segment>)
    requires Carriable(segments)
    ensures var l := Run(segments);
            && WellFormed(SF.TLS, START) && WellFormed(HANDSHAKE, START)
            && (var records := Feed(SF.TLS, START, l.records.data);
                var whole := Feed(HANDSHAKE, START, Carried(records.frames));
                && l.records.frames == records.frames
                && l.messages == whole.frames && ParserOf(l.handshake) == whole.parser
                && (l.handshake.Some? ==>
                      && l.records.observation.Some?
                      && l.handshake.value.reason
                         == if whole.parser.failed then Some(T.LimitExceeded) else l.records.observation.value.reason))
  {
    hide Feed, WellFormed, Run, SF.Sessions, SF.Follows, Carried, ParserOf;
    SF.StartIsWellFormed(HANDSHAKE);
    SF.SessionIsOneFeed(SF.TLS, segments);
  }

  /**
   * In-order streams, whether or not a record or a message is refused: records,
   * messages and both unfinished parsers are those of all bytes taken at once.
   */
  lemma {:induction false} InOrderIsDelivered(segments: seq<T.Segment>, isn: nat)
    requires InOrder(segments, isn)
    ensures Carriable(segments) && WellFormed(SF.TLS, START) && WellFormed(HANDSHAKE, START)
    ensures var l, records := Run(segments), Feed(SF.TLS, START, Payloads(segments));
            var whole := Feed(HANDSHAKE, START, Carried(records.frames));
            && l.records.frames == records.frames && SF.ParserOf(SF.TLS, l.records.observation) == records.parser
            && l.messages == whole.frames && ParserOf(l.handshake) == whole.parser
  {
    hide Feed, WellFormed, Run, SF.Sessions, SF.Follows, Carried, ParserOf, SF.ParserOf, InOrder, Payloads;
    SF.InOrderIsDelivered(SF.TLS, segments, isn);
    SF.SessionIsOneFeed(SF.TLS, segments);
    BothLayersAreOneFeed(segments);
  }

  /** Two in-order chunkings of the same bytes cannot be told apart by either layer, whatever these bytes are. */
  lemma {:induction false} SegmentationIsInvisible(a: seq<T.Segment>, i: nat, b: seq<T.Segment>, j: nat)
    requires InOrder(a, i) && InOrder(b, j) && Payloads(a) == Payloads(b)
    ensures Carriable(a) && Carriable(b)
    ensures Run(a).records.frames == Run(b).records.frames && Run(a).messages == Run(b).messages
    ensures SF.ParserOf(SF.TLS, Run(a).records.observation) == SF.ParserOf(SF.TLS, Run(b).records.observation)
    ensures ParserOf(Run(a).handshake) == ParserOf(Run(b).handshake)
  {
    hide *;
    InOrderIsDelivered(a, i);
    InOrderIsDelivered(b, j);
  }

  /**
   * Handshake messages cut into records cut into segments come out whole, whatever the
   * cuts and the records between.
   */
  lemma {:induction false} HandshakeRoundTrip(messages: seq<Frame>, records: seq<Frame>, segments: seq<T.Segment>,
          isn: nat)
    requires AllLegal(HANDSHAKE, messages) && AllLegal(SF.TLS, records)
    requires Carried(records) == Encode(messages)
    requires InOrder(segments, isn) && Payloads(segments) == Encode(records)
    ensures Carriable(segments)
    ensures Run(segments).records.frames == records && Run(segments).messages == messages
    ensures ParserOf(Run(segments).handshake) == START
  {
    hide Feed, Run, SF.Sessions, InOrder, Payloads, Carried, Encode, AllLegal;
    SF.WireRoundTrip(SF.TLS, records, segments, isn);
    BothLayersAreOneFeed(segments);
    FeedEncoding(HANDSHAKE, messages);
  }
}
