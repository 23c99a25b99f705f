/**
 * DNS messages over TCP and TLS records: the framer of one direction, fed by
 * the bounded buffer of that direction and consuming what it takes.
 */
module StreamFraming {
  import opened Common
  import opened Framing
  import T = TcpStream
  import opened StreamRefinement

  /** Two length bytes (section 4.2.2 of RFC 1035); any 16-bit length is within the message limit. */
  const DNS := Config(2, 0, 65535)

  /** Type, version and length (section 5.1 of RFC 8446); the bound of section 6.2.3 of RFC 5246. */
  const TLS := Config(5, 3, 18432)

  datatype Observation = Observation(
    stream: T.Stream, prefix: Bytes, header: Option<Bytes>, payload: Bytes, reason: Option<T.Status>)

  datatype FramingStatus = Ready | Incomplete | Unavailable

  datatype FramingError = LostObservation | Discontinuous

  datatype Framed = Framed(observation: Option<Observation>, frames: seq<Frame>)

  function StatusOf(o: Observation): FramingStatus
  {
    if o.reason.Some? then Unavailable
    else if o.prefix != [] || o.header.Some? then Incomplete
    else Ready
  }

  /** The parser an observation stores: it has failed exactly when its header declares too much. */
  function ParserOf(cfg: Config, o: Option<Observation>): Parser
  {
    if o.None? then START
    else Parser(o.value.prefix, o.value.header, o.value.payload,
                o.value.header.Some? && Declared(cfg, o.value.header.value) > cfg.limit)
  }

  ghost predicate Sound(cfg: Config, o: Option<Observation>)
  {
    && cfg.Valid()
    && (o.Some? && o.value.header.Some? ==> |o.value.header.value| == cfg.headerSize)
    && WellFormed(cfg, ParserOf(cfg, o))
    && (o.Some? && ParserOf(cfg, o).failed ==> o.value.reason.Some?)
  }

  /** What one direction makes of its stream. */
  ghost function FrameSpec(cfg: Config, current: Option<Observation>, stream: T.Stream): (r: (Observation, seq<Frame>))
    requires Sound(cfg, current) && stream.Valid()
    ensures Sound(cfg, Some(r.0)) && r.0.stream.Valid()
  {
    var p := ParserOf(cfg, current);
    var reason := if current.Some? then current.value.reason else None;
    if reason.None? && stream.Readable() then
      var fed := Feed(cfg, p, stream.Unconsumed());
      var q := fed.parser;
      (Observation(stream.(consumed := stream.consumed + Taken(cfg, p, stream.Unconsumed())), q.prefix, q.header,
                   q.payload,
                   if q.failed then Some(T.LimitExceeded) else None), fed.frames)
    else
      (Observation(stream, p.prefix, p.header, p.payload, if reason.Some? then reason else Some(stream.status)), [])
  }

  /** `_frame_direction` of both framers. */
  method FrameDirection(cfg: Config, current: Option<Observation>, stream: Option<T.Stream>)
    returns (r: Result<Framed, FramingError>)
    requires Sound(cfg, current) && (stream.Some? ==> stream.value.Valid())
    ensures stream.None? ==> r == if current.Some? then Err(LostObservation) else Ok(Framed(None, []))
    ensures stream.Some? ==>
              if current.Some? && stream.value.ConsumedOffset() != current.value.stream.ConsumedOffset()
                 then r == Err(Discontinuous)
              else r == Ok(Framed(Some(FrameSpec(cfg, current, stream.value).0),
                                  FrameSpec(cfg, current, stream.value).1))
  {
    hide Feed, Taken, T.Observe, Declared;
    if stream.None? {
      if current.Some? { return Err(LostObservation); }
      return Ok(Framed(None, []));
    }
    var s := stream.value;
    if current.Some? && s.ConsumedOffset() != current.value.stream.ConsumedOffset() {
      return Err(Discontinuous);
    }
    var p := ParserOf(cfg, current);
    var reason := if current.Some? then current.value.reason else None;
    if !s.Readable() && reason.None? { reason := Some(s.status); }
    var frames: seq<Frame> := [];
    if reason.None? {
      var offset;
      p, frames, offset := Advance(cfg, p, s.Unconsumed());
      if p.failed { reason := Some(T.LimitExceeded); }
      s := T.Consume(s, offset).value;
    }
    r := Ok(Framed(Some(Observation(s, p.prefix, p.header, p.payload, reason)), frames));
  }

  // ---------------------------------------------------------------- runs of one direction

  /** A direction after some segments; `data` and `isn` are the unbounded stream it stands for. */
  datatype Session = Session(stream: T.Stream, observation: Option<Observation>, frames: seq<Frame>, data: Bytes,
          isn: nat)

  const IDLE := Session(T.UNSEEN, None, [], [], 0)

  /** One packet of the direction: the buffer first, then the framer, which leaves the stream consumed. */
  ghost function Deliver(cfg: Config, s: Session, seg: T.Segment): Session
    requires Sound(cfg, s.observation) && s.stream.Valid() && T.Observe(Some(s.stream), seg).Valid()
  {
    var (o, frames) := FrameSpec(cfg, s.observation, T.Observe(Some(s.stream), seg));
    Session(o.stream, Some(o), s.frames + frames, Grown(s.stream, s.data, seg), Anchor(s.stream, s.isn, seg))
  }

  /** Why a direction can no longer be framed: its own limit, or what became of the stream. */
  function Reported(failed: bool, stream: T.Stream): Option<T.Status>
  {
    if failed then Some(T.LimitExceeded) else if stream.Readable() then None else Some(stream.status)
  }

  /** Framing follows the whole unbounded stream: no byte is skipped, read twice or left waiting. */
  ghost predicate Follows(cfg: Config, s: Session)
  {
    && Sound(cfg, s.observation)
    && Represents(s.stream, s.data, s.isn)
    && (var whole := Feed(cfg, START, s.data);
        && ParserOf(cfg, s.observation) == whole.parser
        && s.frames == whole.frames
        && s.stream.ConsumedOffset() == Taken(cfg, START, s.data)
        && (s.observation.None? ==> s.stream == T.UNSEEN)
        && (s.observation.Some? ==> s.observation.value.stream == s.stream)
        && (s.observation.Some? ==> s.observation.value.reason == Reported(whole.parser.failed, s.stream))
        && (s.stream.status == T.LimitExceeded ==> whole.parser.failed))
  }

  /** With nothing left unread, a segment of at most a buffer's size never exceeds the buffer. */
  lemma {:induction false} LimitNeedsBacklog(s: T.Stream, seg: T.Segment)
    requires s.Valid() && s.status != T.LimitExceeded && |seg.payload| <= T.MAX_BYTES
    requires s.status == T.Open ==> s.consumed == |s.payload|
    ensures T.Observe(Some(s), seg).status != T.LimitExceeded
  { }

  lemma {:induction false} StartIsWellFormed(cfg: Config)
    requires cfg.Valid()
    ensures WellFormed(cfg, START) && !START.failed
  { }

  /** When everything before was consumed, the unread bytes are exactly the ones the segment added. */
  lemma {:induction false} UnreadIsNew(s: T.Stream, data: Bytes, isn: nat, seg: T.Segment)
    requires Represents(s, data, isn) && s.ConsumedOffset() == |data|
    requires |seg.payload| <= T.MAX_BYTES && s.status != T.LimitExceeded
    ensures var r, data' := T.Observe(Some(s), seg), Grown(s, data, seg);
            && Represents(r, data', Anchor(s, isn, seg)) && r.Valid()
            && r.ConsumedOffset() == |data| && data <= data'
            && r.Unconsumed() == data'[|data|..]
            && r.status != T.LimitExceeded
            && (!r.Readable() ==> data' == data)
  {
    hide T.Observe, Numbered, T.Wrap, Accepts;
    var r, data' := T.Observe(Some(s), seg), Grown(s, data, seg);
    ObserveRepresents(s, data, isn, seg);
    NextInRange(s, data, isn);
    LimitNeedsBacklog(s, seg);
    if Accepts(s, seg) {
      AcceptsOpen(s, seg);
      AcceptedIsReadable(s, seg);
    }
    assert data'[r.bufferOffset..][r.consumed..] == data'[r.bufferOffset + r.consumed..];
  }

  /** Feeding what was added continues the feeding of the whole stream. */
  lemma {:induction false} FeedContinues(cfg: Config, data: Bytes, data': Bytes)
    requires cfg.Valid() && data <= data'
    requires WellFormed(cfg, START) && !Feed(cfg, START, data).parser.failed
    ensures var p, more := Feed(cfg, START, data), data'[|data|..];
            && Feed(cfg, START, data').parser == Feed(cfg, p.parser, more).parser
            && Feed(cfg, START, data').frames == p.frames + Feed(cfg, p.parser, more).frames
            && Taken(cfg, START, data') == |data| + Taken(cfg, p.parser, more)
            && Taken(cfg, START, data) == |data|
  {
    hide Feed, Taken, WellFormed;
    FeedConcat(cfg, START, data, data'[|data|..]);
    TakenUnlessFailed(cfg, START, data);
    assert data + data'[|data|..] == data';
  }

  lemma {:induction false} FollowsIsSettled(cfg: Config, s: Session)
    requires Follows(cfg, s)
    ensures WellFormed(cfg, START) && Sound(cfg, s.observation) && Represents(s.stream, s.data, s.isn)
            && s.stream.Valid()
    ensures ParserOf(cfg, s.observation) == Feed(cfg, START, s.data).parser
    ensures s.frames == Feed(cfg, START, s.data).frames && s.stream.ConsumedOffset() == Taken(cfg, START, s.data)
    ensures s.observation.None? || s.observation.value.reason.None? ==>
              s.stream.Readable() && s.stream.status != T.LimitExceeded && !Feed(cfg, START, s.data).parser.failed
  {
    if s.observation.None? {
      assert s.data == [];
    }
  }

  lemma {:induction false} FollowsReports(cfg: Config, s: Session)
    requires Follows(cfg, s) && s.observation.Some?
    ensures WellFormed(cfg, START) && s.observation.value.stream == s.stream
    ensures s.observation.value.reason == Reported(Feed(cfg, START, s.data).parser.failed, s.stream)
  { }

  /** An observation stores its parser completely: failing can be read off the header. */
  function Store(stream: T.Stream, q: Parser): Observation
  {
    Observation(stream, q.prefix, q.header, q.payload, if q.failed then Some(T.LimitExceeded) else None)
  }

  lemma {:induction false} StoreKeepsParser(cfg: Config, stream: T.Stream, q: Parser)
    requires WellFormed(cfg, q)
    ensures Sound(cfg, Some(Store(stream, q))) && ParserOf(cfg, Some(Store(stream, q))) == q
  { }

  lemma {:induction false} FedFollows(cfg: Config, stream: T.Stream, data: Bytes, isn: nat, frames: seq<Frame>)
    requires WellFormed(cfg, START)
    requires Represents(stream, data, isn) && stream.Readable()
    requires stream.ConsumedOffset() == Taken(cfg, START, data) && frames == Feed(cfg, START, data).frames
    ensures Follows(cfg, Session(stream, Some(Store(stream, Feed(cfg, START, data).parser)), frames, data, isn))
  {
    hide Feed, Taken, WellFormed, Represents, Sound, ParserOf;
    StoreKeepsParser(cfg, stream, Feed(cfg, START, data).parser);
  }

  lemma {:induction false} FrameFeeds(cfg: Config, current: Option<Observation>, stream: T.Stream)
    requires Sound(cfg, current) && stream.Valid() && stream.Readable()
    requires current.Some? ==> current.value.reason.None?
    ensures var fed := Feed(cfg, ParserOf(cfg, current), stream.Unconsumed());
            var count := Taken(cfg, ParserOf(cfg, current), stream.Unconsumed());
            && FrameSpec(cfg, current, stream).0 == Store(stream.(consumed := stream.consumed + count), fed.parser)
            && FrameSpec(cfg, current, stream).1 == fed.frames
  {
    hide Feed, Taken, Declared, WellFormed;
  }

  lemma {:induction false} DeliverReadable(cfg: Config, s: Session, seg: T.Segment)
    requires Follows(cfg, s) && |seg.payload| <= T.MAX_BYTES
    requires s.observation.Some? ==> s.observation.value.reason.None?
    requires T.Observe(Some(s.stream), seg).Readable()
    ensures T.Observe(Some(s.stream), seg).Valid() && Follows(cfg, Deliver(cfg, s, seg))
  {
    hide Feed, Taken, WellFormed, T.Observe, Represents, T.Wrap, Grown, Sound, ParserOf, FrameSpec, Follows;
    FollowsIsSettled(cfg, s);
    FeedContinues(cfg, s.data, s.data);
    UnreadIsNew(s.stream, s.data, s.isn, seg);
    var s', data' := T.Observe(Some(s.stream), seg), Grown(s.stream, s.data, seg);
    FeedContinues(cfg, s.data, data');
    FrameFeeds(cfg, s.observation, s');
    var count := Taken(cfg, ParserOf(cfg, s.observation), s'.Unconsumed());
    ConsumedRepresents(s', data', Anchor(s.stream, s.isn, seg), count);
    FedFollows(cfg, s'.(consumed := s'.consumed + count), data', Anchor(s.stream, s.isn, seg),
               Feed(cfg, START, data').frames);
  }

  lemma {:induction false} FrameGivesUp(cfg: Config, current: Option<Observation>, stream: T.Stream)
    requires Sound(cfg, current) && stream.Valid() && !stream.Readable()
    requires current.Some? ==> current.value.reason.None?
    ensures var p := ParserOf(cfg, current);
            && FrameSpec(cfg, current, stream).0
               == Observation(stream, p.prefix, p.header, p.payload, Some(stream.status))
            && FrameSpec(cfg, current, stream).1 == []
  { }

  lemma {:induction false} DeliverBroken(cfg: Config, s: Session, seg: T.Segment)
    requires Follows(cfg, s) && |seg.payload| <= T.MAX_BYTES
    requires s.observation.Some? ==> s.observation.value.reason.None?
    requires !T.Observe(Some(s.stream), seg).Readable()
    ensures T.Observe(Some(s.stream), seg).Valid() && Follows(cfg, Deliver(cfg, s, seg))
  {
    hide Feed, Taken, WellFormed, T.Observe, Represents, T.Wrap, Grown, Sound, ParserOf, FrameSpec, Follows;
    FollowsIsSettled(cfg, s);
    FeedContinues(cfg, s.data, s.data);
    UnreadIsNew(s.stream, s.data, s.isn, seg);
    FrameGivesUp(cfg, s.observation, T.Observe(Some(s.stream), seg));
    assert s.frames + [] == s.frames;
    UnreadableFollows(cfg, s, T.Observe(Some(s.stream), seg), Anchor(s.stream, s.isn, seg));
  }

  /** The stream broke before anything new could be read. */
  lemma {:induction false} UnreadableFollows(cfg: Config, s: Session, stream: T.Stream, isn: nat)
    requires Follows(cfg, s) && (s.observation.Some? ==> s.observation.value.reason.None?)
    requires Represents(stream, s.data, isn) && !stream.Readable() && stream.status != T.LimitExceeded
    requires stream.ConsumedOffset() == s.stream.ConsumedOffset()
    ensures var p := ParserOf(cfg, s.observation);
            Follows(cfg, Session(stream, Some(Observation(stream, p.prefix, p.header, p.payload, Some(stream.status))),
                                 s.frames, s.data, isn))
  {
    hide Feed, Taken, Represents;
    FollowsIsSettled(cfg, s);
  }

  /** Once framing has given up, whatever still arrives is not looked at. */
  lemma {:induction false} DeliverUnavailable(cfg: Config, s: Session, seg: T.Segment)
    requires Follows(cfg, s)
    requires s.observation.Some? && s.observation.value.reason.Some?
    ensures T.Observe(Some(s.stream), seg).Valid() && Follows(cfg, Deliver(cfg, s, seg))
  {
    hide Feed, Taken, WellFormed, T.Observe, Numbered, Buffered, T.Wrap, Accepts;
    FollowsIsSettled(cfg, s);
    NextInRange(s.stream, s.data, s.isn);
    var data' := Grown(s.stream, s.data, seg);
    ObserveRepresents(s.stream, s.data, s.isn, seg);
    NextInRange(T.Observe(Some(s.stream), seg), data', Anchor(s.stream, s.isn, seg));
    assert s.frames + [] == s.frames;
    if Feed(cfg, START, s.data).parser.failed {
      assert data'[..|s.data|] == s.data;
      FailedAfter(cfg, START, data', |s.data|);
    } else {
      FailureIsFinal(s.stream, seg);
      NotOpenNotAccepted(s.stream, seg);
    }
  }

  lemma {:induction false} NotOpenNotAccepted(s: T.Stream, seg: T.Segment)
    requires s.Valid() && s.status != T.Open
    ensures !Accepts(s, seg)
  { }

  ghost function Sessions(cfg: Config, segments: seq<T.Segment>): (s: Session)
    requires cfg.Valid() && Carriable(segments)
    ensures Follows(cfg, s)
  {
    if segments == [] then IDLE
    else
      var before := Sessions(cfg, segments[..|segments| - 1]);
      var seg := segments[|segments| - 1];
      DeliverFollows(cfg, before, seg);
      Deliver(cfg, before, seg)
  }

  lemma {:induction false} DeliverFollows(cfg: Config, s: Session, seg: T.Segment)
    requires Follows(cfg, s) && |seg.payload| <= T.MAX_BYTES
    ensures T.Observe(Some(s.stream), seg).Valid() && Follows(cfg, Deliver(cfg, s, seg))
  {
    hide *;
    FollowsIsSettled(cfg, s);
    if s.observation.Some? && s.observation.value.reason.Some? {
      DeliverUnavailable(cfg, s, seg);
    } else if T.Observe(Some(s.stream), seg).Readable() {
      DeliverReadable(cfg, s, seg);
    } else {
      DeliverBroken(cfg, s, seg);
    }
  }

  /**
   * Over any run of segments, in order or not, the frames emitted and the
   * parser kept are those of the accepted bytes taken at once.
   */
  lemma {:induction false} SessionIsOneFeed(cfg: Config, segments: seq<T.Segment>)
    requires cfg.Valid() && Carriable(segments)
    ensures var s := Sessions(cfg, segments);
            && WellFormed(cfg, START)
            && s.frames == Feed(cfg, START, s.data).frames
            && ParserOf(cfg, s.observation) == Feed(cfg, START, s.data).parser
  {
    hide *;
    StartIsWellFormed(cfg);
    FollowsIsSettled(cfg, Sessions(cfg, segments));
  }

  /**
   * What is reported of a run: it is unavailable once a frame was refused or the stream
   * broke, for that reason, and ready when it stands between two frames.
   */
  lemma {:induction false} StatusIsExact(cfg: Config, segments: seq<T.Segment>)
    requires cfg.Valid() && Carriable(segments) && segments != []
    ensures var s := Sessions(cfg, segments);
            && s.observation.Some? && WellFormed(cfg, START)
            && var o, p := s.observation.value, Feed(cfg, START, s.data).parser;
               && o.reason == (if p.failed then Some(T.LimitExceeded)
                               else if s.stream.Readable() then None else Some(s.stream.status))
               && (StatusOf(o) == Unavailable <==> p.failed || !s.stream.Readable())
               && (StatusOf(o) == Ready <==> !p.failed && s.stream.Readable() && p == START)
  {
    hide Feed, Taken, Represents, T.Observe, Sessions, FrameSpec;
    StartIsWellFormed(cfg);
    SessionsStep(cfg, segments);
    FollowsIsSettled(cfg, Sessions(cfg, segments));
  }

  /** Runs that accept the same bytes cannot be told apart by their framing, however they were cut. */
  lemma {:induction false} SameBytesSameFrames(cfg: Config, a: seq<T.Segment>, b: seq<T.Segment>)
    requires cfg.Valid() && Carriable(a) && Carriable(b)
    requires Sessions(cfg, a).data == Sessions(cfg, b).data
    ensures Sessions(cfg, a).frames == Sessions(cfg, b).frames
    ensures ParserOf(cfg, Sessions(cfg, a).observation) == ParserOf(cfg, Sessions(cfg, b).observation)
  {
    hide *;
    SessionIsOneFeed(cfg, a);
    SessionIsOneFeed(cfg, b);
  }

  /**
   * The framer keeps the buffer drained: while it has not refused a frame
   * itself, everything accepted has been consumed, and the buffer limit cannot
   * have been reached, however long the stream.
   */
  lemma {:induction false} DrainingSuffices(cfg: Config, segments: seq<T.Segment>)
    requires cfg.Valid() && Carriable(segments)
    ensures var s := Sessions(cfg, segments);
            !ParserOf(cfg, s.observation).failed ==>
              && s.stream.ConsumedOffset() == |s.data|
              && s.stream.consumed == |s.stream.payload|
              && s.stream.status != T.LimitExceeded
  {
    hide Feed, Taken, Sessions, Numbered;
    var s := Sessions(cfg, segments);
    FollowsIsSettled(cfg, s);
    TakenUnlessFailed(cfg, START, s.data);
  }

  lemma {:induction false} DnsLengthIsSmall(header: Bytes)
    requires |header| == DNS.headerSize
    ensures Declared(DNS, header) <= DNS.limit
  {
    assert header[0..] == header && header[..1][..0] == [];
    assert BigEndian(header[..1]) == header[0] as int;
  }

  /** A two-byte length cannot exceed the DNS limit, so DNS framing never fails by itself. */
  lemma {:induction false} DnsNeverFails(segments: seq<T.Segment>)
    requires Carriable(segments)
    ensures !ParserOf(DNS, Sessions(DNS, segments).observation).failed
    ensures Sessions(DNS, segments).stream.status != T.LimitExceeded
  {
    hide Feed, Taken, Sessions;
    var o := Sessions(DNS, segments).observation;
    FollowsIsSettled(DNS, Sessions(DNS, segments));
    if o.Some? && o.value.header.Some? { DnsLengthIsSmall(o.value.header.value); }
    DrainingSuffices(DNS, segments);
  }

  // ---------------------------------------------------------------- in-order streams

  /** However long, an in-order stream is accepted whole as long as the framer accepts it. */
  lemma {:induction false} InOrderIsAccepted(cfg: Config, segments: seq<T.Segment>, isn: nat)
    requires cfg.Valid() && InOrder(segments, isn) && WellFormed(cfg, START)
    requires !Feed(cfg, START, Payloads(segments)).parser.failed
    ensures Carriable(segments)
    ensures var s := Sessions(cfg, segments);
            && s.data == Payloads(segments) && s.stream.status == (if Closes(segments) then T.Fin else T.Open)
            && (segments == [] ==> s == IDLE) && (segments != [] ==> s.isn == T.Wrap(isn))
            && s.stream.syn == LeadingSyn(segments)
    decreases |segments|
  {
    hide Feed, Taken, T.Wrap, WellFormed, Sound, Represents, FrameSpec, Follows, InOrder, Sessions;
    assert segments[..|segments|] == segments;
    InPlacePrefix(segments, isn, |segments|);
    NoSegments(cfg);
    if segments != [] {
      var n := |segments| - 1;
      InPlacePrefix(segments, isn, n);
      PrefixDidNotFail(cfg, Payloads(segments[..n]), segments[n].payload);
      InOrderIsAccepted(cfg, segments[..n], isn);
      LastInPlace(cfg, segments, isn);
    }
  }

  lemma {:induction false} NoSegments(cfg: Config)
    requires cfg.Valid()
    ensures Carriable([]) && Sessions(cfg, []) == IDLE
  {
    hide Follows, Deliver, T.Observe;
  }

  /** The next segment in its place is taken whole, as long as nothing is left unread. */
  lemma {:induction false} InPlaceDelivery(cfg: Config, s: Session, seg: T.Segment, isn: nat)
    requires Follows(cfg, s) && s.stream.status == T.Open && s.stream.ConsumedOffset() == |s.data|
    requires s.stream.next.Some? ==> s.isn == T.Wrap(isn)
    requires !seg.rst && !seg.fragmented && |seg.payload| <= T.MAX_BYTES
    requires Comes(s.stream, |s.data|, isn, seg)
    ensures Sound(cfg, s.observation) && s.stream.Valid() && T.Observe(Some(s.stream), seg).Valid()
    ensures var r := Deliver(cfg, s, seg);
            && r.data == s.data + seg.payload && r.stream.status == (if seg.fin then T.Fin else T.Open)
            && r.isn == T.Wrap(isn) && r.stream.syn == if seg.syn then Some(seg.sequence) else s.stream.syn
  {
    hide Feed, Taken, T.Wrap, T.Observe, WellFormed, Sound, ParserOf, Represents, FrameSpec, Follows, Grown, Anchor,
         Position, Comes;
    FollowsIsSettled(cfg, s);
    NextInRange(s.stream, s.data, s.isn);
    DeliverFollows(cfg, s, seg);
    InPlaceStep(s.stream, s.data, seg, isn, s.isn);
    FrameKeepsStatus(cfg, s.observation, T.Observe(Some(s.stream), seg));
  }

  lemma {:induction false} IdleIsUnseen()
    ensures IDLE.stream.next.None? && IDLE.stream.syn.None?
  { }

  lemma {:induction false} LastInPlace(cfg: Config, segments: seq<T.Segment>, isn: nat)
    requires cfg.Valid() && segments != [] && InOrder(segments, isn) && WellFormed(cfg, START)
    requires Carriable(segments) && Carriable(segments[..|segments| - 1])
    requires var less := segments[..|segments| - 1];
             var s := Sessions(cfg, less);
             && !Feed(cfg, START, s.data).parser.failed && s.data == Payloads(less) && s.stream.status == T.Open
             && (less == [] ==> s == IDLE) && (less != [] ==> s.isn == T.Wrap(isn)) && s.stream.syn == LeadingSyn(less)
    ensures var s := Sessions(cfg, segments);
            && s.data == Payloads(segments) && s.stream.status == (if Closes(segments) then T.Fin else T.Open)
            && s.isn == T.Wrap(isn) && s.stream.syn == LeadingSyn(segments)
  {
    hide *;
    var less, seg := segments[..|segments| - 1], segments[|segments| - 1];
    IdleIsUnseen();
    LastInOrder(segments, isn);
    LastComes(Sessions(cfg, less).stream, segments, isn);
    var s := Sessions(cfg, less);
    FollowsIsSettled(cfg, s);
    DrainingSuffices(cfg, less);
    InPlaceDelivery(cfg, s, seg, isn);
    SessionsStep(cfg, segments);
  }

  lemma {:induction false} SessionsStep(cfg: Config, segments: seq<T.Segment>)
    requires cfg.Valid() && Carriable(segments) && segments != []
    ensures Carriable(segments[..|segments| - 1])
    ensures var s, seg := Sessions(cfg, segments[..|segments| - 1]), segments[|segments| - 1];
            && Sound(cfg, s.observation) && s.stream.Valid() && T.Observe(Some(s.stream), seg).Valid()
            && Sessions(cfg, segments) == Deliver(cfg, s, seg)
  {
    hide T.Observe, Follows, Deliver;
    var s := Sessions(cfg, segments[..|segments| - 1]);
    FollowsIsSettled(cfg, s);
    DeliverFollows(cfg, s, segments[|segments| - 1]);
  }

  /** Once a frame is refused, nothing that is still delivered shows. */
  lemma {:induction false} RefusedStays(cfg: Config, segments: seq<T.Segment>)
    requires cfg.Valid() && Carriable(segments) && segments != [] && WellFormed(cfg, START)
    requires Carriable(segments[..|segments| - 1])
    requires Feed(cfg, START, Sessions(cfg, segments[..|segments| - 1]).data).parser.failed
    ensures var less, all := Sessions(cfg, segments[..|segments| - 1]).data, Sessions(cfg, segments).data;
            && Feed(cfg, START, all).parser == Feed(cfg, START, less).parser
            && Feed(cfg, START, all).frames == Feed(cfg, START, less).frames
  {
    hide Feed, WellFormed, T.Observe, Sound, FrameSpec, Follows, Sessions;
    var less, all := Sessions(cfg, segments[..|segments| - 1]).data, Sessions(cfg, segments).data;
    SessionsStep(cfg, segments);
    assert all[..|less|] == less;
    FailedAfter(cfg, START, all, |less|);
  }

  /**
   * An in-order stream of any length is framed as all of its bytes at once, whether or
   * not the framer refuses a frame, and however many of them the buffer then holds.
   */
  lemma {:induction false} InOrderIsDelivered(cfg: Config, segments: seq<T.Segment>, isn: nat)
    requires cfg.Valid() && InOrder(segments, isn)
    ensures Carriable(segments) && WellFormed(cfg, START)
    ensures var s, whole := Sessions(cfg, segments), Feed(cfg, START, Payloads(segments));
            && s.frames == whole.frames && ParserOf(cfg, s.observation) == whole.parser
            && (!whole.parser.failed ==>
                  s.data == Payloads(segments) && s.stream.status == if Closes(segments) then T.Fin else T.Open)
    decreases |segments|
  {
    hide Feed, Taken, T.Wrap, WellFormed, Sound, ParserOf, Represents, FrameSpec, Follows, InOrder, Sessions;
    StartIsWellFormed(cfg);
    assert segments[..|segments|] == segments;
    InPlacePrefix(segments, isn, |segments|);
    SessionIsOneFeed(cfg, segments);
    if !Feed(cfg, START, Payloads(segments)).parser.failed {
      InOrderIsAccepted(cfg, segments, isn);
    } else if segments != [] {
      var less := segments[..|segments| - 1];
      InPlacePrefix(segments, isn, |less|);
      InOrderIsDelivered(cfg, less, isn);
      SessionIsOneFeed(cfg, less);
      if Feed(cfg, START, Payloads(less)).parser.failed {
        RefusedStays(cfg, segments);
        assert Payloads(segments)[..|Payloads(less)|] == Payloads(less);
        FailedAfter(cfg, START, Payloads(segments), |Payloads(less)|);
      } else {
        InOrderIsAccepted(cfg, less, isn);
        LastInPlace(cfg, segments, isn);
      }
    } else {
      NoSegments(cfg);
    }
  }

  /**
   * Two in-order chunkings of the same bytes give the same frames and leave the same
   * parser, whatever these bytes are.
   */
  lemma {:induction false} SegmentationIsInvisible(cfg: Config, a: seq<T.Segment>, i: nat, b: seq<T.Segment>, j: nat)
    requires cfg.Valid() && InOrder(a, i) && InOrder(b, j) && Payloads(a) == Payloads(b)
    ensures Carriable(a) && Carriable(b)
    ensures Sessions(cfg, a).frames == Sessions(cfg, b).frames
    ensures ParserOf(cfg, Sessions(cfg, a).observation) == ParserOf(cfg, Sessions(cfg, b).observation)
  {
    hide *;
    InOrderIsDelivered(cfg, a, i);
    InOrderIsDelivered(cfg, b, j);
  }

  lemma {:induction false} FrameKeepsStatus(cfg: Config, current: Option<Observation>, stream: T.Stream)
    requires Sound(cfg, current) && stream.Valid()
    ensures var r := FrameSpec(cfg, current, stream).0.stream; r.status == stream.status && r.syn == stream.syn
  { }

  lemma {:induction false} PrefixDidNotFail(cfg: Config, data: Bytes, more: Bytes)
    requires WellFormed(cfg, START) && !Feed(cfg, START, data + more).parser.failed
    ensures !Feed(cfg, START, data).parser.failed
  {
    FeedConcat(cfg, START, data, more);
    if Feed(cfg, START, data).parser.failed { FailedIgnores(cfg, Feed(cfg, START, data).parser, more); }
  }

  /**
   * The encoding of any legal frames, sent in order in any pieces, comes out as those
   * frames, with nothing left over.
   */
  lemma {:induction false} WireRoundTrip(cfg: Config, frames: seq<Frame>, segments: seq<T.Segment>, isn: nat)
    requires cfg.Valid() && AllLegal(cfg, frames)
    requires InOrder(segments, isn) && Payloads(segments) == Encode(frames)
    ensures Carriable(segments)
    ensures var s := Sessions(cfg, segments);
            && s.frames == frames && ParserOf(cfg, s.observation) == START
            && s.stream.status == (if Closes(segments) then T.Fin else T.Open)
            && (s.observation.Some? ==> StatusOf(s.observation.value) == Ready)
  {
    hide *;
    StartIsWellFormed(cfg);
    FeedEncoding(cfg, frames);
    StartDidNotFail();
    InOrderIsDelivered(cfg, segments, isn);
    SessionIsOneFeed(cfg, segments);
    ReadyAtRest(cfg, Sessions(cfg, segments));
  }

  /** A parser at rest over a readable stream is reported as READY. */
  lemma {:induction false} ReadyAtRest(cfg: Config, s: Session)
    requires Follows(cfg, s) && (s.stream.status == T.Open || s.stream.status == T.Fin)
    requires ParserOf(cfg, s.observation) == START
    ensures s.observation.Some? ==> StatusOf(s.observation.value) == Ready
  {
    hide Feed, Taken, Represents;
  }

  lemma {:induction false} StartDidNotFail()
    ensures !START.failed
  { }
}
