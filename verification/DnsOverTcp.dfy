/**
 * DNS over a TCP connection, from segments to statistics: both directions are
 * buffered and framed, every frame is analysed, and the messages go to the
 * coordinator of the flow.
 */
module DnsOverTcp {
  import opened Common
  import opened Framing
  import opened StreamRefinement
  import opened Tally
  import C = DnsCorrelation
  import D = Dns
  import F = DnsFlow
  import S = DnsStatistics
  import SF = StreamFraming
  import T = TcpStream

  datatype Packet = Packet(direction: Direction, segment: T.Segment, at: int)

  /** The segments sent in one direction, in order of capture. */
  ghost function Towards(packets: seq<Packet>, d: Direction): seq<T.Segment>
  {
    if packets == [] then []
    else
      var last := packets[|packets| - 1];
      Towards(packets[..|packets| - 1], d) + if last.direction == d then [last.segment] else []
  }

  /** The COMPLETE messages among the frames, in order. */
  ghost function Analysed(frames: seq<Frame>): seq<D.Message>
  {
    if frames == [] then []
    else
      var m := D.MessageSpec(frames[|frames| - 1].payload);
      Analysed(frames[..|frames| - 1]) + if C.Counts(Some(m)) then [m] else []
  }

  lemma {:induction false} AnalysedConcat(a: seq<Frame>, b: seq<Frame>)
    ensures Analysed(a + b) == Analysed(a) + Analysed(b)
  {
    hide D.MessageSpec;
    if b == [] {
      assert a + b == a && Analysed(a) + [] == Analysed(a);
    } else {
      var init, last := b[..|b| - 1], Analysed([b[|b| - 1]]);
      assert (a + b)[..|a + b| - 1] == a + init && [b[|b| - 1]][..0] == [];
      AnalysedConcat(a, init);
      assert Analysed(a) + (Analysed(init) + last) == Analysed(a) + Analysed(init) + last;
    }
  }

  // ---------------------------------------------------------------- one direction

  /** What is kept of one direction: nothing before its first segment. */
  datatype Side = Side(stream: Option<T.Stream>, observation: Option<SF.Observation>)

  /** The direction is where these segments have taken it. */
  ghost predicate Tracks(side: Side, segments: seq<T.Segment>)
  {
    && Carriable(segments)
    && if segments == [] then side == Side(None, None)
       else
         var s := SF.Sessions(SF.DNS, segments);
         side == Side(Some(s.stream), s.observation) && s.observation.Some?
  }

  /** Framing a direction again that has received nothing shows nothing. */
  lemma {:induction false} IdleSide(s: SF.Session)
    requires SF.Follows(SF.DNS, s) && s.observation.Some?
    ensures SF.Sound(SF.DNS, s.observation) && s.stream.Valid()
    ensures SF.FrameSpec(SF.DNS, s.observation, s.stream) == (s.observation.value, [])
    ensures s.observation.value.stream == s.stream
  {
    hide SF.Follows, SF.Reported, Feed, Taken, Represents;
    SF.FollowsIsSettled(SF.DNS, s);
    SF.FollowsReports(SF.DNS, s);
    if s.observation.value.reason.None? { Drained(s); }
    hide SF.Sound, WellFormed;
    IdleFraming(s.observation.value, s.stream);
  }

  /** A framer that has given up, or that finds nothing unread, stays as it is. */
  lemma {:induction false} IdleFraming(o: SF.Observation, stream: T.Stream)
    requires SF.Sound(SF.DNS, Some(o)) && stream.Valid() && o.stream == stream
    requires o.reason.None? ==> stream.Unconsumed() == [] && stream.Readable()
    ensures SF.FrameSpec(SF.DNS, Some(o), stream) == (o, [])
  {
    hide Feed, Taken, Declared;
    if o.reason.None? {
      FeedNothing(SF.DNS, SF.ParserOf(SF.DNS, Some(o)));
      NothingTaken(SF.DNS, SF.ParserOf(SF.DNS, Some(o)));
      hide WellFormed;
    }
  }

  lemma {:induction false} NothingTaken(cfg: Config, p: Parser)
    requires WellFormed(cfg, p)
    ensures Taken(cfg, p, []) == 0
  { }

  lemma {:induction false} Drained(s: SF.Session)
    requires SF.Follows(SF.DNS, s) && s.observation.Some? && s.observation.value.reason.None?
    ensures s.stream.Valid() && s.stream.Unconsumed() == []
  {
    hide Feed, Taken, WellFormed, Numbered;
    SF.FollowsIsSettled(SF.DNS, s);
    TakenUnlessFailed(SF.DNS, START, s.data);
  }

  /** A segment moves a direction as `Sessions` says, and the framer finds it where it left it. */
  lemma {:induction false} NextSide(segments: seq<T.Segment>, seg: T.Segment)
    requires Carriable(segments) && |seg.payload| <= T.MAX_BYTES
    ensures Carriable(segments + [seg])
    ensures var s := SF.Sessions(SF.DNS, segments);
            && SF.Sound(SF.DNS, s.observation) && s.stream.Valid()
            && var stream := T.Observe(Some(s.stream), seg);
            && stream.Valid() && SF.Sessions(SF.DNS, segments + [seg]) == SF.Deliver(SF.DNS, s, seg)
            && (s.observation.Some? ==> stream.ConsumedOffset() == s.observation.value.stream.ConsumedOffset())
  {
    hide SF.Sessions, SF.Deliver, T.Observe, Feed, Taken, Numbered, Buffered, T.Wrap, Grown;
    var all := segments + [seg];
    assert all[..|all| - 1] == segments && all[|segments|] == seg;
    var s := SF.Sessions(SF.DNS, segments);
    SF.FollowsIsSettled(SF.DNS, s);
    SF.SessionsStep(SF.DNS, all);
    ObserveRepresents(s.stream, s.data, s.isn, seg);
  }

  lemma {:induction false} NoSegments()
    ensures Carriable([]) && SF.Sessions(SF.DNS, []) == SF.IDLE
    ensures SF.IDLE.stream == T.UNSEEN && SF.IDLE.observation.None? && SF.IDLE.frames == []
  {
    hide SF.Follows, SF.Deliver, T.Observe;
  }

  lemma {:induction false} FirstSegment(seg: T.Segment)
    ensures T.Observe(None, seg) == T.Observe(Some(T.UNSEEN), seg)
  {
    hide T.ObservePayload, T.ObserveClose;
  }

  lemma {:induction false} DeliverIs(s: SF.Session, seg: T.Segment)
    requires SF.Sound(SF.DNS, s.observation) && s.stream.Valid() && T.Observe(Some(s.stream), seg).Valid()
    ensures var r := SF.Deliver(SF.DNS, s, seg);
            var (o, frames) := SF.FrameSpec(SF.DNS, s.observation, T.Observe(Some(s.stream), seg));
            r.stream == o.stream && r.observation == Some(o) && r.frames == s.frames + frames
  { }

  lemma {:induction false} TracksCarriable(side: Side, segments: seq<T.Segment>)
    requires Tracks(side, segments)
    ensures Carriable(segments)
  { }

  lemma {:induction false} SideIsSound(side: Side, segments: seq<T.Segment>)
    requires Tracks(side, segments)
    ensures SF.Sound(SF.DNS, side.observation) && (side.stream.Some? ==> side.stream.value.Valid())
    ensures (side.stream.Some? <==> side.observation.Some?) && (side.stream.Some? <==> segments != [])
    ensures side.stream.Some? ==> side.observation.value.stream == side.stream.value
  {
    hide SF.Sessions, SF.Sound, T.Observe, Feed, Taken, Represents;
    var s := SF.Sessions(SF.DNS, segments);
    NoSegments();
    SF.FollowsIsSettled(SF.DNS, s);
  }

  lemma {:induction false} IdleTracked(side: Side, segments: seq<T.Segment>)
    requires Tracks(side, segments) && segments != []
    ensures side.stream.Some? && side.observation.Some? && side.stream.value.Valid()
    ensures SF.Sound(SF.DNS, side.observation)
    ensures SF.FrameSpec(SF.DNS, side.observation, side.stream.value) == (side.observation.value, [])
  {
    hide SF.Sessions, SF.Sound, SF.FrameSpec, SF.Follows;
    IdleSide(SF.Sessions(SF.DNS, segments));
  }

  lemma {:induction false} NextTracked(side: Side, segments: seq<T.Segment>, seg: T.Segment)
    requires Tracks(side, segments) && |seg.payload| <= T.MAX_BYTES
    ensures SF.Sound(SF.DNS, side.observation) && (side.stream.Some? ==> side.stream.value.Valid())
    ensures var stream := T.Observe(side.stream, seg);
            && stream.Valid()
            && (side.observation.Some? ==> stream.ConsumedOffset() == side.observation.value.stream.ConsumedOffset())
            && var (o, frames) := SF.FrameSpec(SF.DNS, side.observation, stream);
            && Tracks(Side(Some(o.stream), Some(o)), segments + [seg])
            && SF.Sessions(SF.DNS, segments + [seg]).frames == SF.Sessions(SF.DNS, segments).frames + frames
  {
    hide SF.Sessions, SF.Sound, SF.FrameSpec, SF.Follows, SF.Deliver, T.Observe;
    var s := SF.Sessions(SF.DNS, segments);
    NoSegments();
    FirstSegment(seg);
    NextSide(segments, seg);
    DeliverIs(s, seg);
  }

  /** `_frame_direction` for one direction of a packet, which carries a segment for one of the two. */
  method FrameSide(side: Side, segment: Option<T.Segment>, ghost segments: seq<T.Segment>)
    returns (side': Side, frames: seq<Frame>)
    requires Tracks(side, segments) && (segment.Some? ==> |segment.value.payload| <= T.MAX_BYTES)
    ensures segment.None? ==> side' == side && frames == []
    ensures segment.Some? ==>
              && Tracks(side', segments + [segment.value])
              && SF.Sessions(SF.DNS, segments + [segment.value]).frames
                 == SF.Sessions(SF.DNS, segments).frames + frames
  {
    hide SF.Sessions, SF.Follows, SF.Deliver, SF.FrameSpec, SF.Sound, T.Observe, Tracks, Carriable;
    SideIsSound(side, segments);
    TracksCarriable(side, segments);
    var stream := side.stream;
    if segment.Some? {
      NextTracked(side, segments, segment.value);
      var v := T.SegmentStep(side.stream, segment.value);
      stream := Some(v);
    } else if segments != [] {
      IdleTracked(side, segments);
    }
    var r := SF.FrameDirection(SF.DNS, side.observation, stream);
    frames := r.value.frames;
    side' := Side(if r.value.observation.Some? then Some(r.value.observation.value.stream) else None,
                  r.value.observation);
    if segment.Some? { TracksCarriable(side', segments + [segment.value]); }
  }

  // ---------------------------------------------------------------- the messages of a packet

  /** `analyze_dns_message` of every frame. */
  method AnalyzeFrames(d: Direction, frames: seq<Frame>) returns (messages: seq<(Direction, Option<D.Message>)>)
    ensures |messages| == |frames|
    ensures forall i :: 0 <= i < |messages| ==> messages[i] == (d, Some(D.MessageSpec(frames[i].payload)))
  {
    hide D.MessageSpec;
    messages := [];
    for i := 0 to |frames|
      invariant |messages| == i
      invariant forall k :: 0 <= k < i ==> messages[k] == (d, Some(D.MessageSpec(frames[k].payload)))
    {
      var m := D.Analyze(frames[i].payload);
      messages := messages + [(d, Some(m))];
    }
  }

  lemma {:induction false} CompletesAre(d: Direction, frames: seq<Frame>, messages: seq<(Direction, Option<D.Message>)>)
    requires |messages| == |frames|
    requires forall i :: 0 <= i < |messages| ==> messages[i] == (d, Some(D.MessageSpec(frames[i].payload)))
    ensures F.Completes(messages) == Analysed(frames)
    ensures forall i :: 0 <= i < |messages| ==> C.Parsed(messages[i].1)
  {
    hide D.MessageSpec, C.Parsed, C.Valid;
    if messages != [] {
      CompletesAre(d, frames[..|frames| - 1], messages[..|messages| - 1]);
      C.MessagesAreParsed(frames[|frames| - 1].payload);
    }
  }

  lemma {:induction false} CompletesConcat(a: seq<(Direction, Option<D.Message>)>,
          b: seq<(Direction, Option<D.Message>)>)
    ensures F.Completes(a + b) == F.Completes(a) + F.Completes(b)
  {
    if b == [] {
      assert a + b == a && F.Completes(a) + [] == F.Completes(a);
    } else {
      var init, last := b[..|b| - 1], F.Completes([b[|b| - 1]]);
      assert (a + b)[..|a + b| - 1] == a + init && [b[|b| - 1]][..0] == [];
      CompletesConcat(a, init);
      assert F.Completes(a) + (F.Completes(init) + last) == F.Completes(a) + F.Completes(init) + last;
    }
  }

  /** The messages a packet brings to the correlation; one without frames only brings its time. */
  method MessagesOf(direction: Direction, forward: seq<Frame>, reverse: seq<Frame>)
    returns (messages: seq<(Direction, Option<D.Message>)>)
    ensures messages != [] && F.Completes(messages) == Analysed(forward) + Analysed(reverse)
    ensures forall i :: 0 <= i < |messages| ==> C.Parsed(messages[i].1)
  {
    hide Analysed, F.Completes, C.Parsed;
    if forward == [] && reverse == [] {
      NothingBrought(direction);
      return [(direction, None)];
    }
    var a := AnalyzeFrames(Forward, forward);
    var b := AnalyzeFrames(Reverse, reverse);
    CompletesAre(Forward, forward, a);
    CompletesAre(Reverse, reverse, b);
    CompletesConcat(a, b);
    messages := a + b;
  }

  lemma {:induction false} NothingBrought(direction: Direction)
    ensures F.Completes([(direction, None)]) == Analysed([]) + Analysed([]) && C.Parsed(None)
  { }

  // ---------------------------------------------------------------- the flow

  /** All COMPLETE messages that one direction has brought. */
  ghost function MessagesIn(packets: seq<Packet>, d: Direction): seq<D.Message>
    requires Carriable(Towards(packets, d))
  {
    Analysed(SF.Sessions(SF.DNS, Towards(packets, d)).frames)
  }

  ghost predicate AllCarriable(packets: seq<Packet>)
  {
    Carriable(Towards(packets, Forward)) && Carriable(Towards(packets, Reverse))
  }

  /** Both directions are where these packets have taken them, and `delivered` are their messages. */
  ghost predicate Brought(packets: seq<Packet>, forward: Side, reverse: Side, delivered: seq<D.Message>)
  {
    && AllCarriable(packets)
    && Tracks(forward, Towards(packets, Forward)) && Tracks(reverse, Towards(packets, Reverse))
    && multiset(delivered) == multiset(MessagesIn(packets, Forward)) + multiset(MessagesIn(packets, Reverse))
  }

  lemma {:induction false} NothingBroughtYet()
    ensures Brought([], Side(None, None), Side(None, None), [])
  {
    hide Tracks, Towards, Carriable, MessagesIn;
    NothingIn(Forward);
    NothingIn(Reverse);
  }

  lemma {:induction false} NothingIn(d: Direction)
    ensures Carriable(Towards([], d)) && Tracks(Side(None, None), Towards([], d)) && MessagesIn([], d) == []
  {
    hide SF.Sessions, SF.Follows, Carriable, Analysed, SF.Deliver, T.Observe;
    NoSegments();
    NothingAnalysed();
    assert Towards([], d) == [];
  }

  /** What `FrameSide` does to a direction with a packet that may be for the other one. */
  ghost predicate Framed(packets: seq<Packet>, p: Packet, d: Direction, side: Side, side': Side, frames: seq<Frame>)
    requires Carriable(Towards(packets, d))
  {
    if p.direction == d then
      var segments := Towards(packets, d);
      && Tracks(side', segments + [p.segment]) && Carriable(segments + [p.segment])
      && SF.Sessions(SF.DNS, segments + [p.segment]).frames == SF.Sessions(SF.DNS, segments).frames + frames
    else side' == side && frames == []
  }

  lemma {:induction false} DirectionMoves(packets: seq<Packet>, p: Packet, d: Direction, side: Side, side': Side,
          frames: seq<Frame>)
    requires Tracks(side, Towards(packets, d)) && Carriable(Towards(packets, d))
    requires Framed(packets, p, d, side, side', frames)
    ensures Carriable(Towards(packets + [p], d)) && Tracks(side', Towards(packets + [p], d))
    ensures MessagesIn(packets + [p], d) == MessagesIn(packets, d) + Analysed(frames)
  {
    hide Tracks, SF.Sessions, Analysed, Towards, Carriable;
    TowardsMore(packets, p);
    if p.direction == d {
      AnalysedConcat(SF.Sessions(SF.DNS, Towards(packets, d)).frames, frames);
    } else {
      NothingAnalysed();
      assert MessagesIn(packets, d) + [] == MessagesIn(packets, d);
    }
  }

  lemma {:induction false} BroughtMore(packets: seq<Packet>, p: Packet, forward: Side, reverse: Side, forward': Side,
          reverse': Side, frames: seq<Frame>, frames': seq<Frame>, delivered: seq<D.Message>)
    requires Brought(packets, forward, reverse, delivered)
    requires Framed(packets, p, Forward, forward, forward', frames)
    requires Framed(packets, p, Reverse, reverse, reverse', frames')
    ensures Brought(packets + [p], forward', reverse', delivered + (Analysed(frames) + Analysed(frames')))
  {
    hide Tracks, Towards, Carriable, MessagesIn, Analysed, Framed;
    DirectionMoves(packets, p, Forward, forward, forward', frames);
    DirectionMoves(packets, p, Reverse, reverse, reverse', frames');
  }

  lemma {:induction false} BroughtTracks(packets: seq<Packet>, forward: Side, reverse: Side, delivered: seq<D.Message>)
    requires Brought(packets, forward, reverse, delivered)
    ensures AllCarriable(packets)
    ensures Tracks(forward, Towards(packets, Forward)) && Tracks(reverse, Towards(packets, Reverse))
    ensures multiset(delivered) == multiset(MessagesIn(packets, Forward) + MessagesIn(packets, Reverse))
  { }

  /** Both directions of a packet are framed, whichever it is for. */
  method FrameSides(packet: Packet, forward: Side, reverse: Side, ghost packets: seq<Packet>)
    returns (forward': Side, reverse': Side, frames: seq<Frame>, frames': seq<Frame>)
    requires AllCarriable(packets) && |packet.segment.payload| <= T.MAX_BYTES
    requires Tracks(forward, Towards(packets, Forward)) && Tracks(reverse, Towards(packets, Reverse))
    ensures Framed(packets, packet, Forward, forward, forward', frames)
    ensures Framed(packets, packet, Reverse, reverse, reverse', frames')
  {
    hide Tracks, Towards, Carriable, SF.Sessions;
    ghost var f, r := Towards(packets, Forward), Towards(packets, Reverse);
    forward', frames := FrameSide(forward, if packet.direction == Forward then Some(packet.segment) else None, f);
    reverse', frames' := FrameSide(reverse, if packet.direction == Reverse then Some(packet.segment) else None, r);
    if packet.direction == Forward {
      TracksCarriable(forward', f + [packet.segment]);
    } else {
      TracksCarriable(reverse', r + [packet.segment]);
    }
  }

  /** The DNS part of the coordinator's state of one TCP flow. */
  class TcpFlow {
    const identity: nat
    const dns: F.Coordinator
    var forward: Side
    var reverse: Side
    ghost var taken: seq<Packet>

    ghost predicate Valid()
      reads this, dns
    {
      dns.Valid() && Brought(taken, forward, reverse, dns.delivered)
    }

    constructor (identity: nat)
      ensures Valid() && fresh(dns) && taken == [] && this.identity == identity
    {
      hide Brought, F.Accounted, F.Active, F.NewFlow, F.Coordinator.Current, F.Coordinator.Valid, F.Traced;
      this.identity := identity;
      forward, reverse, taken := Side(None, None), Side(None, None), [];
      dns := new F.Coordinator();
      new;
      NothingBroughtYet();
    }

    /** `record`, for a TCP flow of port 53: the packet is taken whole or leaves everything as it was. */
    method Record(p: Packet) returns (error: Option<C.CorrelationError>)
      requires Valid() && |p.segment.payload| <= T.MAX_BYTES
      modifies this, dns
      ensures Valid()
      ensures error == C.Refuses(old(dns.Current()).correlation, identity, p.at)
      ensures error.Some? ==>
                && taken == old(taken) && forward == old(forward) && reverse == old(reverse)
                && dns.state == old(dns.state) && dns.delivered == old(dns.delivered) && dns.trace == old(dns.trace)
      ensures error.None? ==> taken == old(taken) + [p]
    {
      hide Tracks, Towards, Carriable, Framed, Brought, MessagesIn, Analysed, SF.Sessions;
      hide F.Accounted, F.Active, C.Refuses, F.Completes, C.Parsed, C.Run, C.Sound;
      BroughtTracks(taken, forward, reverse, dns.delivered);
      var forward', reverse', frames, frames' := FrameSides(p, forward, reverse, taken);
      BroughtMore(taken, p, forward, reverse, forward', reverse', frames, frames', dns.delivered);
      var messages := MessagesOf(p.direction, frames, frames');
      error := dns.Record(messages, identity, p.at);
      if error.Some? { return; }
      forward, reverse, taken := forward', reverse', taken + [p];
    }
  }

  lemma {:induction false} NothingAnalysed()
    ensures Analysed([]) == []
  { }

  lemma {:induction false} TowardsMore(packets: seq<Packet>, p: Packet)
    ensures forall d :: Towards(packets + [p], d)
                        == Towards(packets, d) + if p.direction == d then [p.segment] else []
    ensures forall d :: p.direction != d ==> Towards(packets + [p], d) == Towards(packets, d)
  {
    assert (packets + [p])[..|packets|] == packets;
  }

  /**
   * The whole life of a flow: after any packets and the closing, every number of every
   * aggregate is that of the messages in the frames of both directions.
   */
  method CloseTcpFlow(flow: TcpFlow) returns (g: F.Flow)
    requires flow.Valid()
    ensures AllCarriable(flow.taken)
    ensures var all := MessagesIn(flow.taken, Forward) + MessagesIn(flow.taken, Reverse);
            F.HeaderNumbers(g, all) && F.RecordNumbers(g.records, all) && F.NameNumbers(g.names, all)
    ensures S.Verdicts(g.transactions, flow.dns.trace + F.Closing(flow.dns.Current().correlation))
  {
    hide F.Accounted, F.Traced, F.Aggregates, F.HeaderNumbers, F.RecordNumbers, F.NameNumbers, S.Verdicts, Tracks,
         MessagesIn, F.Active, C.Counted, Brought, Towards, Carriable, C.ResolveAll;
    var c := flow.dns;
    BroughtTracks(flow.taken, flow.forward, flow.reverse, c.delivered);
    ghost var all := MessagesIn(flow.taken, Forward) + MessagesIn(flow.taken, Reverse);
    ghost var trace := c.trace + F.Closing(c.Current().correlation);
    g := F.Close(c.Current(), c.trace, c.delivered);
    F.VerdictsOfFlow(g, trace);
    F.TracedAggregates(g, trace);
    F.ClosedFlowCountsEveryMessage(g, C.Counted(trace), all);
  }

  /** A direction that arrived in order has brought the messages of its bytes, framed all at once. */
  lemma {:induction false} InOrderMessages(packets: seq<Packet>, d: Direction, isn: nat)
    requires InOrder(Towards(packets, d), isn)
    ensures Carriable(Towards(packets, d)) && WellFormed(SF.DNS, START)
    ensures MessagesIn(packets, d) == Analysed(Feed(SF.DNS, START, Payloads(Towards(packets, d))).frames)
  {
    hide Feed, WellFormed, SF.Sessions, Analysed, InOrder, Payloads, Towards, SF.ParserOf;
    SF.InOrderIsDelivered(SF.DNS, Towards(packets, d), isn);
  }

  /** So what was sent as length-prefixed frames, however cut into segments, is what is analysed. */
  lemma {:induction false} SentIsAnalysed(packets: seq<Packet>, d: Direction, isn: nat, frames: seq<Frame>)
    requires InOrder(Towards(packets, d), isn) && AllLegal(SF.DNS, frames)
    requires Payloads(Towards(packets, d)) == Encode(frames)
    ensures Carriable(Towards(packets, d)) && MessagesIn(packets, d) == Analysed(frames)
  {
    hide Feed, WellFormed, SF.Sessions, Analysed, InOrder, Payloads, Towards, Encode, AllLegal, SF.ParserOf;
    SF.WireRoundTrip(SF.DNS, frames, Towards(packets, d), isn);
  }
}
