/**
 * Length-prefixed framing as DNS over TCP, TLS records and TLS handshake
 * messages all do it: a resumable parser that copies whole chunks, proved to
 * be a machine that takes one byte at a time.
 */
module Framing {
  import opened Common

  /** `lengthAt`: where in the header the big-endian payload length starts. It runs to the header's end. */
  datatype Config = Config(headerSize: nat, lengthAt: nat, limit: nat) {
    ghost predicate Valid() { lengthAt < headerSize }
  }

  datatype Frame = Frame(header: Bytes, payload: Bytes)

  /** What is kept between chunks. `failed`: a header declared more than the limit. */
  datatype Parser = Parser(prefix: Bytes, header: Option<Bytes>, payload: Bytes, failed: bool)

  datatype Output = Output(parser: Parser, frames: seq<Frame>)

  const START := Parser([], None, [], false)

  function Declared(cfg: Config, header: Bytes): nat
  {
    if cfg.lengthAt <= |header| then BigEndian(header[cfg.lengthAt..]) else 0
  }

  ghost predicate WellFormed(cfg: Config, p: Parser)
  {
    && cfg.Valid()
    && |p.prefix| < cfg.headerSize
    && (p.header.Some? ==> p.prefix == [] && |p.header.value| == cfg.headerSize)
    && (p.header.None? ==> p.payload == [] && !p.failed)
    && (p.header.Some? && !p.failed ==>
          |p.payload| < Declared(cfg, p.header.value) <= cfg.limit)
    && (p.failed ==> p.payload == [] && cfg.limit < Declared(cfg, p.header.value))
  }

  // ---------------------------------------------------------------- one byte at a time

  /** A complete header either fails, is a whole empty frame, or waits for its payload. */
  ghost function OnHeader(cfg: Config, header: Bytes): Output
    requires cfg.Valid() && |header| == cfg.headerSize
  {
    var declared := Declared(cfg, header);
    if declared > cfg.limit then Output(Parser([], Some(header), [], true), [])
    else if declared == 0 then Output(START, [Frame(header, [])])
    else Output(Parser([], Some(header), [], false), [])
  }

  ghost function OnPayload(cfg: Config, header: Bytes, payload: Bytes): Output
    requires cfg.Valid() && |header| == cfg.headerSize
  {
    if |payload| == Declared(cfg, header) then Output(START, [Frame(header, payload)])
    else Output(Parser([], Some(header), payload, false), [])
  }

  ghost function Push(cfg: Config, p: Parser, b: Byte): (r: Output)
    requires WellFormed(cfg, p)
    ensures WellFormed(cfg, r.parser)
  {
    if p.failed then Output(p, [])
    else if p.header.Some? then OnPayload(cfg, p.header.value, p.payload + [b])
    else if |p.prefix| + 1 < cfg.headerSize then Output(p.(prefix := p.prefix + [b]), [])
    else OnHeader(cfg, p.prefix + [b])
  }

  /** Everything a run of bytes produces. */
  ghost function Feed(cfg: Config, p: Parser, data: Bytes): (r: Output)
    requires WellFormed(cfg, p)
    ensures WellFormed(cfg, r.parser)
  {
    if data == [] then Output(p, [])
    else
      var before := Feed(cfg, p, data[..|data| - 1]);
      var last := Push(cfg, before.parser, data[|data| - 1]);
      Output(last.parser, before.frames + last.frames)
  }

  /** How much of the bytes is taken before the parser fails: all of it unless it does. */
  ghost function Taken(cfg: Config, p: Parser, data: Bytes): (n: nat)
    requires WellFormed(cfg, p)
    ensures n <= |data|
  {
    if data == [] then 0
    else
      var less := data[..|data| - 1];
      Taken(cfg, p, less) + if Feed(cfg, p, less).parser.failed then 0 else 1
  }

  /** Where the bytes are cut does not matter. */
  lemma {:induction false} FeedConcat(cfg: Config, p: Parser, a: Bytes, b: Bytes)
    requires WellFormed(cfg, p)
    ensures Feed(cfg, p, a + b).parser == Feed(cfg, Feed(cfg, p, a).parser, b).parser
    ensures Feed(cfg, p, a + b).frames == Feed(cfg, p, a).frames + Feed(cfg, Feed(cfg, p, a).parser, b).frames
    ensures Taken(cfg, p, a + b) == Taken(cfg, p, a) + Taken(cfg, Feed(cfg, p, a).parser, b)
  {
    hide Push;
    if b == [] {
      assert a + b == a;
    } else {
      var less := b[..|b| - 1];
      assert (a + b)[..|a + b| - 1] == a + less;
      FeedConcat(cfg, p, a, less);
    }
  }

  lemma {:induction false} FailedIgnores(cfg: Config, p: Parser, data: Bytes)
    requires WellFormed(cfg, p) && p.failed
    ensures Feed(cfg, p, data).parser == p && Feed(cfg, p, data).frames == []
    ensures Taken(cfg, p, data) == 0
  {
    if data != [] { FailedIgnores(cfg, p, data[..|data| - 1]); }
  }

  lemma {:induction false} TakenUnlessFailed(cfg: Config, p: Parser, data: Bytes)
    requires WellFormed(cfg, p)
    ensures !Feed(cfg, p, data).parser.failed ==> Taken(cfg, p, data) == |data|
  {
    if data != [] { TakenUnlessFailed(cfg, p, data[..|data| - 1]); }
  }

  // ---------------------------------------------------------------- whole chunks at a time

  lemma {:induction false} FeedHeader(cfg: Config, p: Parser, chunk: Bytes)
    requires WellFormed(cfg, p) && p.header.None? && |p.prefix| + |chunk| <= cfg.headerSize
    ensures var r := if |p.prefix| + |chunk| < cfg.headerSize then Output(p.(prefix := p.prefix + chunk), [])
                     else OnHeader(cfg, p.prefix + chunk);
            Feed(cfg, p, chunk).parser == r.parser && Feed(cfg, p, chunk).frames == r.frames
    ensures Taken(cfg, p, chunk) == |chunk|
  {
    if chunk == [] {
      assert p.prefix + chunk == p.prefix;
    } else {
      var less, b := chunk[..|chunk| - 1], chunk[|chunk| - 1];
      FeedHeader(cfg, p, less);
      assert p.prefix + chunk == (p.prefix + less) + [b];
    }
  }

  lemma {:induction false} FeedPayload(cfg: Config, p: Parser, chunk: Bytes)
    requires WellFormed(cfg, p) && p.header.Some? && !p.failed
    requires |p.payload| + |chunk| <= Declared(cfg, p.header.value)
    ensures var r := OnPayload(cfg, p.header.value, p.payload + chunk);
            Feed(cfg, p, chunk).parser == r.parser && Feed(cfg, p, chunk).frames == r.frames
    ensures Taken(cfg, p, chunk) == |chunk|
  {
    if chunk == [] {
      assert p.payload + chunk == p.payload;
    } else {
      var less, b := chunk[..|chunk| - 1], chunk[|chunk| - 1];
      FeedPayload(cfg, p, less);
      assert p.payload + chunk == (p.payload + less) + [b];
    }
  }

  /** The next chunk of `data` after `offset` continues the run. */
  lemma {:induction false} FeedOn(cfg: Config, p: Parser, data: Bytes, offset: nat, next: nat)
    requires WellFormed(cfg, p) && offset <= next <= |data|
    ensures var here := Feed(cfg, p, data[..offset]);
            var on := Feed(cfg, here.parser, data[offset..next]);
            && Feed(cfg, p, data[..next]).parser == on.parser
            && Feed(cfg, p, data[..next]).frames == here.frames + on.frames
            && Taken(cfg, p, data[..next])
               == Taken(cfg, p, data[..offset]) + Taken(cfg, here.parser, data[offset..next])
  {
    FeedConcat(cfg, p, data[..offset], data[offset..next]);
    assert data[..offset] + data[offset..next] == data[..next];
  }

  lemma {:induction false} FailedAfter(cfg: Config, p: Parser, data: Bytes, offset: nat)
    requires WellFormed(cfg, p) && offset <= |data| && Feed(cfg, p, data[..offset]).parser.failed
    ensures Feed(cfg, p, data).parser == Feed(cfg, p, data[..offset]).parser
    ensures Feed(cfg, p, data).frames == Feed(cfg, p, data[..offset]).frames
    ensures Taken(cfg, p, data) == Taken(cfg, p, data[..offset])
  {
    FeedOn(cfg, p, data, offset, |data|);
    FailedIgnores(cfg, Feed(cfg, p, data[..offset]).parser, data[offset..|data|]);
    assert data[..|data|] == data;
  }

  /** The run so far: `offset` bytes of `data`, all taken, have led to `p` and `frames`. */
  ghost predicate Reached(cfg: Config, first: Parser, data: Bytes, offset: nat, p: Parser, frames: seq<Frame>)
  {
    && WellFormed(cfg, first) && offset <= |data|
    && Feed(cfg, first, data[..offset]).parser == p
    && Feed(cfg, first, data[..offset]).frames == frames
    && Taken(cfg, first, data[..offset]) == offset
  }

  lemma {:induction false} ReachHeader(cfg: Config, first: Parser, data: Bytes, offset: nat, p: Parser,
          frames: seq<Frame>, count: nat)
    requires Reached(cfg, first, data, offset, p, frames) && p.header.None?
    requires offset + count <= |data| && |p.prefix| + count <= cfg.headerSize
    ensures var prefix := p.prefix + data[offset..offset + count];
            var r := if |prefix| < cfg.headerSize then Output(p.(prefix := prefix), []) else OnHeader(cfg, prefix);
            Reached(cfg, first, data, offset + count, r.parser, frames + r.frames)
  {
    hide Feed, Taken;
    FeedOn(cfg, first, data, offset, offset + count);
    FeedHeader(cfg, p, data[offset..offset + count]);
  }

  lemma {:induction false} ReachPayload(cfg: Config, first: Parser, data: Bytes, offset: nat, p: Parser,
          frames: seq<Frame>, count: nat)
    requires Reached(cfg, first, data, offset, p, frames) && p.header.Some? && !p.failed
    requires offset + count <= |data| && |p.payload| + count <= Declared(cfg, p.header.value)
    ensures var r := OnPayload(cfg, p.header.value, p.payload + data[offset..offset + count]);
            Reached(cfg, first, data, offset + count, r.parser, frames + r.frames)
  {
    hide Feed, Taken;
    FeedOn(cfg, first, data, offset, offset + count);
    FeedPayload(cfg, p, data[offset..offset + count]);
  }

  lemma {:induction false} ReachStart(cfg: Config, first: Parser, data: Bytes)
    requires WellFormed(cfg, first)
    ensures Reached(cfg, first, data, 0, first, [])
  { }

  lemma {:induction false} ReachEnd(cfg: Config, first: Parser, data: Bytes, p: Parser, frames: seq<Frame>)
    requires Reached(cfg, first, data, |data|, p, frames)
    ensures p == Feed(cfg, first, data).parser && frames == Feed(cfg, first, data).frames
            && |data| == Taken(cfg, first, data)
  {
    assert data[..|data|] == data;
  }

  lemma {:induction false} ReachFailure(cfg: Config, first: Parser, data: Bytes, offset: nat, p: Parser,
          frames: seq<Frame>)
    requires Reached(cfg, first, data, offset, p, frames) && p.failed
    ensures p == Feed(cfg, first, data).parser && frames == Feed(cfg, first, data).frames
            && offset == Taken(cfg, first, data)
  {
    FailedAfter(cfg, first, data, offset);
  }

  /**
   * The framing loop: fill the header from the data, then the payload, as far
   * as the data goes. `offset` is how much of the data was used.
   */
  method Advance(cfg: Config, p: Parser, data: Bytes) returns (q: Parser, frames: seq<Frame>, offset: nat)
    requires WellFormed(cfg, p) && !p.failed
    ensures q == Feed(cfg, p, data).parser && frames == Feed(cfg, p, data).frames
    ensures offset == Taken(cfg, p, data)
    ensures WellFormed(cfg, q)
  {
    hide Feed, Taken, Reached;
    var prefix, header, payload := p.prefix, p.header, p.payload;
    frames, offset := [], 0;
    ReachStart(cfg, p, data);
    assert forall some: seq<Frame> :: some + [] == some;
    while offset < |data|
      invariant 0 <= offset <= |data|
      invariant WellFormed(cfg, Parser(prefix, header, payload, false))
      invariant Reached(cfg, p, data, offset, Parser(prefix, header, payload, false), frames)
    {
      if header.None? {
        var count := Min(cfg.headerSize - |prefix|, |data| - offset);
        ReachHeader(cfg, p, data, offset, Parser(prefix, header, payload, false), frames, count);
        prefix := prefix + data[offset..offset + count];
        offset := offset + count;
        if |prefix| < cfg.headerSize { break; }
        header, prefix := Some(prefix), [];
        if Declared(cfg, header.value) > cfg.limit {
          q := Parser(prefix, header, payload, true);
          ReachFailure(cfg, p, data, offset, q, frames);
          return;
        }
      }
      var count := Min(Declared(cfg, header.value) - |payload|, |data| - offset);
      if Declared(cfg, header.value) > 0 {
        ReachPayload(cfg, p, data, offset, Parser(prefix, header, payload, false), frames, count);
      }
      payload := payload + data[offset..offset + count];
      offset := offset + count;
      if |payload| < Declared(cfg, header.value) { break; }
      frames := frames + [Frame(header.value, payload)];
      header, payload := None, [];
    }
    q := Parser(prefix, header, payload, false);
    ReachEnd(cfg, p, data, q, frames);
  }

  // ---------------------------------------------------------------- chunks, round trips, conservation

  ghost function Concat(chunks: seq<Bytes>): Bytes
  {
    if chunks == [] then [] else Concat(chunks[..|chunks| - 1]) + chunks[|chunks| - 1]
  }

  /** One call per chunk, each resuming from the parser the last one left. */
  ghost function FeedChunks(cfg: Config, p: Parser, chunks: seq<Bytes>): (r: Output)
    requires WellFormed(cfg, p)
    ensures WellFormed(cfg, r.parser)
  {
    if chunks == [] then Output(p, [])
    else
      var before := FeedChunks(cfg, p, chunks[..|chunks| - 1]);
      var last := Feed(cfg, before.parser, chunks[|chunks| - 1]);
      Output(last.parser, before.frames + last.frames)
  }

  /** Any chunking of the same bytes gives the same frames and the same residual parser. */
  lemma {:induction false} ChunkingIsInvisible(cfg: Config, p: Parser, chunks: seq<Bytes>)
    requires WellFormed(cfg, p)
    ensures FeedChunks(cfg, p, chunks).parser == Feed(cfg, p, Concat(chunks)).parser
    ensures FeedChunks(cfg, p, chunks).frames == Feed(cfg, p, Concat(chunks)).frames
  {
    if chunks != [] {
      var less := chunks[..|chunks| - 1];
      ChunkingIsInvisible(cfg, p, less);
      FeedConcat(cfg, p, Concat(less), chunks[|chunks| - 1]);
    }
  }

  /** A frame whose header declares exactly its payload, within the limit. */
  ghost predicate Legal(cfg: Config, f: Frame)
  {
    cfg.Valid() && |f.header| == cfg.headerSize && Declared(cfg, f.header) == |f.payload| <= cfg.limit
  }

  ghost predicate AllLegal(cfg: Config, frames: seq<Frame>)
  {
    cfg.Valid() && forall i :: 0 <= i < |frames| ==> Legal(cfg, frames[i])
  }

  ghost function Encode(frames: seq<Frame>): Bytes
  {
    if frames == [] then []
    else Encode(frames[..|frames| - 1]) + frames[|frames| - 1].header + frames[|frames| - 1].payload
  }

  ghost function Residual(p: Parser): Bytes
  {
    p.prefix + (if p.header.Some? then p.header.value else []) + p.payload
  }

  lemma {:induction false} FeedFrame(cfg: Config, f: Frame)
    requires Legal(cfg, f)
    ensures Feed(cfg, START, f.header + f.payload).parser == START
    ensures Feed(cfg, START, f.header + f.payload).frames == [f]
  {
    FeedConcat(cfg, START, f.header, f.payload);
    FeedHeader(cfg, START, f.header);
    assert START.prefix + f.header == f.header;
    var waiting := Parser([], Some(f.header), [], false);
    if f.payload == [] {
      assert f.header + f.payload == f.header;
    } else {
      FeedPayload(cfg, waiting, f.payload);
      assert waiting.payload + f.payload == f.payload;
    }
  }

  /** Any chunking of the encoding of legal frames yields exactly those frames and a parser at rest. */
  lemma {:induction false} RoundTrip(cfg: Config, frames: seq<Frame>, chunks: seq<Bytes>)
    requires AllLegal(cfg, frames)
    requires Concat(chunks) == Encode(frames)
    ensures FeedChunks(cfg, START, chunks).parser == START
    ensures FeedChunks(cfg, START, chunks).frames == frames
  {
    ChunkingIsInvisible(cfg, START, chunks);
    FeedEncoding(cfg, frames);
  }

  lemma {:induction false} FeedNothing(cfg: Config, p: Parser)
    requires WellFormed(cfg, p)
    ensures Feed(cfg, p, []).parser == p && Feed(cfg, p, []).frames == [] && Taken(cfg, p, []) == 0
  { }

  lemma {:induction false} FeedEncoding(cfg: Config, frames: seq<Frame>)
    requires AllLegal(cfg, frames)
    ensures Feed(cfg, START, Encode(frames)).parser == START
    ensures Feed(cfg, START, Encode(frames)).frames == frames
  {
    hide Feed, Legal, Encode;
    EncodeLast(frames);
    if frames == [] {
      FeedNothing(cfg, START);
    } else {
      var less, f := frames[..|frames| - 1], frames[|frames| - 1];
      FeedEncoding(cfg, less);
      FeedFrame(cfg, f);
      FeedConcat(cfg, START, Encode(less), f.header + f.payload);
    }
  }

  lemma {:induction false} EncodeLast(frames: seq<Frame>)
    ensures if frames == [] then Encode(frames) == []
            else var f := frames[|frames| - 1];
                          Encode(frames) == Encode(frames[..|frames| - 1]) + (f.header + f.payload)
  { }

  lemma {:induction false} EncodeConcat(a: seq<Frame>, b: seq<Frame>)
    ensures Encode(a + b) == Encode(a) + Encode(b)
  {
    if b == [] {
      assert a + b == a;
    } else {
      assert (a + b)[..|a + b| - 1] == a + b[..|b| - 1];
      EncodeConcat(a, b[..|b| - 1]);
    }
  }

  /** One byte is neither lost nor invented. */
  lemma {:induction false} PushConserves(cfg: Config, p: Parser, b: Byte)
    requires WellFormed(cfg, p) && !p.failed
    ensures Encode(Push(cfg, p, b).frames) + Residual(Push(cfg, p, b).parser) == Residual(p) + [b]
    ensures AllLegal(cfg, Push(cfg, p, b).frames)
  {
    hide OnPayload, OnHeader, Encode, Declared;
    NothingEncoded();
    if p.header.Some? {
      PayloadConserves(cfg, p.header.value, p.payload + [b]);
      assert Residual(p) + [b] == p.header.value + (p.payload + [b]);
    } else if |p.prefix| + 1 == cfg.headerSize {
      HeaderConserves(cfg, p.prefix + [b]);
      assert Residual(p) + [b] == p.prefix + [b];
    } else {
      assert Encode([]) + Residual(Push(cfg, p, b).parser) == Residual(p) + [b];
    }
  }

  lemma {:induction false} NothingEncoded()
    ensures Encode([]) == []
  { }

  lemma {:induction false} OneFrame(f: Frame)
    ensures Encode([f]) + Residual(START) == f.header + f.payload
  {
    assert [f][..0] == [];
  }

  lemma {:induction false} PayloadConserves(cfg: Config, header: Bytes, payload: Bytes)
    requires cfg.Valid() && |header| == cfg.headerSize && Declared(cfg, header) <= cfg.limit
    ensures var r := OnPayload(cfg, header, payload); Encode(r.frames) + Residual(r.parser) == header + payload
    ensures AllLegal(cfg, OnPayload(cfg, header, payload).frames)
  {
    OneFrame(Frame(header, payload));
  }

  lemma {:induction false} HeaderConserves(cfg: Config, header: Bytes)
    requires cfg.Valid() && |header| == cfg.headerSize
    ensures var r := OnHeader(cfg, header); Encode(r.frames) + Residual(r.parser) == header
    ensures AllLegal(cfg, OnHeader(cfg, header).frames)
  {
    OneFrame(Frame(header, []));
    assert header + [] == header;
  }

  /**
   * Re-encoding the emitted frames and adding what the parser still holds gives
   * back exactly the bytes it held before and the bytes it took; every emitted
   * frame is legal.
   */
  lemma {:induction false} FeedConserves(cfg: Config, p: Parser, data: Bytes)
    requires WellFormed(cfg, p)
    ensures var r := Feed(cfg, p, data);
            Encode(r.frames) + Residual(r.parser) == Residual(p) + data[..Taken(cfg, p, data)]
    ensures AllLegal(cfg, Feed(cfg, p, data).frames)
    ensures !Feed(cfg, p, data).parser.failed ==> Taken(cfg, p, data) == |data|
  {
    hide Push, Residual, Feed, Taken, Legal, Encode;
    if data == [] {
      FeedNothing(cfg, p);
      EncodeLast([]);
      assert Encode([]) + Residual(p) == Residual(p) + data[..0];
    } else {
      var less, b := data[..|data| - 1], data[|data| - 1];
      FeedConserves(cfg, p, less);
      var before := Feed(cfg, p, less);
      FeedOneMore(cfg, p, data);
      if before.parser.failed {
        assert data[..Taken(cfg, p, less)] == less[..Taken(cfg, p, less)];
      } else {
        var last := Push(cfg, before.parser, b);
        PushConserves(cfg, before.parser, b);
        EncodeConcat(before.frames, last.frames);
        Regroup(Encode(before.frames), Encode(last.frames), Residual(last.parser), Residual(before.parser),
                Residual(p), data);
      }
    }
  }

  lemma {:induction false} FeedOneMore(cfg: Config, p: Parser, data: Bytes)
    requires WellFormed(cfg, p) && data != []
    ensures var less, b := data[..|data| - 1], data[|data| - 1];
            var before := Feed(cfg, p, less);
            if before.parser.failed then
              && Feed(cfg, p, data).parser == before.parser && Feed(cfg, p, data).frames == before.frames
              && Taken(cfg, p, data) == Taken(cfg, p, less)
            else
              var last := Push(cfg, before.parser, b);
              && Feed(cfg, p, data).parser == last.parser && Feed(cfg, p, data).frames == before.frames + last.frames
              && Taken(cfg, p, data) == Taken(cfg, p, less) + 1
  { }

  lemma {:induction false} Regroup(e: Bytes, f: Bytes, r: Bytes, q: Bytes, p: Bytes, data: Bytes)
    requires data != []
    requires f + r == q + [data[|data| - 1]] && e + q == p + data[..|data| - 1][..|data| - 1]
    ensures e + f + r == p + data[..|data|]
  {
    var less, b := data[..|data| - 1], data[|data| - 1];
    assert e + f + r == e + (f + r);
    assert e + (q + [b]) == (e + q) + [b];
    assert (p + less) + [b] == p + (less + [b]);
    assert less + [b] == data[..|data|];
  }

  /** Frames only come out of bytes: a call that emits has moved forward. */
  lemma {:induction false} FramesNeedBytes(cfg: Config, p: Parser, data: Bytes)
    requires WellFormed(cfg, p)
    ensures Feed(cfg, p, data).frames != [] ==> Taken(cfg, p, data) > 0
  {
    if data != [] {
      var less := data[..|data| - 1];
      FramesNeedBytes(cfg, p, less);
      if Feed(cfg, p, less).parser.failed {
        assert Feed(cfg, p, data).frames == Feed(cfg, p, less).frames;
      }
    }
  }
}
