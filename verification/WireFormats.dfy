/**
 * The bytes that DNS over TCP, TLS records and TLS handshake messages have on
 * the wire, written out literally, and that the framers find exactly these.
 */
module WireFormats {
  import opened Common
  import opened Framing
  import opened StreamRefinement
  import O = DnsOverTcp
  import SF = StreamFraming
  import T = TcpStream
  import H = TlsHandshake

  /** Something with a header in front of a payload. */
  datatype Unit = Unit(head: Bytes, payload: Bytes)

  ghost function BytesOf(units: seq<Unit>): Bytes
  {
    if units == [] then []
    else BytesOf(units[..|units| - 1]) + units[|units| - 1].head + units[|units| - 1].payload
  }

  ghost function FramesOf(units: seq<Unit>): (r: seq<Frame>)
    ensures |r| == |units| && forall i :: 0 <= i < |units| ==> r[i] == Frame(units[i].head, units[i].payload)
  {
    seq(|units|, i requires 0 <= i < |units| => Frame(units[i].head, units[i].payload))
  }

  lemma {:induction false} BytesAreEncoding(units: seq<Unit>)
    ensures Encode(FramesOf(units)) == BytesOf(units)
  {
    if units != [] {
      BytesAreEncoding(units[..|units| - 1]);
      assert FramesOf(units)[..|units| - 1] == FramesOf(units[..|units| - 1]);
    }
  }

  // ---------------------------------------------------------------- DNS

  /** A DNS message of at most 65535 bytes behind its length in two octets. */
  predicate DnsUnit(u: Unit) { |u.payload| <= 65535 && u.head == Digits(|u.payload|, 2) }

  lemma {:induction false} TwoDigits(n: nat)
    requires n < 65536
    ensures BigEndian(Digits(n, 2)) == n
  {
    assert Power(2) == 65536 by { assert Power(1) == 256; }
    DigitsRead(n, 2);
  }

  lemma {:induction false} DnsIsLegal(u: Unit)
    requires DnsUnit(u)
    ensures Legal(SF.DNS, Frame(u.head, u.payload))
  {
    TwoDigits(|u.payload|);
    assert u.head[0..] == u.head;
  }

  /** DNS messages sent in order behind their lengths, in any segments, are the ones analysed. */
  lemma {:induction false} DnsOnTheWire(packets: seq<O.Packet>, d: Direction, isn: nat, units: seq<Unit>)
    requires InOrder(O.Towards(packets, d), isn) && Payloads(O.Towards(packets, d)) == BytesOf(units)
    requires forall i :: 0 <= i < |units| ==> DnsUnit(units[i])
    ensures Carriable(O.Towards(packets, d))
    ensures O.MessagesIn(packets, d) == O.Analysed(FramesOf(units))
  {
    hide InOrder, Payloads, O.Towards, O.Analysed, BytesOf, DnsUnit, Legal;
    forall i | 0 <= i < |units| ensures Legal(SF.DNS, FramesOf(units)[i]) { DnsIsLegal(units[i]); }
    BytesAreEncoding(units);
    O.SentIsAnalysed(packets, d, isn, FramesOf(units));
  }

  // ---------------------------------------------------------------- TLS records

  /** A type, a version, a length in two octets, and a payload of at most 18432 bytes. */
  predicate RecordUnit(u: Unit)
  {
    && |u.head| == 5 && |u.payload| <= 18432 && u.head[3..] == Digits(|u.payload|, 2)
  }

  lemma {:induction false} RecordIsLegal(u: Unit)
    requires RecordUnit(u)
    ensures Legal(SF.TLS, Frame(u.head, u.payload))
  {
    TwoDigits(|u.payload|);
  }

  /** A record header that declares more than 18432 bytes is refused, and no other one. */
  lemma {:induction false} RecordTooLong(head: Bytes, n: nat)
    requires |head| == 5 && n < 65536 && head[3..] == Digits(n, 2)
    ensures WellFormed(SF.TLS, START) && (Feed(SF.TLS, START, head).parser.failed <==> n > 18432)
  {
    TwoDigits(n);
    FeedHeader(SF.TLS, START, head);
    assert START.prefix + head == head;
  }

  // ---------------------------------------------------------------- handshake messages

  /** A type, a length in three octets, and a body of at most 262144 bytes. */
  predicate HandshakeUnit(u: Unit)
  {
    && |u.head| == 4 && |u.payload| <= 262144 && u.head[1..] == Digits(|u.payload|, 3)
  }

  lemma {:induction false} ThreeDigits(n: nat)
    requires n < 0x100_0000
    ensures BigEndian(Digits(n, 3)) == n
  {
    assert Power(3) == 0x100_0000 by { assert Power(1) == 256 && Power(2) == 65536; }
    DigitsRead(n, 3);
  }

  lemma {:induction false} HandshakeIsLegal(u: Unit)
    requires HandshakeUnit(u)
    ensures Legal(H.HANDSHAKE, Frame(u.head, u.payload))
  {
    ThreeDigits(|u.payload|);
  }

  lemma {:induction false} HandshakeTooLong(head: Bytes, n: nat)
    requires |head| == 4 && n < 0x100_0000 && head[1..] == Digits(n, 3)
    ensures WellFormed(H.HANDSHAKE, START) && (Feed(H.HANDSHAKE, START, head).parser.failed <==> n > 262144)
  {
    ThreeDigits(n);
    FeedHeader(H.HANDSHAKE, START, head);
    assert START.prefix + head == head;
  }

  /** The payloads of the records of type 22. */
  ghost function HandshakePart(records: seq<Unit>): Bytes
    requires forall i :: 0 <= i < |records| ==> RecordUnit(records[i])
  {
    if records == [] then []
    else
      var u := records[|records| - 1];
      assert RecordUnit(u);
      HandshakePart(records[..|records| - 1]) + if u.head[0] == 22 then u.payload else []
  }

  lemma {:induction false} PartIsCarried(records: seq<Unit>)
    requires forall i :: 0 <= i < |records| ==> RecordUnit(records[i])
    ensures HandshakePart(records) == H.Carried(FramesOf(records))
  {
    if records != [] {
      PartIsCarried(records[..|records| - 1]);
      assert FramesOf(records)[..|records| - 1] == FramesOf(records[..|records| - 1]);
      assert records[|records| - 1].head != [];
    }
  }

  /**
   * Handshake messages cut into the records of type 22 in any way, those among any other
   * records, and all of them sent in order in any segments: both layers find exactly the
   * records and the messages.
   */
  lemma {:induction false} TlsOnTheWire(messages: seq<Unit>, records: seq<Unit>, segments: seq<T.Segment>, isn: nat)
    requires forall i :: 0 <= i < |messages| ==> HandshakeUnit(messages[i])
    requires forall i :: 0 <= i < |records| ==> RecordUnit(records[i])
    requires HandshakePart(records) == BytesOf(messages)
    requires InOrder(segments, isn) && Payloads(segments) == BytesOf(records)
    ensures Carriable(segments)
    ensures H.Run(segments).records.frames == FramesOf(records) && H.Run(segments).messages == FramesOf(messages)
    ensures H.ParserOf(H.Run(segments).handshake) == START
  {
    hide InOrder, Payloads, BytesOf, Legal, HandshakePart, HandshakeUnit, RecordUnit, H.Run, H.Carried;
    forall i | 0 <= i < |records| ensures Legal(SF.TLS, FramesOf(records)[i]) { RecordIsLegal(records[i]); }
    forall i | 0 <= i < |messages| ensures Legal(H.HANDSHAKE, FramesOf(messages)[i]) { HandshakeIsLegal(messages[i]); }
    BytesAreEncoding(messages);
    BytesAreEncoding(records);
    PartIsCarried(records);
    H.HandshakeRoundTrip(FramesOf(messages), FramesOf(records), segments, isn);
  }
}
