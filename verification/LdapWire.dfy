/** Written LDAP messages over a TCP stream: what is sent in order is what is emitted. */
module LdapWire {
  import opened Common
  import L = Ldap
  import opened LdapRoundTrip
  import S = LdapStream
  import opened StreamRefinement
  import T = TcpStream

  ghost predicate AllWritable(ps: seq<Pdu>)
  {
    forall i :: 0 <= i < |ps| ==> ps[i].Writable()
  }

  ghost function WrittenAll(ps: seq<Pdu>): Bytes
    requires AllWritable(ps)
  {
    if ps == [] then [] else ps[0].Written() + WrittenAll(ps[1..])
  }

  /** What is to be emitted for messages that begin at stream position `at`. */
  ghost function Reports(ps: seq<Pdu>, at: nat): (r: seq<L.Message>)
    requires AllWritable(ps)
    ensures |r| == |ps|
  {
    if ps == [] then [] else [ps[0].Report(at)] + Reports(ps[1..], at + |ps[0].Written()|)
  }

  /** Nothing, or the beginning of one more message. */
  ghost predicate Arriving(tail: Bytes)
  {
    tail == [] || exists p: Pdu :: p.Writable() && tail < p.Written()
  }

  lemma {:induction false} WindowKeeps(p: Pdu, rest: Bytes)
    requires p.Writable()
    ensures exists more :: S.Window(p.Written() + rest) == p.Written() + more
  {
    hide Pdu.Written;
    var view := p.Written() + rest;
    assert S.Window(view) == p.Written() + S.Window(view)[|p.Written()|..];
  }

  lemma {:induction false} FirstOf(ps: seq<Pdu>, at: nat)
    requires AllWritable(ps) && ps != []
    ensures ps[0].Writable() && AllWritable(ps[1..])
    ensures WrittenAll(ps) == ps[0].Written() + WrittenAll(ps[1..])
    ensures Reports(ps, at) == [ps[0].Report(at)] + Reports(ps[1..], at + |ps[0].Written()|)
  {
    hide Pdu.Written, Pdu.Writable, Pdu.Report;
  }

  lemma {:induction false} NoneOf(at: nat)
    ensures AllWritable([]) && WrittenAll([]) == [] && Reports([], at) == []
  { }

  /** Messages one after the other are cut apart where they were put together, and the next one waits for its end. */
  lemma {:induction false} ScanWritten(ps: seq<Pdu>, tail: Bytes, at: nat)
    requires AllWritable(ps) && Arriving(tail)
    ensures var r := S.Scan(WrittenAll(ps) + tail, at);
            && r.messages == Reports(ps, at) && r.used == |WrittenAll(ps)|
            && r.status == (if tail == [] then S.Ready else S.Incomplete) && (r.pending.None? <==> tail == [])
  {
    hide *;
    if ps != [] {
      FirstOf(ps, at);
      var p, rest := ps[0], WrittenAll(ps[1..]) + tail;
      assert WrittenAll(ps) + tail == p.Written() + rest;
      FirstIsScanned(p, rest, at);
      ScanWritten(ps[1..], tail, at + |p.Written()|);
    } else {
      NoneOf(at);
      assert WrittenAll(ps) + tail == tail;
      TailScans(tail, at);
    }
  }

  lemma {:induction false} TailScans(tail: Bytes, at: nat)
    requires Arriving(tail)
    ensures var r := S.Scan(tail, at);
            && r.messages == [] && r.used == 0
            && r.status == (if tail == [] then S.Ready else S.Incomplete) && (r.pending.None? <==> tail == [])
  {
    hide S.Scan, Pdu.Written, Pdu.Writable;
    if tail == [] {
      S.ScanNothing(at);
    } else {
      var p: Pdu :| p.Writable() && tail < p.Written();
      assert tail == p.Written()[..|tail|];
      TailIsScanned(p, |tail|, at);
    }
  }

  lemma {:induction false} FirstIsScanned(p: Pdu, rest: Bytes, at: nat)
    requires p.Writable()
    ensures var r := S.Scan(rest, at + |p.Written()|);
            S.Scan(p.Written() + rest, at)
            == r.(messages := [p.Report(at)] + r.messages, used := |p.Written()| + r.used)
  {
    hide S.Scan, L.Parse, Pdu.Written, S.Window, Pdu.Writable;
    WindowKeeps(p, rest);
    var more :| S.Window(p.Written() + rest) == p.Written() + more;
    MessageRoundTrip(p, more, at);
    NotEmpty(p);
    S.ScanCases(p.Written() + rest, at);
    assert (p.Written() + rest)[|p.Written()|..] == rest;
  }

  lemma {:induction false} NotEmpty(p: Pdu)
    requires p.Writable()
    ensures 2 <= |p.Written()| <= L.MAX_PAYLOAD_BYTES && p.Written()[0] == 0x30
  { }

  lemma {:induction false} TailIsScanned(p: Pdu, n: nat, at: nat)
    requires p.Writable() && 0 < n < |p.Written()|
    ensures var r := S.Scan(p.Written()[..n], at);
            r.messages == [] && r.pending.Some? && r.status == S.Incomplete && r.used == 0
  {
    hide S.Scan, L.Parse, Pdu.Written, Pdu.Writable;
    NotEmpty(p);
    ArrivingIsIncomplete(p, n, at);
    S.ScanCases(p.Written()[..n], at);
  }

  /** A message that declares more than 65536 bytes ends the scan for good: nothing behind it is looked for. */
  lemma {:induction false} TooLongStops(size: nat, octets: nat, rest: Bytes, at: nat)
    requires LengthForm(size, octets) && 2 + octets + size > 65536
    ensures var r := S.Scan([48] + Length(size, octets) + rest, at);
            r.messages == [] && r.used == 0 && r.status == S.Unsupported && r.pending.Some?
  {
    hide S.Scan, L.Parse, Digits, Length, S.Window;
    var view := [48] + Length(size, octets) + rest;
    S.ScanCases(view, at);
    HeadStays(view, [48] + Length(size, octets));
    var more :| S.Window(view) == [48] + Length(size, octets) + more;
    TooLong(size, octets, more, at);
  }

  /**
   * A message of known length within the limit is waited for, whatever is wrong with it
   * short of MALFORMED, and nothing is taken before it is whole.
   */
  lemma {:induction false} WaitsForItsEnd(content: Bytes, octets: nat, n: nat, at: nat)
    requires LengthForm(|content|, octets) && 2 + octets <= n < 2 + octets + |content| <= 65536
    ensures |Element(0x30, content, octets)| == 2 + octets + |content|
    ensures var view := Element(0x30, content, octets)[..n];
            var r := S.Scan(view, at);
            && r.messages == [] && r.used == 0 && r.pending == Some(L.Parse(view, at))
            && r.status == if L.Parse(view, at).status == L.Malformed then S.Malformed else S.Incomplete
  {
    hide S.Scan, L.Parse, Element;
    LengthIsKnown(content, octets, n, at);
    S.ScanCases(Element(0x30, content, octets)[..n], at);
  }

  lemma {:induction false} HeadStays(view: Bytes, head: Bytes)
    requires head <= view && |head| <= 65536
    ensures exists more :: S.Window(view) == head + more
  {
    assert S.Window(view) == head + S.Window(view)[|head|..];
  }

  // ---------------------------------------------------------------- over a stream

  lemma {:induction false} SentBegins(ps: seq<Pdu>, tail: Bytes)
    requires AllWritable(ps) && Arriving(tail) && WrittenAll(ps) + tail != []
    ensures S.Begins(WrittenAll(ps) + tail)
  {
    hide Pdu.Written, Pdu.Writable;
    if ps != [] {
      NotEmpty(ps[0]);
    } else {
      var p: Pdu :| p.Writable() && tail < p.Written();
      NotEmpty(p);
      assert tail[0] == p.Written()[0];
    }
  }

  /** How many of these have a known operation, or an unknown one. */
  ghost function Known(ps: seq<Pdu>, known: bool): nat
  {
    if ps == [] then 0 else (if ps[0].operation.Some? == known then 1 else 0) + Known(ps[1..], known)
  }

  lemma {:induction false} CountReports(ps: seq<Pdu>, at: nat, complete: bool)
    requires AllWritable(ps)
    ensures S.Count(Reports(ps, at), complete) == Known(ps, complete)
  {
    hide Pdu.Written, Pdu.Writable, Pdu.Report, Reports, WrittenAll, AllWritable, S.Count;
    if ps == [] {
      NoneOf(at);
      S.CountNothing();
    } else {
      FirstOf(ps, at);
      var rest := Reports(ps[1..], at + |ps[0].Written()|);
      CountReports(ps[1..], at + |ps[0].Written()|, complete);
      S.CountConcat([ps[0].Report(at)], rest, complete);
      CountOne(ps[0].Report(at), complete);
      ReportIs(ps[0], at);
    }
  }

  lemma {:induction false} CountOne(m: L.Message, complete: bool)
    ensures S.Count([m], complete) == if (m.status == L.Complete) == complete then 1 else 0
  {
    assert [m][..0] == [];
  }

  /**
   * Messages sent in order, in any segments that find room, are emitted once each with
   * the fields they were written from, counted as complete or unsupported, and consumed;
   * the beginning of one more stays pending.
   */
  lemma {:induction false} SentIsEmitted(ps: seq<Pdu>, tail: Bytes, segments: seq<T.Segment>, isn: nat)
    requires AllWritable(ps) && Arriving(tail) && WrittenAll(ps) + tail != []
    requires InOrder(segments, isn) && Payloads(segments) == WrittenAll(ps) + tail && S.NeverOverflows(segments)
    ensures var s := S.Sessions(segments);
            && s.emitted == Reports(ps, 0) && s.stream.ConsumedOffset() == |WrittenAll(ps)|
            && s.stream.status == (if Closes(segments) then T.Fin else T.Open)
            && s.observation.Some?
            && var o := s.observation.value;
               && o.status == (if tail == [] then S.Ready else S.Incomplete) && (o.pending.None? <==> tail == [])
               && o.completeCount == Known(ps, true) && o.unsupportedCount == Known(ps, false)
               && o.malformedCount == 0
  {
    hide S.Scan, S.Sessions, Represents, WrittenAll, Reports, S.Count, Arriving, AllWritable, S.NeverOverflows,
         Payloads;
    ScanWritten(ps, tail, 0);
    SentBegins(ps, tail);
    CountReports(ps, 0, true);
    CountReports(ps, 0, false);
    S.InOrderIsAccepted(segments, isn);
    S.SessionIsOneScan(segments);
  }

  // ---------------------------------------------------------------- room

  /** Whatever has arrived of messages is some of them whole and the beginning of one more. */
  lemma {:induction false} CutWritten(ps: seq<Pdu>, n: nat)
    returns (k: nat, tail: Bytes)
    requires AllWritable(ps) && n <= |WrittenAll(ps)|
    ensures k <= |ps| && WrittenAll(ps)[..n] == WrittenAll(ps[..k]) + tail
    ensures if k < |ps| then tail < ps[k].Written() else tail == []
  {
    hide Pdu.Written, Pdu.Writable, WrittenAll, Reports;
    NoneOf(0);
    if ps == [] {
      k, tail := 0, [];
      assert WrittenAll(ps)[..n] == [] && ps[..k] == [];
    } else {
      FirstOf(ps, 0);
      var p, rest := ps[0], WrittenAll(ps[1..]);
      if n < |p.Written()| {
        k, tail := 0, p.Written()[..n];
        assert ps[..0] == [] && WrittenAll(ps)[..n] == tail == [] + tail;
      } else {
        var j;
        j, tail := CutWritten(ps[1..], n - |p.Written()|);
        k := j + 1;
        FrontOf(ps, j);
        JoinCut(p.Written(), rest, WrittenAll(ps[1..][..j]), tail, n);
      }
    }
  }

  lemma {:induction false} FrontOf(ps: seq<Pdu>, j: nat)
    requires AllWritable(ps) && j < |ps|
    ensures AllWritable(ps[..j + 1]) && AllWritable(ps[1..][..j])
    ensures WrittenAll(ps[..j + 1]) == ps[0].Written() + WrittenAll(ps[1..][..j])
  {
    hide Pdu.Written, Pdu.Writable, WrittenAll;
    FirstOf(ps[..j + 1], 0);
    assert ps[..j + 1][1..] == ps[1..][..j];
  }

  lemma {:induction false} JoinCut(first: Bytes, rest: Bytes, whole: Bytes, tail: Bytes, n: nat)
    requires |first| <= n <= |first| + |rest| && rest[..n - |first|] == whole + tail
    ensures (first + rest)[..n] == (first + whole) + tail
  {
    assert (first + rest)[..n] == first + rest[..n - |first|];
    assert first + (whole + tail) == (first + whole) + tail;
  }

  /** Messages of at most `most` bytes fit, in segments that leave room for all but the last of these. */
  lemma {:induction false} SmallMessagesFit(ps: seq<Pdu>, segments: seq<T.Segment>, most: nat)
    requires AllWritable(ps) && Payloads(segments) == WrittenAll(ps)
    requires most > 0 && forall i :: 0 <= i < |ps| ==> |ps[i].Written()| <= most
    requires forall k :: 0 <= k < |segments| ==> most + |segments[k].payload| <= T.MAX_BYTES + 1
    ensures S.NeverOverflows(segments)
  {
    hide *;
    forall k: nat | k < |segments| ensures S.HasRoom(segments, k) {
      PayloadsPrefix(segments, k);
      LittleArrived(ps, Payloads(segments[..k]), most);
      S.RoomIs(segments, k);
    }
    AllHaveRoom(segments);
  }

  lemma {:induction false} AllHaveRoom(segments: seq<T.Segment>)
    requires forall k: nat :: k < |segments| ==> S.HasRoom(segments, k)
    ensures S.NeverOverflows(segments)
  {
    hide S.HasRoom;
  }

  lemma {:induction false} LittleArrived(ps: seq<Pdu>, arrived: Bytes, most: nat)
    requires AllWritable(ps) && arrived <= WrittenAll(ps)
    requires forall i :: 0 <= i < |ps| ==> |ps[i].Written()| <= most
    ensures S.Unread(arrived) < most || S.Unread(arrived) == 0
  {
    hide Pdu.Written, Pdu.Writable, S.Unread, WrittenAll;
    var n, rest := CutWritten(ps, |arrived|);
    assert arrived == WrittenAll(ps)[..|arrived|];
    LittleUnread(ps, n, rest);
  }

  lemma {:induction false} PayloadsPrefix(segments: seq<T.Segment>, k: nat)
    requires k <= |segments|
    ensures Payloads(segments[..k]) <= Payloads(segments)
    decreases |segments|
  {
    if k < |segments| {
      PayloadsPrefix(segments[..|segments| - 1], k);
      assert segments[..|segments| - 1][..k] == segments[..k];
    } else {
      assert segments[..k] == segments;
    }
  }

  lemma {:induction false} LittleUnread(ps: seq<Pdu>, k: nat, tail: Bytes)
    requires AllWritable(ps) && k <= |ps|
    requires if k < |ps| then tail < ps[k].Written() else tail == []
    ensures S.Unread(WrittenAll(ps[..k]) + tail) == |tail|
  {
    hide Pdu.Written, Pdu.Writable, S.Scan, WrittenAll;
    assert Arriving(tail);
    ScanWritten(ps[..k], tail, 0);
    if WrittenAll(ps[..k]) + tail != [] { SentBegins(ps[..k], tail); }
  }
}
