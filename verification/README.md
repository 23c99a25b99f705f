# A verified model of the observation engine's state machines

The engine watches network packets and keeps bounded, incremental state per
flow. Most of its code replaces a simple meaning over a whole capture by a step
over the next packet, within fixed limits. This project models those steps in
Dafny and proves that they keep that meaning: emitted evaluations equal the
batch evaluation, framed messages do not depend on segmentation, no DNS or LDAP
message is lost or counted twice, every packet is in one window, and aggregates
are exactly what their inputs add up to.

Check everything with `dafny verify dfyconfig.toml` (Dafny 4.11; all files
together, a few minutes).

## How the model is laid out

Each source file that computes with loops over changing variables is a set of
methods with loops, proved equal to a recursive specification; objects whose
methods change fields are classes; code made of expressions is functions. The
laws are then proved as lemmas about the specifications, over all inputs and all
runs.

| files | what they model |
|---|---|
| `Matching`, `Greedy`, `EvaluationSpec`, `Evaluation`, `Scoring` | the three-phase matching of findings and expectations, by scan and by deques, its optimality, the batch evaluation of a channel, and what its entries add up to |
| `IncrementalSpec`, `Incremental` | the incremental channel and evaluator, and their equality with the batch form |
| `TcpStream`, `StreamRefinement` | the bounded TCP buffer and the unbounded stream it stands for |
| `Framing`, `StreamFraming`, `TlsHandshake`, `WireFormats` | length-prefixed framing once for DNS, TLS records and TLS handshake messages, on top of the TCP buffer, and what they are on the wire |
| `Ldap`, `LdapStream`, `LdapRoundTrip`, `LdapWire` | the bounded BER envelope parser, the resumable LDAP framer with its shortcuts, and the messages as they are written |
| `DnsName`, `Dns`, `DnsMeaning`, `DnsRoundTrip`, `DnsArrival`, `DnsRefusals` | compression pointers, messages and EDNS options, what a decoded message is worth, the round trip of whole compressed messages, messages cut short, and bad names |
| `DnsCorrelation`, `DnsStatistics`, `DnsNames`, `DnsRecords`, `DnsFlow` | request and response correlation, four aggregates over it, the coordinator's loop and the closing of a flow |
| `DnsOverTcp` | a whole DNS flow over TCP: buffers, framers, analysis, correlation and aggregates composed |
| `LdapCorrelation` | LDAP correlation with request summaries |
| `WindowManager` | the manager of flow observation windows |
| `TlsHandshakeStatistics`, `FlowLabel`, `TcpOptions`, `Checksum` | aggregates and header arithmetic |
| `Common`, `Tally` | small datatypes, sums and extremes |

Conventions: bytes are integers from 0 to 255, timestamps are integers of
microseconds, flow identities are compared by equality only, a Python exception
is an `Err` result (or an error value) and leaves the state as the code leaves
it. A frozen dataclass is a datatype whose `Valid` predicate says what
`__post_init__` demands. `Optional` is `Option`, and a Python dictionary that is
walked in insertion order is a sequence with distinct keys.

## What the proofs found

* Deferral in the incremental evaluator is never idle: `DeferralIsNeeded` gives,
  for the finding that starts it, two continuations that judge it differently.
* LDAP framing depends on segmentation in one place only. A malformed message is
  judged as soon as it shows and kept as it looked then, so its
  `envelope_complete` flag says whether the envelope was there at that moment.
  `MalformedFlagDependsOnArrival` gives two runs of segments with the same eight
  bytes that keep different messages; `FlagAgreesExactly` says for every run when
  the flag is that of all bytes taken at once, and `ArrivalShowsExactly` when two
  runs agree. Everything else (messages, counters, status, consumption) is
  proved independent of chunking, for any two in-order chunkings that do not
  overflow the buffer and for any two readable runs that accept the same bytes.
* A FIN segment with payload that arrives twice makes its stream unreadable:
  `FinAgain` for every stream, `FinTwice` for one byte. Without payload it may
  come any number of times.
* Frames, handshake messages and parsers of in-order TLS and DNS streams do not
  depend on segmentation even when the framer refuses a length
  (`SegmentationIsInvisible` in `StreamFraming` and `TlsHandshake`).
* A one's-complement checksum field of 0xFFFF never validates, although it
  cancels the same sums as 0; this is part of the exact condition in `Checksum`.
* The check in `TLSHandshakeStatistics.__post_init__` is exact, not merely
  sufficient: every value it accepts is attained by some messages.

## Model

| member | source | states |
|---|---|---|
| `Matching.MatchByScan` | src/application/detection_evaluation.py:214-245 | the nested scan assigns each finding exactly as the three-phase specification does |
| `Matching.BuildIndex` | src/application/detection_evaluation.py:219-230 | per identity and decision a deque that lists, in order, exactly the findings with them |
| `Matching.PopKeepsIndex` | src/application/detection_evaluation.py:230-243 | taking the head of a deque keeps every deque equal to the list of unassigned findings of its key |
| `Matching.MatchByIndex` | src/application/detection_evaluation.py:214-245 | the deque form assigns exactly as the scan form, on every input |
| `Matching.MatchFindings` | src/application/detection_evaluation.py:207-245 | whichever form indexability selects, the assignment is the same |
| `Greedy.MatchAllIsGreedy` | src/application/detection_evaluation.py:214-245 | with non-contradictory expectations the three phases compute the greedy assignment: findings served by rank then position, expectations taken in order, none left over beside a partner |
| `Greedy.GreedyIsUnique` | src/application/detection_evaluation.py:214-245 | there is at most one greedy assignment, so the greedy property determines the result |
| `Greedy.GreedyIsOptimal` | src/application/detection_evaluation.py:214-245 | no one-to-one identity-respecting matching has more pairs, nor more pairs of the required decision |
| `Evaluation.EvaluateChannel` | src/application/detection_evaluation.py:248-265 | a channel's entries are one per finding in order, then one per unmatched expectation in order, and score every finding and every expectation once; a finding of the other channel is refused |
| `Scoring.EvaluationIsScored` | src/application/detection_evaluation.py:142-176 | for all findings and non-contradictory expectations: each finding and each expectation has one entry, beside a partner of its own identity only; true positives and false negatives are as many as the positive expectations, true and false positives as many as the findings that decided for a match, true negatives exactly the findings against a match beside a negative expectation, and all other entries unclassified |
| `Scoring.ScoresAreExact` | src/application/detection_evaluation.py:142-245 | identity by identity and in whatever order they come: as many true positives as pairs of a positive expectation and a matching finding can be formed, and as many true negatives as pairs of a negative expectation and a finding against a match |
| `Scoring.GreedyServesAgreeing` | src/application/detection_evaluation.py:214-245 | a greedy assignment serves as many agreeing findings of an identity as there are agreeing findings and expectations to pair |
| `Evaluation.CheckExpectations` | src/application/detection_evaluation.py:124-139 | an expectation list is refused if and only if two expectations of one identity contradict each other |
| `IncrementalSpec.IncrementalEqualsBatch` | src/application/incremental_detection_evaluation.py:28-91 | for every finding sequence, recording one at a time and finishing emits exactly the batch entries, in the same order, for the settling and the deferring channel |
| `IncrementalSpec.EmittedIsFinal` | src/application/incremental_detection_evaluation.py:43-68 | what has been emitted at any moment is a prefix of the batch result, whatever follows |
| `IncrementalSpec.DeferralIsNeeded` | src/application/incremental_detection_evaluation.py:43-68 | the finding that starts a deferral is judged differently depending on what follows, so deferring is never idle |
| `IncrementalSpec.AloneTakesFirstUnused` | src/application/incremental_detection_evaluation.py:28-41 | a finding matched alone takes the first unused expectation of its identity, whatever it decided |
| `IncrementalSpec.SettlingKeepsSettled` | src/application/incremental_detection_evaluation.py:43-68 | settling one more finding keeps the settled prefix a greedy assignment of its own |
| `IncrementalSpec.CombineGreedy` | src/application/incremental_detection_evaluation.py:70-91 | a greedy prefix that served only required decisions and a greedy suffix over what it left make up a greedy whole |
| `Incremental.EvaluationChannel.constructor` | src/application/incremental_detection_evaluation.py:13-26 | a new channel has used, emitted and deferred nothing, and has an index, covering all expectations, exactly when every identity can be a key |
| `Incremental.EvaluationChannel.HeadOfQueue` | src/application/incremental_detection_evaluation.py:28-41 | after dropping used indices the head of a deque is the first unused expectation of its identity |
| `Incremental.EvaluationChannel.MatchCurrent` | src/application/incremental_detection_evaluation.py:28-41 | through deques or by a scan, the candidate is the first unused expectation of the finding's identity |
| `Incremental.EvaluationChannel.Record` | src/application/incremental_detection_evaluation.py:43-68 | the channel's fields change exactly as the specification's record step, entries emitted included |
| `Incremental.EvaluationChannel.Finish` | src/application/incremental_detection_evaluation.py:70-91 | deferred findings, then unused expectations, are emitted: the whole emission is the batch evaluation |
| `Incremental.DetectionEvaluator.Record` | src/application/incremental_detection_evaluation.py:123-146 | an idle open evaluator records in one channel only; anything else is refused and a bad finding fails it for good |
| `Incremental.DetectionEvaluator.Finish` | src/application/incremental_detection_evaluation.py:148-158 | however packet and flow findings were interleaved, both channels have emitted their batch evaluation, in which every finding and expectation is scored once; finishing again does nothing |
| `Incremental.DetectionEvaluator.Abort` | src/application/incremental_detection_evaluation.py:160-163 | only an open or failed evaluator can be aborted, and then holds no pending finding |
| `Framing.Advance` | src/analysis/tls_record_framing.py:99-126 | the framing loop takes and emits exactly what feeding its bytes one by one does |
| `Framing.FeedConcat` | src/analysis/tls_record_framing.py:99-126 | feeding two chunks is feeding their concatenation |
| `Framing.ChunkingIsInvisible` | src/analysis/tls_record_framing.py:89-135 | any chunking of the same bytes gives the same frames and the same residual parser |
| `Framing.RoundTrip` | src/analysis/dns_stream_framing.py:87-114 | any chunking of the encoding of within-limit frames yields exactly those frames and a parser at rest |
| `Framing.FeedConserves` | src/analysis/tls_record_framing.py:103-135 | re-encoding the emitted frames and adding the residue reproduces exactly the bytes taken, and every emitted frame is legal |
| `Framing.FramesNeedBytes` | src/analysis/tls_record_framing.py:99-126 | frames come only out of bytes: an update that emits has moved forward |
| `TcpStream.OverlapStep` | src/analysis/tcp_stream_observation.py:129-143 | the retransmission branch: overlap compared, conflict or tail handled as specified |
| `TcpStream.PayloadStep` | src/analysis/tcp_stream_observation.py:115-159 | `_observe_payload` updates relation, status, payload, offset and next sequence as specified |
| `TcpStream.SegmentStep` | src/analysis/tcp_stream_observation.py:162-205 | one segment changes the observation exactly as the specification says |
| `StreamRefinement.ObserveRepresents` | src/analysis/tcp_stream_observation.py:162-205 | one segment grows the accepted bytes by its payload or not at all; the buffer is still their tail, the numbers still number them, the consumed position stays |
| `StreamRefinement.SegmentVerdict` | src/analysis/tcp_stream_observation.py:115-201 | what an open stream makes of any segment by where it lies in the unbounded stream, modulo 2^32 (section 3.4 of RFC 9293): fragments and second beginnings refused; payload appended, recognised, refused as conflict, overlap, gap or for lack of room; RST closes; FIN closes exactly if the segment ends where the accepted bytes end, and is a gap or an overlap otherwise |
| `StreamRefinement.RelationVerdict` | src/analysis/tcp_stream_observation.py:115-170 | the relation, the distance and the numbers reported for a segment that is read, by where it lies: first, contiguous, gap, duplicate, overlap or empty |
| `StreamRefinement.OpeningIsRemembered` | src/analysis/tcp_stream_observation.py:162-188 | on every run that is still open the remembered SYN, the numbering of byte zero and whether anything is expected are those of the first segment with a SYN or payload, found from the events alone |
| `StreamRefinement.RestartsExactly` | src/analysis/tcp_stream_observation.py:180-181 | which SYN is a second beginning, by the events alone: one on a run that has been opened, unless it repeats the number of the SYN that opened it |
| `StreamRefinement.SynVerdict` | src/analysis/tcp_stream_observation.py:180-188 | on an open run a SYN with another number ends it RESTART with its bytes unchanged; the opening SYN again leaves everything as it is, and so does the payload the first one brought while it is in the buffer |
| `StreamRefinement.SynTwice` | src/analysis/tcp_stream_observation.py:180-188 | a concrete SYN sent twice leaves the stream open and readable; another one ends it RESTART |
| `StreamRefinement.HalfwayIsAmbiguous` | src/analysis/tcp_stream_observation.py:108-125 | a position exactly half the sequence circle away makes payload and FIN AMBIGUOUS |
| `StreamRefinement.FinAgain` | src/analysis/tcp_stream_observation.py:174-177 | the FIN segment that closed a stream may come again only without payload; with it the stream ends AFTER_CLOSE and cannot be read any more |
| `StreamRefinement.FinTwice` | src/analysis/tcp_stream_observation.py:174-197 | a concrete segment of one byte and a FIN, sent twice: FIN, then AFTER_CLOSE |
| `StreamRefinement.RetransmissionIsHarmless` | src/analysis/tcp_stream_observation.py:129-143 | bytes still in the buffer may arrive again, with any flags, without changing the buffer or its start; only a FIN or RST they carry changes the status, and as for any other segment |
| `StreamRefinement.FailureIsFinal` | src/analysis/tcp_stream_observation.py:162-205 | a stream that is no longer open never is again and its bytes never change |
| `StreamRefinement.EveryRunIsAWindow` | src/analysis/tcp_stream_observation.py:115-253 | on every run of arrivals and reads the buffer holds at most 65536 bytes, is a window on the accepted bytes, and the unread bytes are all those not consumed |
| `StreamRefinement.ForgetsOnlyForRoom` | src/analysis/tcp_stream_observation.py:147-154 | consumed bytes leave the buffer exactly when the next segment in turn needs their room, and never otherwise |
| `StreamRefinement.NothingForgotten` | src/analysis/tcp_stream_observation.py:115-159 | on every run that has accepted at most 65536 bytes and not overflowed all of them are still in the buffer |
| `StreamRefinement.AcceptedStaysUnread` | src/analysis/tcp_stream_observation.py:115-253 | whatever arrives or is read later, every accepted byte stays at its place among the unread bytes until it is consumed, and a stream that cannot be read never can be again |
| `StreamRefinement.ConsumeRepresents` | src/analysis/tcp_stream_observation.py:239-253 | `consume_tcp_stream` fails exactly when the stream cannot be read or more is asked for than is unread; else it takes the front of the unread bytes and changes nothing but the consumed position |
| `StreamRefinement.InPlaceStep` | src/analysis/tcp_stream_observation.py:144-201 | the next segment in order, be it a SYN, the opening SYN again, data, empty or a FIN, is accepted exactly if unread bytes and payload fit in 65536 bytes, and exceeds the limit otherwise; its FIN closes the stream |
| `StreamFraming.FrameDirection` | src/analysis/dns_stream_framing.py:73-114 | both length-prefix framers: observation, frames and consumption are those of feeding the unread bytes |
| `StreamFraming.SessionIsOneFeed` | src/analysis/tls_record_framing.py:89-135 | over any run of segments, in order or not, frames and parser are those of the accepted bytes fed at once |
| `StreamFraming.StatusIsExact` | src/analysis/dns_stream_framing.py:73-114 | over any run the status is unavailable exactly once a frame was refused, for the limit, or the stream broke, for that stream's status; ready exactly between two frames, and incomplete otherwise |
| `StreamFraming.SameBytesSameFrames` | src/analysis/tls_record_framing.py:89-135 | two runs of any segments that accept the same bytes cannot be told apart by their framing |
| `StreamFraming.SegmentationIsInvisible` | src/analysis/tls_record_framing.py:89-135 | two in-order chunkings of the same bytes give the same frames and leave the same parser, also when a frame is refused and the buffers accept different numbers of bytes after it |
| `StreamFraming.DrainingSuffices` | src/analysis/tcp_stream_observation.py:147-159 | while the framer has refused no frame everything accepted is consumed and the buffer limit cannot have been reached, however long the stream |
| `StreamFraming.DnsNeverFails` | src/analysis/dns_stream_framing.py:87-114 | DNS framing (section 4.2.2 of RFC 1035) never fails by itself |
| `StreamFraming.InOrderIsDelivered` | src/analysis/flow_state_coordinator.py:347-368 | an in-order stream of any length, from SYN to FIN, gives the frames and the parser of all its bytes fed at once, whether or not a frame is refused; if none is, it is accepted whole and ends OPEN or FIN |
| `StreamFraming.WireRoundTrip` | src/analysis/dns_stream_framing.py:87-114 | the encoding of legal frames, sent in order in any pieces, comes out as those frames with status READY |
| `TlsHandshake.ReadRecords` | src/analysis/tls_handshake_framing.py:101-138 | the loops over records and payload bytes compute what feeding the carried bytes does |
| `TlsHandshake.FrameDirection` | src/analysis/tls_handshake_framing.py:89-138 | `_frame_direction`: status, residue and messages as specified, replay guard included |
| `TlsHandshake.ReplayIsInvisible` | src/analysis/tls_handshake_framing.py:89-138 | presenting an applied record batch again emits nothing and changes nothing |
| `TlsHandshake.BothLayersAreOneFeed` | src/analysis/tls_handshake_framing.py:89-138 | segmentation independence through both layers (section 4 of RFC 8446): records, messages and residue depend only on the accepted bytes, and the reason reported is the own limit or that of the records |
| `TlsHandshake.InOrderIsDelivered` | src/analysis/tls_handshake_framing.py:89-138 | over any in-order stream records, messages and both unfinished parsers are those of all bytes taken at once, refused records and messages included |
| `TlsHandshake.SegmentationIsInvisible` | src/analysis/tls_handshake_framing.py:89-138 | two in-order chunkings of the same bytes give the same records, handshake messages and residual parsers of both layers, whatever the bytes are |
| `TlsHandshake.HandshakeRoundTrip` | src/analysis/tls_handshake_framing.py:101-138 | messages cut into records cut into segments come out whole, whatever the cuts |
| `WireFormats.DnsOnTheWire` | src/analysis/dns_stream_framing.py:87-114 | on literal bytes: DNS messages of at most 65535 bytes behind two length octets, sent in order in any segments, are the ones analysed |
| `WireFormats.RecordTooLong` | src/analysis/tls_record_framing.py:99-126 | on literal bytes: a TLS record header is refused exactly if its fourth and fifth octet declare more than 18432 bytes |
| `WireFormats.HandshakeTooLong` | src/analysis/tls_handshake_framing.py:101-138 | on literal bytes: a handshake header is refused exactly if its last three octets declare more than 262144 bytes |
| `WireFormats.TlsOnTheWire` | src/analysis/tls_handshake_framing.py:89-138 | on literal bytes: handshake messages cut in any way into records of type 22, among any others, and these into segments in order, come out whole, and so do the records |
| `Ldap.ReadEnvelope` | src/analysis/ldap.py:86-110 | a BER envelope is read inside its parent and the available bytes; its start and end are in range |
| `Ldap.MessageShifts` | src/analysis/ldap.py:113-167 | a message is judged by the bytes from its own start on, wherever it stands |
| `Ldap.VerdictIsStable` | src/analysis/ldap.py:113-167 | any verdict other than INCOMPLETE stands when bytes are added |
| `Ldap.CompleteIsDecided` | src/analysis/ldap.py:113-167 | inside a complete envelope nothing can be missing |
| `Ldap.CompleteVerdict` | src/analysis/ldap.py:113-167 | COMPLETE means the whole envelope is here and identifier and operation are known (section 4.1.1 of RFC 4511) |
| `Ldap.WaitingIsIdle` | src/analysis/ldap_stream_framing.py:82-95 | while only the operation's own bytes are missing, parsing again changes nothing |
| `LdapRoundTrip.TagsAreExact` | src/analysis/ldap.py:17-38 | the 21 operation tags are the application numbers of RFC 4511 with the constructed bit but for the three primitive operations; no other tag is known |
| `LdapRoundTrip.MessageRoundTrip` | src/analysis/ldap.py:86-167 | every identifier below 2^31 in its shortest octets, every tag, any body, optional controls, each length in short form or in one to four octets, within 65536 bytes and followed by anything: COMPLETE if the operation is known, UNSUPPORTED if not, with exactly these fields |
| `LdapRoundTrip.ArrivingIsIncomplete` | src/analysis/ldap.py:113-167 | every proper beginning of such a message is INCOMPLETE |
| `LdapRoundTrip.CompleteExactly` | src/analysis/ldap.py:113-167 | a message is COMPLETE if and only if the bytes begin with one that was written so, and its fields are then those of that one |
| `LdapRoundTrip.BadBeginnings` | src/analysis/ldap.py:86-107 | which first two bytes are MALFORMED and which UNSUPPORTED |
| `LdapRoundTrip.TooLong` | src/analysis/ldap.py:123-127 | a declared length of more than 65536 bytes is UNSUPPORTED as soon as it is there |
| `LdapRoundTrip.BadIdentifiers` | src/analysis/ldap.py:128-137 | a first component that is no identifier of one to four octets in shortest form, or a negative one, is MALFORMED |
| `LdapRoundTrip.OperationTooLong` | src/analysis/ldap.py:105-110 | an operation that declares more than is left of its message is MALFORMED, its identifier reported |
| `LdapRoundTrip.BadTrailers` | src/analysis/ldap.py:152-162 | behind the operation any component but controls, and anything behind the controls, is UNSUPPORTED, with identifier, tag and length of the operation reported |
| `LdapStream.FrameDirection` | src/analysis/ldap_stream_framing.py:63-123 | with the `unchanged` and `waiting` shortcuts the result is that of parsing all unconsumed bytes again |
| `LdapStream.WaitingScansTheSame` | src/analysis/ldap_stream_framing.py:82-95 | a pending message that waits parses to itself as long as it is too short |
| `LdapStream.ScanStep` | src/analysis/ldap_stream_framing.py:99-123 | the parsing loop: messages, counters, pending message and consumption are those of the scan |
| `LdapStream.ScanExtends` | src/analysis/ldap_stream_framing.py:99-123 | adding bytes continues a scan from where it stopped, unless it stopped for good |
| `LdapStream.SessionsContinue` | src/analysis/ldap_stream_framing.py:81-95 | between packets the framer is always called in a state in which its shortcuts are invisible |
| `LdapStream.SessionIsOneScan` | src/analysis/ldap_stream_framing.py:63-123 | over any run of segments messages and counters are those of one scan of the accepted bytes |
| `LdapWire.ScanWritten` | src/analysis/ldap_stream_framing.py:99-123 | written messages one after the other are cut apart where they were put together, and the beginning of one more stays pending as INCOMPLETE |
| `LdapWire.TooLongStops` | src/analysis/ldap_stream_framing.py:99-123 | a message that declares more than 65536 bytes leaves the stream UNSUPPORTED with nothing emitted or consumed |
| `LdapWire.WaitsForItsEnd` | src/analysis/ldap_stream_framing.py:99-123 | a message of known length within the limit is waited for as INCOMPLETE, whatever is wrong with it short of MALFORMED, and nothing is emitted or consumed before it is whole |
| `LdapWire.SentIsEmitted` | src/analysis/ldap_stream_framing.py:63-123 | such messages sent in order in any segments that find room are emitted once each with the fields they were written from, counted, and consumed |
| `LdapWire.SmallMessagesFit` | src/analysis/ldap_stream_framing.py:63-123 | segments always find room if a message but for its last byte and a segment fit in the buffer together |
| `LdapStream.SameBytesSameMessages` | src/analysis/ldap_stream_framing.py:63-123 | two runs of any segments that accept the same bytes emit the same messages and consume as much; while both can be read, status, counters and pending message agree too, but for one flag of a malformed one |
| `LdapStream.InOrderIsAccepted` | src/analysis/ldap_stream_framing.py:63-123 | an in-order stream, from SYN to FIN, is accepted whole exactly if every segment finds room behind the bytes then unread, and ends at the limit otherwise |
| `LdapStream.SegmentationIsInvisible` | src/analysis/ldap_stream_framing.py:63-123 | two in-order chunkings of the same bytes that do not overflow the buffer emit the same messages and leave the same state, but for that flag |
| `LdapStream.MalformedIsJudgedOnce` | src/analysis/ldap_stream_framing.py:81-123 | what is kept of a malformed stream is the scan of the shortest prefix of the run that was malformed, however many bytes follow |
| `LdapStream.FlagAgreesExactly` | src/analysis/ldap_stream_framing.py:81-123 | on every run the kept flag is that of all bytes taken at once if and only if the malformed message has no known end, or ended within the bytes there at the verdict, or has still not ended |
| `LdapStream.ArrivalShowsExactly` | src/analysis/ldap_stream_framing.py:81-123 | two runs over the same malformed bytes keep the same message if and only if their verdicts fell on the same side of its envelope's end |
| `LdapStream.MalformedFlagDependsOnArrival` | src/analysis/ldap_stream_framing.py:81-123 | eight bytes in one segment or in two: the same bytes accepted, different pending messages kept |
| `DnsName.ReadName` | src/analysis/dns.py:185-231 | the name loop ends and returns what the bounded walk specifies, error and boundaries included |
| `DnsName.MeaningIsUnique` | src/analysis/dns.py:185-231 | the unbounded expansion of compression pointers (section 4.1.4 of RFC 1035) yields one list of labels |
| `DnsName.WalkMeans` | src/analysis/dns.py:185-231 | a decoded name has exactly the labels its encoding expands to, within 255 bytes and 32 pointers |
| `DnsName.PointersReachBack` | src/analysis/dns.py:200-217 | an accepted pointer leads strictly back, to the start of a name suffix decoded before |
| `DnsName.WalkSpans` | src/analysis/dns.py:185-231 | the encoded length is the span up to the root or first pointer |
| `DnsName.NameIsDecoded` | src/analysis/dns.py:185-231 | all of the above for a name read at any place of a message, with the boundaries it adds |
| `DnsName.NameDecodesExactly` | src/analysis/dns.py:185-231 | a name decodes if and only if its bytes spell one within 255 bytes and 32 pointers: labels of 1 to 63 bytes, then the root or a pointer back to a boundary read before that spells one; it then has exactly these labels and pointers, takes up what stands at its place, and adds its suffixes to the boundaries |
| `Dns.ReadEdns` | src/analysis/dns.py:234-252 | the option loop returns what the recursive reading of the options specifies |
| `Dns.OptionsExactly` | src/analysis/dns.py:234-252 | EDNS data decodes if and only if it is the encoding of at most 128 options |
| `Dns.OptionsDecode` | src/analysis/dns.py:234-252 | the decoded options encode back to the data |
| `Dns.OptionsEncode` | src/analysis/dns.py:234-252 | the encoding of options decodes to these options |
| `Dns.EdnsRoundTrip` | src/analysis/dns.py:234-252 | payload size, extended code, version, flags and options written into an option record are the ones read from it |
| `Dns.ReadRecord` | src/analysis/dns.py:282-302 | one resource record: fields, OPT rules, opaque range and errors as specified |
| `Dns.ReadEntry` | src/analysis/dns.py:272-304 | one entry of a section: name, then question or record, with the entry limit |
| `Dns.Analyze` | src/analysis/dns.py:255-316 | the message loops return what the section-by-section specification says, for every payload |
| `DnsRoundTrip.MessageRoundTrip` | src/analysis/dns.py:255-316 | every header and entries within the limits, each name written out or ending in a pointer to any name or suffix written before it, are analysed as a COMPLETE message with this header and exactly these entries |
| `DnsRoundTrip.AnswerPointsToQuestion` | src/analysis/dns.py:200-217 | an answer whose owner is the pointer to byte 12 is such a message, whatever the question's name |
| `DnsArrival.CutShortIsIncomplete` | src/analysis/dns.py:180-316 | every proper beginning of a message that is COMPLETE as a whole is INCOMPLETE for truncation, with the same header once twelve bytes are there |
| `DnsArrival.BytesBehindAreMalformed` | src/analysis/dns.py:305-311 | with bytes behind it such a message is MALFORMED where it ends, header and entries reported all the same |
| `DnsRefusals.BadPointer` | src/analysis/dns.py:200-217 | wherever a message has been read to: a pointer, behind any labels, to no name read before is UNSUPPORTED if it leads into the data of a record read before, and MALFORMED otherwise |
| `DnsRefusals.BadLabel` | src/analysis/dns.py:218-231 | wherever a message has been read to: behind any labels, a byte from 64 to 127 is UNSUPPORTED, one from 128 to 191 MALFORMED, and a label that makes the name longer than 255 bytes MALFORMED |
| `DnsMeaning.CompleteMessage` | src/analysis/dns.py:234-307 | a COMPLETE message has the declared entries in every section, at most 128, tiling the payload, each saying what its bytes mean, with at most one OPT record in its place, whose options encode to its data and whose EDNS fields are those of its class and TTL |
| `DnsMeaning.EveryMessage` | src/analysis/dns.py:255-316 | whatever the verdict, the entries reported tile what is said to be parsed, and COMPLETE goes with no reason and no offset |
| `DnsMeaning.EntriesFit` | src/analysis/dns.py:272-304 | every entry of every message has labels, codes and lengths within their wire bounds |
| `DnsCorrelation.MessagesAreParsed` | src/analysis/dns.py:255-316 | every COMPLETE message has what the correlation relies on |
| `DnsCorrelation.Update` | src/analysis/dns_correlation.py:81-149 | the branches over table and observations compute the specified state or the specified refusal |
| `DnsCorrelation.VerdictMeans` | src/analysis/dns_correlation.py:104-149 | when a message is MATCHED, PENDING, AMBIGUOUS or UNRESOLVED, in terms of which requests are outstanding |
| `DnsCorrelation.EffectNamesTheRequest` | src/analysis/dns_correlation.py:104-149 | in terms of the table's keys alone: a MATCHED response names the entry of the opposite direction and its identifier, with that entry's message and capture time, and afterwards all other entries are there unchanged and none has this key; an AMBIGUOUS repeat names and marks the entry of its own key and no other; what is pending, unmatched or given up says so of itself and leaves the table as stated |
| `DnsCorrelation.UpdateNamesTheRequest` | src/analysis/dns_correlation.py:81-149 | the same of a whole update and the state it leaves |
| `DnsCorrelation.QuestionsAgreeExactly` | src/analysis/dns_correlation.py:74-77 | questions are compared by type, class and name, names byte by byte but for the case of ASCII letters |
| `DnsCorrelation.UpdateKeepsSound` | src/analysis/dns_correlation.py:104-149 | at most 128 outstanding requests, distinct keys, none newer than the last message, none once unavailable |
| `DnsCorrelation.UpdateConserves` | src/analysis/dns_correlation.py:104-149 | as multisets: messages made final plus messages waiting are the messages waiting before plus the new one |
| `DnsCorrelation.FinalizeConserves` | src/analysis/dns_correlation.py:152-161 | closing makes every waiting message final exactly once, after the retained observations; closing again changes nothing |
| `DnsCorrelation.FinalizeEndsRequests` | src/analysis/dns_correlation.py:152-161 | behind the final observations kept in order, closing puts every outstanding request as it was, but UNRESOLVED for the closing of the flow |
| `DnsCorrelation.UpdateSettles` | src/analysis/dns_correlation.py:104-149 | every final observation's verdict agrees with its message and request: a MATCHED response and its request have the same identifier, opcode and questions, and the request came first |
| `DnsCorrelation.FinalizeSettles` | src/analysis/dns_correlation.py:152-161 | so do those that closing adds |
| `DnsStatistics.UpdateTransactions` | src/analysis/dns_transaction_statistics.py:76-114 | the update returns the specified aggregate, which passes the constructor's check, and refuses a pending observation |
| `DnsStatistics.AddKeepsValid` | src/analysis/dns_transaction_statistics.py:24-59 | no final observation can make the transaction statistics fail their own check |
| `DnsStatistics.AddSummarises` | src/analysis/dns_transaction_statistics.py:76-114 | section sums, opcode bins and response-code bins are those of the messages accounted for so far |
| `DnsStatistics.SummaryCountsVerdicts` | src/analysis/dns_transaction_statistics.py:76-114 | over any list of final observations: each verdict's count, the sum of latencies, and the attained extremes |
| `DnsStatistics.CountFlags` | src/analysis/dns_message_flag_statistics.py:47-66 | each header flag that is set is counted once, and no other |
| `DnsStatistics.HeaderWordIsRead` | src/analysis/dns.py:36-70 | every field of the second header word is read back from the word it was put into, and each counter is for the flag it is named after |
| `DnsStatistics.UpdateFlags` | src/analysis/dns_message_flag_statistics.py:35-66 | every counter grows by the number of the observation's messages with that flag; the result passes the check |
| `DnsStatistics.FlagsAddedSummarise` | src/analysis/dns_message_flag_statistics.py:35-66 | so the counters are those of all messages accounted for so far |
| `DnsNames.LookAtBytes` | src/analysis/dns_query_name_statistics.py:117-121 | the byte loop finds exactly the classes that occur in the label |
| `DnsNames.CountName` | src/analysis/dns_query_name_statistics.py:96-125 | one name: lengths, extremes, label counts and byte classes as specified |
| `DnsNames.Update` | src/analysis/dns_query_name_statistics.py:85-129 | all names of the observation's messages are added, in order, and the result passes the check |
| `DnsNames.AddNameKeepsValid` | src/analysis/dns_query_name_statistics.py:27-74 | no decoded name can make the name statistics fail their own check |
| `DnsNames.NamesAreCounted` | src/analysis/dns_query_name_statistics.py:85-129 | the numbers of names, labels, expanded bytes, roots, and names with each byte class are those of the names added |
| `DnsNames.ExtremesAreAttained` | src/analysis/dns_query_name_statistics.py:85-129 | least and greatest name length, label length and labels per name are those of the names added, and name and label lengths add up to their totals |
| `DnsNames.NumbersDetermine` | src/analysis/dns_query_name_statistics.py:14-25 | these counts and extremes determine the whole aggregate |
| `DnsNames.AddNamesPermuted` | src/analysis/dns_query_name_statistics.py:85-129 | the order in which names are added does not show in the aggregate |
| `DnsRecords.IncrementCode` | src/analysis/dns_resource_record_statistics.py:77-81 | the block is replaced in place and exactly one bin grows by one |
| `DnsRecords.CountRecords` | src/analysis/dns_resource_record_statistics.py:106-117 | the record loop changes RDATA extremes and both tables in place as specified |
| `DnsRecords.Update` | src/analysis/dns_resource_record_statistics.py:84-120 | all records of the observation's messages are added, or the current value is returned when there are none |
| `DnsRecords.AddMessagesKeepsValid` | src/analysis/dns_resource_record_statistics.py:44-66 | no message can make the record statistics fail their own check |
| `DnsRecords.MessagesSummarise` | src/analysis/dns_resource_record_statistics.py:84-120 | section counts, total, least and greatest RDATA length, and all 65536 type and class bins are those of the messages accounted for |
| `DnsFlow.CountObservations` | src/analysis/flow_state_coordinator.py:447-453 | every observation that is not pending goes to each aggregate once |
| `DnsFlow.Deliver` | src/analysis/flow_state_coordinator.py:443-453 | one message: refused exactly as the correlation refuses, else correlated, counted and accounted for |
| `DnsFlow.Coordinator.constructor` | src/analysis/flow_state_coordinator.py:430-442 | a new flow has delivered and observed nothing and holds no state |
| `DnsFlow.Coordinator.Record` | src/analysis/flow_state_coordinator.py:429-454 | a packet's messages are taken whole or refused leaving the state as it was; afterwards every message delivered is counted or waiting, and state and final observations are those of correlating the messages in turn |
| `DnsFlow.OpenFlowAccounts` | src/analysis/flow_state_coordinator.py:443-453 | at every reachable state messages delivered are the sum of the opcode bins plus the outstanding requests, and every final observation has one of the four verdicts |
| `DnsFlow.VerdictsOfFlow` | src/analysis/flow_state_coordinator.py:443-453 | at every reachable state, open or closed, verdict counts, sum of latencies and their attained extremes are those of all final observations of the flow, which account for as many messages as there are observations and matches |
| `DnsFlow.Close` | src/analysis/flow_observation_window.py:87-112 | closing counts each outstanding request exactly once as an unresolved observation, so that the counted messages are, as a multiset, the delivered ones; a flow without correlation or already finalized is left alone |
| `DnsFlow.ClosedFlowCountsEveryMessage` | src/analysis/flow_observation_window.py:87-112 | after closing, all header, flag, section, type, class, RDATA and name numbers, extremes included, are those of the messages delivered, in whatever order they became final |
| `DnsFlow.CloseFlow` | src/analysis/flow_observation_window.py:87-112 | for the whole life of a flow, after any packets recorded and the closing: header, record and name numbers are those of all messages delivered; verdict counts and latencies those of all final observations, the closing ones included |
| `DnsOverTcp.FrameSide` | src/analysis/dns_stream_framing.py:73-114 | one direction of a packet: framed as the runs of its segments say, or left as it is when the packet is for the other direction |
| `DnsOverTcp.MessagesOf` | src/analysis/flow_state_coordinator.py:427-436 | the messages of a packet are the analyses of its frames, forward first, or a single absent one when there are no frames |
| `DnsOverTcp.TcpFlow.constructor` | src/analysis/flow_state_coordinator.py:347-368 | a new flow has taken no packet, framed nothing and delivered nothing |
| `DnsOverTcp.TcpFlow.Record` | src/analysis/flow_state_coordinator.py:347-454 | a packet is buffered, framed, analysed and correlated whole, or leaves everything as it was; the messages delivered are those in the frames of both directions |
| `DnsOverTcp.CloseTcpFlow` | src/analysis/flow_observation_window.py:87-112 | after any packets and the closing, the numbers of all aggregates are those of the messages analysed from the frames of both directions |
| `DnsOverTcp.InOrderMessages` | src/analysis/flow_state_coordinator.py:347-454 | a direction that arrives in order brings exactly the messages of its bytes framed all at once |
| `DnsOverTcp.SentIsAnalysed` | src/analysis/flow_state_coordinator.py:347-454 | length-prefixed messages sent in order in any segments are the ones analysed |
| `DnsFlow.AggregatesAgree` | src/analysis/flow_state_coordinator.py:443-453 | flag message count, sum of opcode bins, responses, name count, question count and record-section counts agree at every reachable state |
| `LdapCorrelation.RequestsAreAnswered` | src/analysis/ldap_correlation.py:16-28 | the operations waited for are exactly those that some response answers |
| `LdapCorrelation.ResponsesByNumber` | src/analysis/ldap_correlation.py:16-28 | which response answers which request, by application number: the number before its own, but for the three responses to a search |
| `LdapCorrelation.NonCorrelatableExactly` | src/analysis/ldap_correlation.py:148-157 | exactly incomplete messages, those numbered zero, and the operations that neither wait for a response nor are one take no part |
| `LdapCorrelation.Step` | src/analysis/ldap_correlation.py:148-202 | the branches over one message compute the specified table, counters and observation |
| `LdapCorrelation.StatusMeans` | src/analysis/ldap_correlation.py:148-202 | when a message is matched, pending, ambiguous, unmatched or not correlatable, in terms of which requests are open |
| `LdapCorrelation.StepNamesTheRequest` | src/analysis/ldap_correlation.py:148-202 | in terms of the table's keys alone: which entry a message names, what is counted for it, that a terminal response removes it and a continuation leaves it with one response more, and that every other entry stays |
| `LdapCorrelation.TakenObserves` | src/analysis/ldap_correlation.py:141-202 | one update observes every message it brings once, in order, in its own direction |
| `LdapCorrelation.LossEndsMatching` | src/analysis/ldap_correlation.py:132-209 | a gap ends the matching before the messages that come with it, a failed stream after them; nothing is open then, and nothing else but the table's own limit ends it |
| `LdapCorrelation.LossIsForGood` | src/analysis/ldap_correlation.py:132-209 | once the matching has ended no later update opens, answers or spoils a request, and the numbers matched stay |
| `LdapCorrelation.Update` | src/analysis/ldap_correlation.py:109-209 | one framing update: refused, recognised as the last one, or taken as specified |
| `LdapCorrelation.TakenKeeps` | src/analysis/ldap_correlation.py:132-209 | one update keeps all accounts, its observations added to those before |
| `LdapCorrelation.EveryRunAccounts` | src/analysis/ldap_correlation.py:132-209 | on every run: at most 128 distinct open requests; matched responses are those of finished summaries plus those of open requests; each finished summary ends with its one terminal response, after search continuations only (section 4.5.2 of RFC 4511) |
| `LdapCorrelation.FinalizeKeeps` | src/analysis/ldap_correlation.py:212-219 | closing ends every open request UNRESOLVED with its summary, leaves every other entry and all accounts as they were, and changes nothing the second time |
| `LdapCorrelation.ProperStep` | src/analysis/ldap_request_summary.py:37-56 | a summary completes with its terminal response, counting it and the continuations of its thread |
| `WindowManager.Oldest` | src/analysis/flow_observation_window.py:290-297 | the evicted window is minimal in (last capture time, sequence number) |
| `WindowManager.Sorted` | src/analysis/flow_observation_window.py:345-368 | the windows of the table, each once, by sequence number |
| `WindowManager.SortedWindows` | src/analysis/flow_observation_window.py:345-368 | the sorted windows are strictly increasing in sequence number and are all windows of the table |
| `WindowManager.ClosedWindows` | src/analysis/flow_observation_window.py:348-356 | all open windows, closed, strictly increasing in sequence number |
| `WindowManager.OpenKeeps` | src/analysis/flow_observation_window.py:370-394 | opening a window keeps numbering, partition, order and single open window per flow |
| `WindowManager.ExtendKeeps` | src/analysis/flow_observation_window.py:317-323 | a packet less than the timeout after the last joins its window, so that packets of one window stay in time order less than the timeout apart |
| `WindowManager.CloseKeeps` | src/analysis/flow_observation_window.py:325-343 | closing a window logs its number once and moves no packet |
| `WindowManager.SilenceIsReal` | src/analysis/flow_observation_window.py:310-317 | a window is closed for inactivity only by a packet of its flow that opens the next window at least the timeout after its last packet; so it is at any time for every window closed so |
| `WindowManager.FlowObservationWindowManager.constructor` | src/analysis/flow_observation_window.py:250-274 | a new manager has opened, closed and accepted nothing |
| `WindowManager.FlowObservationWindowManager.RecordNew` | src/analysis/flow_observation_window.py:370-394 | a new window takes the next sequence number and at most one window is displaced; a refusal changes nothing |
| `WindowManager.FlowObservationWindowManager.Record` | src/analysis/flow_observation_window.py:276-323 | when a packet extends, opens, replaces a stale window or evicts the oldest, when it is refused, that a refusal changes nothing, that the table stays within its limit and that closed windows never change |
| `WindowManager.FlowObservationWindowManager.Close` | src/analysis/flow_observation_window.py:325-343 | the flow's open window is handed out closed and leaves the table, or the call is refused |
| `WindowManager.FlowObservationWindowManager.EndCaptureSession` | src/analysis/flow_observation_window.py:345-360 | all open windows are closed in order of sequence number; a second call returns nothing |
| `WindowManager.FlowObservationWindowManager.ActiveWindows` | src/analysis/flow_observation_window.py:362-368 | the open windows in order of sequence number |
| `WindowManager.WindowsPartitionPackets` | src/analysis/flow_observation_window.py:276-394 | on every run each accepted packet is in exactly one window |
| `WindowManager.EveryWindowClosesOnce` | src/analysis/flow_observation_window.py:276-394 | after the end every sequence number used has been handed out closed exactly once, and no other |
| `TlsHandshakeStatistics.ReduceKeepsValid` | src/analysis/tls_handshake_statistics.py:102-113 | no message can make the aggregate fail its own check |
| `TlsHandshakeStatistics.FoldMeans` | src/analysis/tls_handshake_statistics.py:102-113 | the aggregate of messages is their number, how many are empty, the total and extremes of their lengths, and how many there are of each type |
| `TlsHandshakeStatistics.EveryValidIsAttained` | src/analysis/tls_handshake_statistics.py:39-63 | every accepted value is the aggregate of some messages |
| `TlsHandshakeStatistics.ValidIffAttainable` | src/analysis/tls_handshake_statistics.py:39-63 | the check is exact: a value passes if and only if some finite message sequence reduces to it |
| `FlowLabel.Increment` | src/analysis/ipv6_flow_label_statistics.py:65-78 | one more packet: its value's count grows by one and no other, or the histogram saturates, exactly when a 257th value arrives or it already had |
| `FlowLabel.RunRepresents` | src/analysis/ipv6_flow_label_statistics.py:65-78 | after any run: exact sorted counts while at most 256 values are distinct, otherwise the packet count alone |
| `FlowLabel.OrderDoesNotMatter` | src/analysis/ipv6_flow_label_statistics.py:65-78 | two runs over the same labels in any order end in the same value |
| `Checksum.FoldCarries` | src/analysis/ipv4_checksum.py:26-27 | the folding loop ends and keeps the sum modulo 65535, and only zero folds to zero (RFC 1071) |
| `Checksum.PackIsRaw` | src/analysis/ipv4.py:77-116 | packing a decoded IPv4 header again gives the received bytes with the checksum zeroed (section 3.1 of RFC 791) |
| `Checksum.ValidateIpv4` | src/analysis/ipv4_checksum.py:6-28 | true exactly when the field is not 0xFFFF and packed words plus field sum to zero modulo 65535 |
| `Checksum.ValidationJudgesTheWire` | src/analysis/ipv4_checksum.py:9-28 | so a received packet passes exactly when its own header words do |
| `Checksum.ControlIsWord` | src/analysis/tcp_checksum.py:25-37 | the control field is put together from its bits as it was taken apart |
| `Checksum.PseudoHeaderSum` | src/analysis/tcp_checksum.py:38-66 | the pseudo-header adds both addresses, the protocol and the segment length (section 3.1 of RFC 9293) |
| `Checksum.PackIsSegment` | src/analysis/tcp.py:103-133 | packing a decoded TCP header again gives the received bytes with the checksum zeroed |
| `Checksum.ValidateTcp` | src/analysis/tcp_checksum.py:11-66 | the three refusals, and true exactly when the field is not 0xFFFF and pseudo-header, header and payload sum to zero modulo 65535 |
| `Checksum.ValidationJudgesTheSegment` | src/analysis/tcp_checksum.py:38-66 | so a received segment passes exactly when the words on the wire do |
| `TcpOptions.ValidateEnvelope` | src/analysis/option_envelope.py:1-19 | the walk finds the first thing wrong with an option area, or that nothing is, as `EnvelopeFrom` has it |
| `TcpOptions.EnvelopePassesExactly` | src/analysis/option_envelope.py:1-19 | nothing is wrong exactly with a list of NOPs and kind-length-data options followed by nothing or by an end of list and zeros (section 3.1 of RFC 9293) |
| `TcpOptions.SummarizeOptions` | src/analysis/tcp_option_statistics.py:112-148 | after a good envelope the second walk stays in range and computes `SummaryFrom`, or finds the options malformed |
| `TcpOptions.SummaryCounts` | src/analysis/tcp_option_statistics.py:112-148 | the summary of a list of options: none exactly if an option has a wrong length for its kind, else the number of options of each kind, MSS value and window scale, and of SACK blocks |
| `TcpOptions.AcceptableData` | src/analysis/tcp_option_statistics.py:112-148 | the data a known kind may carry, as RFC 9293, RFC 7323 and RFC 2018 have it |
| `TcpOptions.SummaryFits` | src/analysis/tcp_option_statistics.py:112-148 | whatever the walk counts fits in the option area, and every repetition is a duplicate |
| `TcpOptions.AddedIsValid` | src/analysis/tcp_option_statistics.py:49-87 | adding a packet keeps every clause of the class check, minimum bytes, duplicates and SACK blocks included |
| `TcpOptions.Reduce` | src/analysis/tcp_option_statistics.py:158-174 | every fold is defined, keeps the check, and adds the packet's summary or counts it as malformed |

## Left out

- Packet sources, files, the command line, JSON export and reports: input, output and presentation.
- Floating-point features (inter-arrival times, rates, ratios, F1) and `Fraction` means: no law beyond the sums modelled here.
- Exact-type checks, factory-only constructors, weak references and frozen-dataclass enforcement: Python runtime concerns; their value conditions are kept.
- The other per-field histograms (DSCP, traffic class, hop limit, fragmentation, ICMP, UDP, header statistics, ClientHello and ServerHello statistics, EDNS statistics): they repeat the arguments of `FlowLabel`, `TlsHandshakeStatistics` and the DNS aggregates.
- Detectors, thresholds, findings' content and provenance: a finding is its identity, position and decision.
- Consumers that raise while an entry is delivered: entries go to a sequence; the evaluator's failure states are kept as transitions.
- `analyze_ldap_payload`, the per-packet loop over one datagram: the same parser without resumption.
- The port tests that choose one framer per flow, and the pairing of both directions in `TLSRecordState` and `LDAPStreamState`: for TLS and LDAP each direction is modelled by itself; `DnsOverTcp` has both.
- The other accumulators of the coordinator: only its framing order and its DNS loop are modelled.
- IPv6 extension-header walking before `decode_tcp`: `Checksum.ReadTcp` starts at the segment's bytes; the IPv4 conditions are in `Checksum.DecodeTcp`.
- WindowManager.FlowObservationWindowManager.Record: whether a window's coordinator takes a packet is a parameter, a function of the packets the window has; coordinators are values in the table, so sharing of coordinator objects is not captured.
- WindowManager.FlowObservationWindowManager.constructor: a session name that is blank is not refused; non-positive timeout and limit are preconditions instead of exceptions.
- TcpOptions.Reduce: distributions are dense sequences of counts, so the sorted sparse tuples that `_merge_bins` builds are not modelled, only the counts they hold; the guard on data offset is a precondition on the option area.
- Dns.Analyze: messages are values, so the identity of returned objects is not captured.
- LdapCorrelation.Update: whether an update is the very object taken last is a token comparison.
- DnsFlow.Close: the closing of a window is modelled for its DNS part only; LDAP finalisation is `LdapCorrelation.Finalize`.
