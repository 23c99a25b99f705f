/**
 * LDAP requests and their responses within one flow (sections 4.1.1 and 4.5.2
 * of RFC 4511): a bounded table of open requests, each with a running summary
 * of the responses it has had.
 */
module LdapCorrelation {
  import opened Common
  import opened Tally
  import L = Ldap
  import W = LdapRoundTrip

  const MAX_PENDING := 128

  datatype SummaryStatus = SummaryPending | SummaryCompleted | SummaryAmbiguous | SummaryUnresolved

  datatype Summary = Summary(direction: Direction, request: L.Message, status: SummaryStatus, responses: nat,
          terminal: Option<L.Message>)

  datatype Status = Pending | Matched | Unmatched | Ambiguous | NonCorrelatable | Unresolved

  datatype Observation = Observation(
    direction: Direction, message: L.Message, status: Status, request: Option<L.Message>, summary: Option<Summary>)

  datatype Unavailable = StreamUnavailable | LimitExceeded

  /**
   * What the framer offers: at most two directions, and whether either stream has lost
   * bytes. `token` tells updates apart.
   */
  datatype Side = Side(messages: seq<L.Message>, failed: bool)

  datatype Framing = Framing(token: nat, identity: nat, forward: Option<Side>, reverse: Option<Side>, gap: bool)

  datatype Core = Core(
    pending: seq<Observation>, matched: nat, unmatched: nat, ambiguous: nat, nonCorrelatable: nat,
      unavailable: Option<Unavailable>)

  datatype State = State(framing: Framing, core: Core, observations: seq<Observation>, finalized: bool)

  datatype CorrelationError = AlreadyFinalized | OtherIdentity | BothDirections

  /** The request a response belongs to. */
  function RequestOf(o: L.Operation): Option<L.Operation>
  {
    match o
    case BindResponse => Some(L.BindRequest)
    case SearchResultEntry => Some(L.SearchRequest)
    case SearchResultReference => Some(L.SearchRequest)
    case SearchResultDone => Some(L.SearchRequest)
    case ModifyResponse => Some(L.ModifyRequest)
    case AddResponse => Some(L.AddRequest)
    case DeleteResponse => Some(L.DeleteRequest)
    case ModifyDnResponse => Some(L.ModifyDnRequest)
    case CompareResponse => Some(L.CompareRequest)
    case ExtendedResponse => Some(L.ExtendedRequest)
    case _ => None
  }

  predicate IsRequest(o: L.Operation)
  {
    o == L.BindRequest || o == L.SearchRequest || o == L.ModifyRequest || o == L.AddRequest || o == L.DeleteRequest
    || o == L.ModifyDnRequest || o == L.CompareRequest || o == L.ExtendedRequest
  }

  predicate IsContinuation(o: L.Operation) { o == L.SearchResultEntry || o == L.SearchResultReference }

  /** The operations that are waited for are those some response answers. */
  lemma {:induction false} RequestsAreAnswered(o: L.Operation)
    ensures IsRequest(o) <==> exists r :: RequestOf(r) == Some(o)
  {
    if IsRequest(o) {
      var r := match o
        case BindRequest => L.BindResponse
        case SearchRequest => L.SearchResultDone
        case ModifyRequest => L.ModifyResponse
        case AddRequest => L.AddResponse
        case DeleteRequest => L.DeleteResponse
        case ModifyDnRequest => L.ModifyDnResponse
        case CompareRequest => L.CompareResponse
        case _ => L.ExtendedResponse;
      assert RequestOf(r) == Some(o);
    }
  }

  type Key = (Direction, Option<nat>)

  function KeyOf(o: Observation): Key { (o.direction, o.message.messageId) }

  function Find(pending: seq<Observation>, key: Key): (r: Option<nat>)
    ensures r.Some? ==> r.value < |pending| && KeyOf(pending[r.value]) == key
    ensures r.None? ==> forall i :: 0 <= i < |pending| ==> KeyOf(pending[i]) != key
  {
    if pending == [] then None
    else if KeyOf(pending[|pending| - 1]) == key then Some(|pending| - 1)
    else Find(pending[..|pending| - 1], key)
  }

  // ---------------------------------------------------------------- summaries

  function StartSummary(direction: Direction, request: L.Message, status: SummaryStatus): Summary
  {
    Summary(direction, request, status, 0, None)
  }

  function WithStatus(s: Summary, status: SummaryStatus): Summary { s.(status := status) }

  function WithResponse(s: Summary, response: L.Message, terminal: bool): Summary
  {
    s.(responses := s.responses + 1, status := if terminal then SummaryCompleted else SummaryPending,
       terminal := if terminal then Some(response) else None)
  }

  // ---------------------------------------------------------------- one message

  predicate Correlatable(m: L.Message)
  {
    m.status == L.Complete && m.messageId != Some(0) && m.operation.Some?
    && (IsRequest(m.operation.value) || RequestOf(m.operation.value).Some?)
  }

  /** An entry of the table that a repeat, or an unreadable message of the same number, makes ambiguous. */
  function MadeAmbiguous(r: Observation): Observation
    requires r.summary.Some?
  {
    Observation(r.direction, r.message, Ambiguous, Some(r.message), Some(WithStatus(r.summary.value, SummaryAmbiguous)))
  }

  ghost predicate Retained(r: Observation)
  {
    && Correlatable(r.message) && IsRequest(r.message.operation.value)
    && r.request == Some(r.message) && r.summary.Some?
    && r.summary.value.request == r.message && r.summary.value.direction == r.direction
       && r.summary.value.terminal.None?
    && (r.status == Pending <==> r.summary.value.status == SummaryPending)
    && (r.status == Ambiguous <==> r.summary.value.status == SummaryAmbiguous)
    && (r.status == Pending || r.status == Ambiguous || r.status == Unresolved)
  }

  ghost predicate Table(pending: seq<Observation>)
  {
    && |pending| <= MAX_PENDING
    && (forall i :: 0 <= i < |pending| ==> Retained(pending[i]))
    && (forall i, j :: 0 <= i < j < |pending| ==> KeyOf(pending[i]) != KeyOf(pending[j]))
  }

  datatype Outcome = Outcome(core: Core, observation: Observation)

  function Unreadable(c: Core, d: Direction, m: L.Message): Outcome
    requires forall i :: 0 <= i < |c.pending| ==> c.pending[i].summary.Some?
  {
    var at := Find(c.pending, (d, m.messageId));
    var spoils := c.unavailable.None? && at.Some? && m.status == L.Unsupported;
    Outcome(c.(nonCorrelatable := c.nonCorrelatable + 1,
               pending := if spoils then c.pending[at.value := MadeAmbiguous(c.pending[at.value])] else c.pending),
            Observation(d, m, NonCorrelatable, None, None))
  }

  function Request(c: Core, d: Direction, m: L.Message): Outcome
    requires forall i :: 0 <= i < |c.pending| ==> c.pending[i].summary.Some?
  {
    var at := Find(c.pending, (d, m.messageId));
    var unresolved := Observation(d, m, Unresolved, Some(m), Some(StartSummary(d, m, SummaryUnresolved)));
    if c.unavailable.Some? then Outcome(c, unresolved)
    else if at.Some? then
      var r := MadeAmbiguous(c.pending[at.value]);
      Outcome(c.(pending := c.pending[at.value := r], ambiguous := c.ambiguous + 1),
              Observation(d, m, Ambiguous, r.request, r.summary))
    else if |c.pending| == MAX_PENDING then Outcome(c.(unavailable := Some(LimitExceeded)), unresolved)
    else
      var r := Observation(d, m, Pending, Some(m), Some(StartSummary(d, m, SummaryPending)));
      Outcome(c.(pending := c.pending + [r]), r)
  }

  function Response(c: Core, d: Direction, m: L.Message): Outcome
    requires m.operation.Some? && forall i ::
             0 <= i < |c.pending| ==> c.pending[i].summary.Some? && c.pending[i].message.operation.Some?
  {
    var at := Find(c.pending, (Opposite(d), m.messageId));
    var unmatched := Outcome(c.(unmatched := c.unmatched + 1), Observation(d, m, Unmatched, None, None));
    if c.unavailable.Some? || at.None? then unmatched
    else
      var r := c.pending[at.value];
      if r.status == Ambiguous then Outcome(c.(ambiguous := c.ambiguous + 1), Observation(d, m, Ambiguous, None, None))
      else if Some(r.message.operation.value) != RequestOf(m.operation.value) then unmatched
      else
        var terminal := !IsContinuation(m.operation.value);
        var s := WithResponse(r.summary.value, m, terminal);
        Outcome(c.(matched := c.matched + 1,
                   pending := if terminal then c.pending[..at.value] + c.pending[at.value + 1..]
                              else c.pending[at.value := r.(summary := Some(s))]),
                Observation(d, m, Matched, Some(r.message), if terminal then Some(s) else None))
  }

  ghost function StepSpec(c: Core, d: Direction, m: L.Message): Outcome
    requires Table(c.pending)
  {
    if !Correlatable(m) then Unreadable(c, d, m)
    else if IsRequest(m.operation.value) then Request(c, d, m)
    else Response(c, d, m)
  }

  lemma {:induction false} EntriesAre(pending: seq<Observation>)
    requires Table(pending)
    ensures forall i :: 0 <= i < |pending| ==>
              && pending[i].summary.Some? && pending[i].request == Some(pending[i].message)
              && pending[i].message.operation.Some?
  {
    hide IsRequest, RequestOf;
  }

  /** The branch for messages that take no part. */
  method UnreadableStep(c: Core, d: Direction, m: L.Message) returns (core: Core, observation: Observation)
    requires Table(c.pending)
    ensures forall i :: 0 <= i < |c.pending| ==> c.pending[i].summary.Some?
    ensures Outcome(core, observation) == Unreadable(c, d, m)
  {
    EntriesAre(c.pending);
    hide Find, Table, WithStatus;
    core := c.(nonCorrelatable := c.nonCorrelatable + 1);
    var at := Find(c.pending, (d, m.messageId));
    if core.unavailable.None? && at.Some? && m.status == L.Unsupported {
      var previous := c.pending[at.value];
      var repeated := Some(WithStatus(previous.summary.value, SummaryAmbiguous));
      core := core.(pending := c.pending[
        at.value := Observation(d, previous.message, Ambiguous, previous.request, repeated)]);
    }
    observation := Observation(d, m, NonCorrelatable, None, None);
  }

  /** The branch for requests. */
  method RequestStep(c: Core, d: Direction, m: L.Message) returns (core: Core, observation: Observation)
    requires Table(c.pending)
    ensures forall i :: 0 <= i < |c.pending| ==> c.pending[i].summary.Some?
    ensures Outcome(core, observation) == Request(c, d, m)
  {
    EntriesAre(c.pending);
    hide Find, Table, WithStatus, StartSummary;
    core := c;
    var candidate, summary, status := m, StartSummary(d, m, SummaryUnresolved), Unresolved;
    var at := Find(c.pending, (d, m.messageId));
    if core.unavailable.None? {
      if at.Some? {
        status := Ambiguous;
        var previous := c.pending[at.value];
        candidate := previous.message;
        summary := WithStatus(previous.summary.value, SummaryAmbiguous);
        core := core.(
          pending := c.pending[at.value := Observation(d, previous.message, status, Some(candidate), Some(summary))],
          ambiguous := core.ambiguous + 1);
      } else if |c.pending| == MAX_PENDING {
        core := core.(unavailable := Some(LimitExceeded));
      } else {
        status := Pending;
        summary := StartSummary(d, m, SummaryPending);
        core := core.(pending := c.pending + [Observation(d, m, status, Some(m), Some(summary))]);
      }
    }
    observation := Observation(d, m, status, Some(candidate), Some(summary));
  }

  /** The branch for responses. */
  method ResponseStep(c: Core, d: Direction, m: L.Message) returns (core: Core, observation: Observation)
    requires Table(c.pending) && m.operation.Some?
    ensures forall i :: 0 <= i < |c.pending| ==> c.pending[i].summary.Some? && c.pending[i].message.operation.Some?
    ensures Outcome(core, observation) == Response(c, d, m)
  {
    EntriesAre(c.pending);
    hide Find, Table, RequestOf, IsContinuation, WithResponse;
    core := c;
    var at := Find(c.pending, (Opposite(d), m.messageId));
    if core.unavailable.None? && at.Some? {
      var previous := c.pending[at.value];
      if previous.status == Ambiguous {
        core := core.(ambiguous := core.ambiguous + 1);
        return core, Observation(d, m, Ambiguous, None, None);
      }
      if previous.message.operation == RequestOf(m.operation.value) {
        var terminal := !IsContinuation(m.operation.value);
        var s := WithResponse(previous.summary.value, m, terminal);
        var again := Observation(Opposite(d), previous.message, previous.status, previous.request, Some(s));
        assert again == previous.(summary := Some(s));
        var pending := if terminal then c.pending[..at.value] + c.pending[at.value + 1..]
                       else c.pending[at.value := again];
        core := core.(matched := core.matched + 1, pending := pending);
        return core, Observation(d, m, Matched, Some(previous.message), if terminal then Some(s) else None);
      }
    }
    core := core.(unmatched := core.unmatched + 1);
    observation := Observation(d, m, Unmatched, None, None);
  }

  /** The body of the message loop. */
  method Step(c: Core, d: Direction, m: L.Message) returns (core: Core, observation: Observation)
    requires Table(c.pending)
    ensures Outcome(core, observation) == StepSpec(c, d, m)
  {
    hide Unreadable, Request, Response, IsRequest, RequestOf;
    if m.status != L.Complete || m.messageId == Some(0) || m.operation.None?
       || (!IsRequest(m.operation.value) && RequestOf(m.operation.value).None?) {
      core, observation := UnreadableStep(c, d, m);
    } else if IsRequest(m.operation.value) {
      core, observation := RequestStep(c, d, m);
    } else {
      core, observation := ResponseStep(c, d, m);
    }
  }

  // ---------------------------------------------------------------- what every message keeps

  ghost function StatusIs(status: Status): Observation -> int
  {
    (o: Observation) => if o.status == status then 1 else 0
  }

  /** The responses a finished summary counts. */
  ghost function Finished(): Observation -> int
  {
    (o: Observation) => if o.status == Matched && o.summary.Some? then o.summary.value.responses else 0
  }

  ghost function SoFar(): Observation -> int
  {
    (r: Observation) => if r.summary.Some? then r.summary.value.responses else 0
  }

  /** The request key that a response names. */
  function Answered(o: Observation): Key { (Opposite(o.direction), o.message.messageId) }

  /** The responses matched to the last request that opened this key. */
  ghost function Thread(all: seq<Observation>, key: Key): seq<L.Message>
  {
    if all == [] then []
    else
      var o, before := all[|all| - 1], all[..|all| - 1];
      if o.status == Pending && KeyOf(o) == key then []
      else if o.status == Matched && Answered(o) == key then Thread(before, key) + [o.message]
      else Thread(before, key)
  }

  ghost predicate Continuations(ms: seq<L.Message>)
  {
    forall i :: 0 <= i < |ms| ==> ms[i].operation.Some? && IsContinuation(ms[i].operation.value)
  }

  /** An open request has counted the responses of its thread, all of them search continuations. */
  ghost predicate InThread(r: Observation, all: seq<Observation>)
  {
    var thread := Thread(all, KeyOf(r));
    && r.summary.Some? && r.summary.value.responses == |thread| && Continuations(thread)
    && (thread != [] ==> r.message.operation == Some(L.SearchRequest))
  }

  /** A finished summary ends with its one terminal response, after the continuations of its thread. */
  ghost predicate EndsThread(o: Observation, before: seq<Observation>)
  {
    o.status == Matched ==>
      && o.request.Some? && o.message.operation.Some?
         && o.request.value.operation == RequestOf(o.message.operation.value)
      && (o.summary.None? <==> IsContinuation(o.message.operation.value))
      && (o.summary.Some? ==>
            var s, thread := o.summary.value, Thread(before, Answered(o));
            && s.status == SummaryCompleted && s.terminal == Some(o.message) && Some(s.request) == o.request
            && s.responses == |thread| + 1 && Continuations(thread))
  }

  ghost predicate Proper(all: seq<Observation>)
  {
    all != [] ==> Proper(all[..|all| - 1]) && EndsThread(all[|all| - 1], all[..|all| - 1])
  }

  ghost predicate Tallied(c: Core, all: seq<Observation>)
  {
    && c.matched == SumOver(all, StatusIs(Matched)) && c.unmatched == SumOver(all, StatusIs(Unmatched))
    && c.ambiguous == SumOver(all, StatusIs(Ambiguous)) && c.nonCorrelatable == SumOver(all, StatusIs(NonCorrelatable))
  }

  ghost predicate Threaded(pending: seq<Observation>, all: seq<Observation>)
  {
    forall i :: 0 <= i < |pending| ==> InThread(pending[i], all)
  }

  /** What holds of the table and of everything observed so far. */
  ghost predicate Accounts(c: Core, all: seq<Observation>)
  {
    && Table(c.pending) && Tallied(c, all)
    && c.matched == SumOver(all, Finished()) + SumOver(c.pending, SoFar())
    && Threaded(c.pending, all) && Proper(all)
  }

  lemma {:induction false} TallyStep(c: Core, all: seq<Observation>, d: Direction, m: L.Message)
    requires Table(c.pending) && Tallied(c, all)
    ensures var o := StepSpec(c, d, m); Tallied(o.core, all + [o.observation])
  {
    hide SumOver, Find, IsRequest, RequestOf, IsContinuation, MadeAmbiguous, Correlatable;
    var o := StepSpec(c, d, m);
    SumOverAppend(all, o.observation, StatusIs(Matched));
    SumOverAppend(all, o.observation, StatusIs(Unmatched));
    SumOverAppend(all, o.observation, StatusIs(Ambiguous));
    SumOverAppend(all, o.observation, StatusIs(NonCorrelatable));
  }

  /** What one message does to the table. */
  datatype Effect = Untouched | Spoils(i: nat) | Opens | Continues(i: nat) | Finishes(i: nat)

  ghost predicate Has(c: Core, o: Outcome, e: Effect)
    requires Table(c.pending)
  {
    var w := o.observation;
    match e
    case Untouched => o.core.pending == c.pending && o.core.matched == c.matched && w.status != Matched
                      && w.status != Pending
    case Spoils(i) =>
      && i < |c.pending| && o.core.pending == c.pending[i := MadeAmbiguous(c.pending[i])]
      && o.core.matched == c.matched && w.status != Matched && w.status != Pending
    case Opens =>
      && |c.pending| < MAX_PENDING && (forall i :: 0 <= i < |c.pending| ==> KeyOf(c.pending[i]) != KeyOf(w))
      && o.core.pending == c.pending + [w] && o.core.matched == c.matched
      && w.status == Pending && Retained(w) && w.summary.value.responses == 0
    case Continues(i) =>
      && i < |c.pending| && c.pending[i].status == Pending && AnswersEntry(w, c.pending[i])
      && o.core.matched == c.matched + 1 && w.summary.None? && IsContinuation(w.message.operation.value)
      && o.core.pending == c.pending[i := Continued(c.pending[i], w.message)]
    case Finishes(i) =>
      && i < |c.pending| && c.pending[i].status == Pending && AnswersEntry(w, c.pending[i])
      && o.core.matched == c.matched + 1 && !IsContinuation(w.message.operation.value)
      && w.summary == Some(WithResponse(c.pending[i].summary.value, w.message, true))
      && o.core.pending == c.pending[..i] + c.pending[i + 1..]
  }

  function Continued(r: Observation, m: L.Message): Observation
    requires r.summary.Some?
  {
    r.(summary := Some(WithResponse(r.summary.value, m, false)))
  }

  /** A matched response, and the table's entry for its request. */
  ghost predicate AnswersEntry(w: Observation, r: Observation)
  {
    && w.status == Matched && Answered(w) == KeyOf(r) && w.request == Some(r.message)
    && w.message.operation.Some? && r.message.operation == RequestOf(w.message.operation.value)
  }

  /** Requests stay answerable while the correlation is available. */
  ghost predicate Live(c: Core)
  {
    Table(c.pending) && (c.unavailable.None? ==> forall i :: 0 <= i < |c.pending| ==> c.pending[i].status != Unresolved)
  }

  lemma {:induction false} EffectOfRequest(c: Core, d: Direction, m: L.Message) returns (e: Effect)
    requires Live(c) && Correlatable(m) && IsRequest(m.operation.value)
    ensures Has(c, Request(c, d, m), e)
  {
    hide Find, RequestOf, IsContinuation, IsRequest;
    var own := Find(c.pending, (d, m.messageId));
    if c.unavailable.Some? {
      e := Untouched;
    } else {
      e := if own.Some? then Spoils(own.value) else if |c.pending| == MAX_PENDING then Untouched else Opens;
    }
  }

  lemma {:induction false} EffectOfResponse(c: Core, d: Direction, m: L.Message) returns (e: Effect)
    requires Live(c) && Correlatable(m)
    ensures Has(c, Response(c, d, m), e)
  {
    hide Find, RequestOf, IsContinuation, IsRequest;
    var other := Find(c.pending, (Opposite(d), m.messageId));
    if c.unavailable.Some? || other.None? || c.pending[other.value].status == Ambiguous
       || c.pending[other.value].message.operation != RequestOf(m.operation.value) {
      e := Untouched;
    } else {
      assert Retained(c.pending[other.value]);
      e := if IsContinuation(m.operation.value) then Continues(other.value) else Finishes(other.value);
    }
  }

  lemma {:induction false} EffectOfStep(c: Core, d: Direction, m: L.Message) returns (e: Effect)
    requires Live(c)
    ensures Has(c, StepSpec(c, d, m), e)
    ensures var o := StepSpec(c, d, m); o.core.unavailable.None? ==> c.unavailable.None?
  {
    hide Find, RequestOf, IsContinuation, IsRequest;
    if !Correlatable(m) {
      var own := Find(c.pending, (d, m.messageId));
      e := if c.unavailable.None? && own.Some? && m.status == L.Unsupported then Spoils(own.value) else Untouched;
    } else {
      hide Has;
      if IsRequest(m.operation.value) { e := EffectOfRequest(c, d, m); } else { e := EffectOfResponse(c, d, m); }
    }
  }

  lemma {:induction false} EntryStaysRetained(r: Observation, m: L.Message)
    requires Retained(r)
    ensures Retained(MadeAmbiguous(r)) && KeyOf(MadeAmbiguous(r)) == KeyOf(r)
    ensures Retained(Continued(r, m)) <== r.status == Pending
    ensures KeyOf(Continued(r, m)) == KeyOf(r)
  { }

  lemma {:induction false} LiveStep(c: Core, o: Outcome, e: Effect)
    requires Live(c) && Has(c, o, e) && (o.core.unavailable.None? ==> c.unavailable.None?)
    ensures Live(o.core)
  {
    hide RequestOf, IsContinuation, IsRequest, Correlatable, KeyOf;
    if e.Spoils? || e.Continues? {
      EntryStaysRetained(c.pending[e.i], o.observation.message);
      var r := if e.Spoils? then MadeAmbiguous(c.pending[e.i]) else Continued(c.pending[e.i], o.observation.message);
      TableReplace(c.pending, e.i, r);
    } else if e.Finishes? {
      TableRemove(c.pending, e.i);
    } else if e.Opens? {
      TableAppend(c.pending, o.observation);
    }
  }

  lemma {:induction false} TableAppend(pending: seq<Observation>, r: Observation)
    requires Table(pending) && |pending| < MAX_PENDING && Retained(r)
    requires forall i :: 0 <= i < |pending| ==> KeyOf(pending[i]) != KeyOf(r)
    ensures Table(pending + [r])
  {
    hide Retained, KeyOf;
  }

  lemma {:induction false} TableReplace(pending: seq<Observation>, i: nat, r: Observation)
    requires Table(pending) && i < |pending| && KeyOf(r) == KeyOf(pending[i]) && Retained(r)
    ensures Table(pending[i := r])
  {
    hide Retained, KeyOf;
    var q := pending[i := r];
    forall j, k | 0 <= j < k < |q| ensures KeyOf(q[j]) != KeyOf(q[k]) {
      assert KeyOf(q[j]) == KeyOf(pending[j]) && KeyOf(q[k]) == KeyOf(pending[k]);
    }
  }

  lemma {:induction false} TableRemove(pending: seq<Observation>, i: nat)
    requires Table(pending) && i < |pending|
    ensures Table(pending[..i] + pending[i + 1..])
  {
    hide Retained, KeyOf;
    var q := pending[..i] + pending[i + 1..];
    forall j, k | 0 <= j < k < |q| ensures KeyOf(q[j]) != KeyOf(q[k]) {
      assert q[j] == pending[if j < i then j else j + 1] && q[k] == pending[if k < i then k else k + 1];
    }
  }

  lemma {:induction false} BalanceStep(c: Core, all: seq<Observation>, o: Outcome, e: Effect)
    requires Live(c) && Has(c, o, e) && c.matched == SumOver(all, Finished()) + SumOver(c.pending, SoFar())
    ensures o.core.matched == SumOver(all + [o.observation], Finished()) + SumOver(o.core.pending, SoFar())
  {
    hide SumOver, Correlatable, RequestOf, IsContinuation, KeyOf;
    var f := SoFar();
    SumOverAppend(all, o.observation, Finished());
    match e
    case Untouched =>
    case Spoils(i) => SumOverUpdate(c.pending, i, MadeAmbiguous(c.pending[i]), f);
    case Opens => SumOverAppend(c.pending, o.observation, f);
    case Continues(i) => SumOverUpdate(c.pending, i, Continued(c.pending[i], o.observation.message), f);
    case Finishes(i) => SumOverRemove(c.pending, i, f);
  }

  /** An entry whose key the message does not name keeps its thread. */
  lemma {:induction false} ThreadStays(r: Observation, all: seq<Observation>, o: Observation)
    requires InThread(r, all) && !(o.status == Pending && KeyOf(o) == KeyOf(r))
             && !(o.status == Matched && Answered(o) == KeyOf(r))
    ensures InThread(r, all + [o])
  {
    ThreadAppend(all, o, KeyOf(r));
  }

  lemma {:induction false} ThreadedStep(c: Core, all: seq<Observation>, o: Outcome, e: Effect)
    requires Live(c) && Has(c, o, e) && Threaded(c.pending, all)
    ensures Threaded(o.core.pending, all + [o.observation])
  {
    hide Thread, Correlatable, IsContinuation, IsRequest;
    var w, q := o.observation, o.core.pending;
    forall j | 0 <= j < |q| ensures InThread(q[j], all + [w]) {
      if (e.Spoils? || e.Continues?) && j == e.i {
        ThreadAppend(all, w, KeyOf(q[j]));
        assert InThread(c.pending[j], all);
        if e.Continues? { ContinuedInThread(c.pending[j], all, w); }
      } else if e.Opens? && j == |c.pending| {
        ThreadAppend(all, w, KeyOf(w));
      } else {
        var k := if e.Finishes? && j >= e.i then j + 1 else j;
        assert q[j] == c.pending[k];
        ThreadStays(q[j], all, w);
      }
    }
  }

  lemma {:induction false} ContinuedInThread(r: Observation, all: seq<Observation>, w: Observation)
    requires InThread(r, all) && AnswersEntry(w, r) && IsContinuation(w.message.operation.value)
    ensures InThread(Continued(r, w.message), all + [w])
  {
    ThreadAppend(all, w, KeyOf(r));
  }

  lemma {:induction false} ProperStep(c: Core, all: seq<Observation>, o: Outcome, e: Effect)
    requires Live(c) && Has(c, o, e) && Threaded(c.pending, all) && Proper(all)
    ensures Proper(all + [o.observation])
  {
    hide Thread, Correlatable, IsContinuation, IsRequest;
    assert (all + [o.observation])[..|all|] == all;
    if e.Finishes? { assert InThread(c.pending[e.i], all); }
  }

  /** One message keeps everything. */
  lemma {:induction false} StepKeeps(c: Core, all: seq<Observation>, d: Direction, m: L.Message)
    requires Live(c) && Accounts(c, all)
    ensures var o := StepSpec(c, d, m); Live(o.core) && Accounts(o.core, all + [o.observation])
  {
    hide Has, Tallied, Table, SumOver, Threaded, Proper;
    var o := StepSpec(c, d, m);
    LiveTable(c);
    var e := EffectOfStep(c, d, m);
    TallyStep(c, all, d, m);
    LiveStep(c, o, e);
    LiveTable(o.core);
    BalanceStep(c, all, o, e);
    ThreadedStep(c, all, o, e);
    ProperStep(c, all, o, e);
  }

  lemma {:induction false} LiveTable(c: Core)
    requires Live(c)
    ensures Table(c.pending)
  { }

  lemma {:induction false} ThreadAppend(all: seq<Observation>, o: Observation, key: Key)
    ensures Thread(all + [o], key) ==
            if o.status == Pending && KeyOf(o) == key then []
            else if o.status == Matched && Answered(o) == key then Thread(all, key) + [o.message]
            else Thread(all, key)
  {
    assert (all + [o])[..|all|] == all;
  }

  lemma {:induction false} FindIsUnique(pending: seq<Observation>, key: Key, i: nat)
    requires Table(pending) && i < |pending| && KeyOf(pending[i]) == key
    ensures Find(pending, key) == Some(i)
  {
    hide Find, KeyOf, Retained;
    var found := Find(pending, key);
    assert found.Some? && KeyOf(pending[found.value]) == KeyOf(pending[i]);
  }

  ghost predicate HasKey(pending: seq<Observation>, key: Key)
  {
    exists i :: 0 <= i < |pending| && KeyOf(pending[i]) == key
  }

  ghost predicate HasAmbiguous(pending: seq<Observation>, key: Key)
  {
    exists i :: 0 <= i < |pending| && KeyOf(pending[i]) == key && pending[i].status == Ambiguous
  }

  /** An open, unambiguous request of the operation that this response answers. */
  ghost predicate HasRequest(pending: seq<Observation>, key: Key, response: L.Operation)
  {
    exists i :: 0 <= i < |pending| && KeyOf(pending[i]) == key && pending[i].status == Pending
                && pending[i].message.operation == RequestOf(response)
  }

  /** What a message is observed as, in terms of the table alone. */
  lemma {:induction false} StatusMeans(c: Core, d: Direction, m: L.Message)
    requires Live(c)
    ensures var status, own, asked := StepSpec(c, d, m).observation.status, (d, m.messageId),
            (Opposite(d), m.messageId);
            if !Correlatable(m) then status == NonCorrelatable
            else if IsRequest(m.operation.value) then
              && (status == Pending <==> c.unavailable.None? && !HasKey(c.pending, own) && |c.pending| < MAX_PENDING)
              && (status == Ambiguous <==> c.unavailable.None? && HasKey(c.pending, own))
              && (status == Pending || status == Ambiguous || status == Unresolved)
            else
              && (status == Matched <==> c.unavailable.None? && HasRequest(c.pending, asked, m.operation.value))
              && (status == Ambiguous <==> c.unavailable.None? && HasAmbiguous(c.pending, asked))
              && (status == Matched || status == Ambiguous || status == Unmatched)
  {
    hide Find, KeyOf, Correlatable, IsRequest, RequestOf, IsContinuation;
    OperationKnown(m);
    var own: Key, asked: Key := (d, m.messageId), (Opposite(d), m.messageId);
    forall i: nat | i < |c.pending| ensures KeyOf(c.pending[i]) == own ==> Find(c.pending, own) == Some(i) {
      if KeyOf(c.pending[i]) == own { FindIsUnique(c.pending, own, i); }
    }
    forall i: nat | i < |c.pending| ensures KeyOf(c.pending[i]) == asked ==> Find(c.pending, asked) == Some(i) {
      if KeyOf(c.pending[i]) == asked { FindIsUnique(c.pending, asked, i); }
    }
    forall i | 0 <= i < |c.pending| ensures c.pending[i].message.operation.Some? {
      assert Retained(c.pending[i]);
      OperationKnown(c.pending[i].message);
    }
  }

  lemma {:induction false} OperationKnown(m: L.Message)
    ensures Correlatable(m) ==> m.operation.Some?
  { }

  // ---------------------------------------------------------------- one update

  datatype Stepped = Stepped(core: Core, observations: seq<Observation>)

  /** A request reported as open carries its summary. */
  ghost predicate Summarised(observations: seq<Observation>)
  {
    forall i :: 0 <= i < |observations| ==> observations[i].status == Pending ==> observations[i].summary.Some?
  }

  lemma {:induction false} StepSummarises(c: Core, d: Direction, m: L.Message)
    requires Table(c.pending)
    ensures Summarised([StepSpec(c, d, m).observation])
  {
    hide Find, IsRequest, RequestOf, IsContinuation;
  }

  ghost function StepAll(c: Core, d: Direction, ms: seq<L.Message>): (r: Stepped)
    requires Live(c)
    ensures Live(r.core) && Summarised(r.observations)
  {
    if ms == [] then Stepped(c, [])
    else
      var before := StepAll(c, d, ms[..|ms| - 1]);
      StepStaysLive(before.core, d, ms[|ms| - 1]);
      StepSummarises(before.core, d, ms[|ms| - 1]);
      var o := StepSpec(before.core, d, ms[|ms| - 1]);
      Stepped(o.core, before.observations + [o.observation])
  }

  lemma {:induction false} StepStaysLive(c: Core, d: Direction, m: L.Message)
    requires Live(c)
    ensures Live(StepSpec(c, d, m).core)
  {
    hide Has;
    LiveTable(c);
    var e := EffectOfStep(c, d, m);
    LiveStep(c, StepSpec(c, d, m), e);
  }

  function Messages(side: Option<Side>): seq<L.Message> { if side.Some? then side.value.messages else [] }

  predicate Failed(side: Option<Side>) { side.Some? && side.value.failed }

  function GivenUp(r: Observation): Observation
    requires r.status == Pending ==> r.summary.Some?
  {
    if r.status != Pending then r
    else Observation(r.direction, r.message, Unresolved, r.request,
                     Some(WithStatus(r.summary.value, SummaryUnresolved)))
  }

  function AllGivenUp(rs: seq<Observation>): (r: seq<Observation>)
    requires forall i :: 0 <= i < |rs| ==> rs[i].status == Pending ==> rs[i].summary.Some?
    ensures |r| == |rs| && forall i :: 0 <= i < |rs| ==> r[i] == GivenUp(rs[i])
  {
    seq(|rs|, i requires 0 <= i < |rs| => GivenUp(rs[i]))
  }

  const FRESH := Core([], 0, 0, 0, 0, None)

  function CoreOf(current: Option<State>): Core { if current.Some? then current.value.core else FRESH }

  /** An unavailable correlation answers nothing any more: what is open ends unresolved, and stays in the table. */
  function Settle(c: Core): Core
    requires forall i :: 0 <= i < |c.pending| ==> c.pending[i].summary.Some?
  {
    if c.unavailable.Some? then c.(pending := AllGivenUp(c.pending)) else c
  }

  function Before(c: Core, framing: Framing): Core
  {
    if c.unavailable.None? && framing.gap then c.(unavailable := Some(StreamUnavailable)) else c
  }

  function After(c: Core, framing: Framing): Core
  {
    if c.unavailable.None? && (Failed(framing.forward) || Failed(framing.reverse))
       then c.(unavailable := Some(StreamUnavailable)) else c
  }

  function Refuses(current: Option<State>, framing: Framing): Option<CorrelationError>
  {
    if current.Some? && current.value.finalized then Some(AlreadyFinalized)
    else if current.Some? && current.value.framing.identity != framing.identity then Some(OtherIdentity)
    else if current.Some? && current.value.framing.token == framing.token then None
    else if Messages(framing.forward) != [] && Messages(framing.reverse) != [] then Some(BothDirections)
    else None
  }

  /** Whether this is the very update taken last. */
  predicate Repeated(current: Option<State>, framing: Framing)
  {
    current.Some? && current.value.framing.token == framing.token
  }

  ghost function Taken(c: Core, framing: Framing): (r: Stepped)
    requires Live(c)
    ensures Live(r.core) && Summarised(r.observations)
  {
    StaysLive(c, framing);
    var forward := StepAll(Before(c, framing), Forward, Messages(framing.forward));
    var reverse := StepAll(forward.core, Reverse, Messages(framing.reverse));
    StaysLive(reverse.core, framing);
    SettledStaysLive(After(reverse.core, framing));
    Stepped(Settle(After(reverse.core, framing)), forward.observations + reverse.observations)
  }

  lemma {:induction false} StaysLive(c: Core, framing: Framing)
    requires Live(c)
    ensures Live(Before(c, framing)) && Live(After(c, framing))
  { }

  lemma {:induction false} GivenUpTable(pending: seq<Observation>)
    requires Table(pending)
    ensures (forall i :: 0 <= i < |pending| ==> pending[i].summary.Some?) && Table(AllGivenUp(pending))
  {
    hide Correlatable, IsRequest;
    assert forall i :: 0 <= i < |pending| ==> Retained(pending[i]);
    var g := AllGivenUp(pending);
    forall i | 0 <= i < |g| ensures Retained(g[i]) && KeyOf(g[i]) == KeyOf(pending[i]) {
      assert Retained(pending[i]);
    }
    hide Retained, KeyOf;
    forall j, k | 0 <= j < k < |g| ensures KeyOf(g[j]) != KeyOf(g[k]) {
      assert KeyOf(g[j]) == KeyOf(pending[j]) && KeyOf(g[k]) == KeyOf(pending[k]);
    }
  }

  lemma {:induction false} SettledStaysLive(c: Core)
    requires Live(c)
    ensures (forall i :: 0 <= i < |c.pending| ==> c.pending[i].summary.Some?) && Live(Settle(c))
  {
    hide Table;
    GivenUpTable(c.pending);
  }

  ghost function UpdateSpec(current: Option<State>, framing: Framing): Result<State, CorrelationError>
    requires Live(CoreOf(current))
  {
    if Refuses(current, framing).Some? then Err(Refuses(current, framing).value)
    else if Repeated(current, framing) then Ok(current.value)
    else
      var t := Taken(CoreOf(current), framing);
      Ok(State(framing, t.core, t.observations, false))
  }

  /** The message loop of one direction. */
  method StepSide(c: Core, d: Direction, ms: seq<L.Message>, observations0: seq<Observation>)
    returns (core: Core, observations: seq<Observation>)
    requires Live(c)
    ensures core == StepAll(c, d, ms).core && observations == observations0 + StepAll(c, d, ms).observations
  {
    hide Live, StepSpec;
    core, observations := c, observations0;
    for i := 0 to |ms|
      invariant Live(core) && Stepped(core, observations) == Onto(observations0, StepAll(c, d, ms[..i]))
    {
      assert ms[..i + 1][..i] == ms[..i];
      LiveTable(core);
      StepStaysLive(core, d, ms[i]);
      var o;
      core, o := Step(core, d, ms[i]);
      assert observations0 + (StepAll(c, d, ms[..i]).observations + [o]) == observations + [o];
      observations := observations + [o];
    }
    assert ms[..|ms|] == ms;
  }

  ghost function Onto(before: seq<Observation>, s: Stepped): Stepped { Stepped(s.core, before + s.observations) }

  /** `update_ldap_correlation_state`. */
  method Update(current: Option<State>, framing: Framing) returns (r: Result<State, CorrelationError>)
    requires Live(CoreOf(current))
    ensures r == UpdateSpec(current, framing)
    ensures (current.Some? && !current.value.finalized && current.value.framing.identity == framing.identity
             && current.value.framing.token == framing.token) ==> r == Ok(current.value)
    ensures var both := Messages(framing.forward) != [] && Messages(framing.reverse) != [];
            r.Err? <==>
              if current.None? then both
              else current.value.finalized || current.value.framing.identity != framing.identity
                   || (current.value.framing.token != framing.token && both)
    ensures r.Err? ==> r.error == if current.Some? && current.value.finalized then AlreadyFinalized
                       else if current.Some? && current.value.framing.identity != framing.identity then OtherIdentity
                       else BothDirections
  {
    hide Live, StepAll;
    if current.Some? {
      if current.value.finalized { return Err(AlreadyFinalized); }
      if current.value.framing.identity != framing.identity { return Err(OtherIdentity); }
      if current.value.framing.token == framing.token { return Ok(current.value); }
    }
    if Messages(framing.forward) != [] && Messages(framing.reverse) != [] { return Err(BothDirections); }
    var core := CoreOf(current);
    StaysLive(core, framing);
    if core.unavailable.None? && framing.gap { core := core.(unavailable := Some(StreamUnavailable)); }
    var observations;
    ghost var first := StepAll(core, Forward, Messages(framing.forward)).observations;
    assert [] + first == first;
    core, observations := StepSide(core, Forward, Messages(framing.forward), []);
    core, observations := StepSide(core, Reverse, Messages(framing.reverse), observations);
    StaysLive(core, framing);
    if core.unavailable.None? && (Failed(framing.forward) || Failed(framing.reverse)) {
      core := core.(unavailable := Some(StreamUnavailable));
    }
    if core.unavailable.Some? {
      SettledStaysLive(core);
      core := core.(pending := AllGivenUp(core.pending));
    }
    r := Ok(State(framing, core, observations, false));
  }

  /** `finalize_ldap_correlation_state`. */
  function Finalize(s: State): State
    requires forall i :: 0 <= i < |s.core.pending| ==> s.core.pending[i].summary.Some?
    requires forall i :: 0 <= i < |s.observations| ==> s.observations[i].status == Pending
                                                       ==> s.observations[i].summary.Some?
  {
    if s.finalized then s
    else s.(core := s.core.(pending := AllGivenUp(s.core.pending)), observations := AllGivenUp(s.observations),
            finalized := true)
  }

  // ---------------------------------------------------------------- whole runs

  lemma {:induction false} StepAllKeeps(c: Core, all: seq<Observation>, d: Direction, ms: seq<L.Message>)
    requires Live(c) && Accounts(c, all)
    ensures var r := StepAll(c, d, ms); Accounts(r.core, all + r.observations)
  {
    hide Accounts, Live, StepSpec;
    var r := StepAll(c, d, ms);
    if ms == [] {
      assert all + [] == all;
    } else {
      StepAllKeeps(c, all, d, ms[..|ms| - 1]);
      var before := StepAll(c, d, ms[..|ms| - 1]);
      LiveTable(before.core);
      StepKeeps(before.core, all + before.observations, d, ms[|ms| - 1]);
      var o := StepSpec(before.core, d, ms[|ms| - 1]).observation;
      assert all + (before.observations + [o]) == all + before.observations + [o];
    }
  }

  lemma {:induction false} GivenUpCount(rs: seq<Observation>)
    requires forall i :: 0 <= i < |rs| ==> rs[i].status == Pending ==> rs[i].summary.Some?
    ensures SumOver(AllGivenUp(rs), SoFar()) == SumOver(rs, SoFar())
  {
    if rs != [] {
      var init, given := rs[..|rs| - 1], AllGivenUp(rs);
      GivenUpCount(init);
      assert given[..|given| - 1] == AllGivenUp(init);
    }
  }

  /** Giving up moves no response from one account to another. */
  lemma {:induction false} GivingUpKeeps(c: Core, all: seq<Observation>)
    requires Live(c) && Accounts(c, all)
    ensures (forall i :: 0 <= i < |c.pending| ==> c.pending[i].summary.Some?)
    ensures var g := c.(pending := AllGivenUp(c.pending)); Table(g.pending) && Accounts(g, all)
  {
    hide Thread, Table, Proper, SumOver;
    GivenUpTable(c.pending);
    GivenUpCount(c.pending);
    var g := AllGivenUp(c.pending);
    forall i | 0 <= i < |g| ensures InThread(g[i], all) { assert InThread(c.pending[i], all); }
  }

  lemma {:induction false} UnavailableKeeps(c: Core, all: seq<Observation>, framing: Framing)
    requires Accounts(c, all)
    ensures Accounts(Before(c, framing), all) && Accounts(After(c, framing), all)
  {
    hide Table, Threaded, Proper, SumOver;
  }

  /** One update keeps the accounts, its observations added to those before. */
  lemma {:induction false} TakenKeeps(c: Core, all: seq<Observation>, framing: Framing)
    requires Live(c) && Accounts(c, all)
    ensures var t := Taken(c, framing); Accounts(t.core, all + t.observations)
  {
    hide Accounts, Live, StepAll;
    StaysLive(c, framing);
    UnavailableKeeps(c, all, framing);
    var forward := StepAll(Before(c, framing), Forward, Messages(framing.forward));
    StepAllKeeps(Before(c, framing), all, Forward, Messages(framing.forward));
    var reverse := StepAll(forward.core, Reverse, Messages(framing.reverse));
    StepAllKeeps(forward.core, all + forward.observations, Reverse, Messages(framing.reverse));
    var every := all + forward.observations + reverse.observations;
    assert all + (forward.observations + reverse.observations) == every;
    StaysLive(reverse.core, framing);
    UnavailableKeeps(reverse.core, every, framing);
    GivingUpKeeps(After(reverse.core, framing), every);
  }

  datatype Ran = Ran(current: Option<State>, trace: seq<Observation>)

  /**
   * A run: every update offered in turn, those refused or repeated changing nothing;
   * `trace` is all that was ever observed.
   */
  ghost function Run(updates: seq<Framing>): (r: Ran)
    ensures Live(CoreOf(r.current)) && (r.current.Some? ==> Summarised(r.current.value.observations))
  {
    if updates == [] then Ran(None, [])
    else
      var before, u := Run(updates[..|updates| - 1]), updates[|updates| - 1];
      var next := UpdateSpec(before.current, u);
      if next.Err? || Repeated(before.current, u) then before
      else Ran(Some(next.value), before.trace + next.value.observations)
  }

  lemma {:induction false} NothingAccounted()
    ensures Accounts(FRESH, [])
  {
    hide SumOver;
    forall f: Observation -> int ensures SumOver([], f) == 0 { SumOverNothing(f); }
  }

  /**
   * On every run: at most 128 open requests with distinct keys; the responses
   * matched are those of the finished summaries and of the requests still
   * open; each finished summary ends with its one terminal response.
   */
  lemma {:induction false} EveryRunAccounts(updates: seq<Framing>)
    ensures var r := Run(updates); Accounts(CoreOf(r.current), r.trace)
  {
    hide Live, StepAll, Taken, Refuses, Accounts;
    if updates == [] {
      NothingAccounted();
    } else {
      var before, u := Run(updates[..|updates| - 1]), updates[|updates| - 1];
      EveryRunAccounts(updates[..|updates| - 1]);
      TakenKeeps(CoreOf(before.current), before.trace, u);
    }
  }

  /** Closing gives up what is open and counts nothing twice; closing again changes nothing. */
  lemma {:induction false} FinalizeKeeps(s: State, trace: seq<Observation>)
    requires Live(s.core) && Accounts(s.core, trace)
    requires Summarised(s.observations)
    ensures (forall i :: 0 <= i < |s.core.pending| ==> s.core.pending[i].summary.Some?)
    ensures var f := Finalize(s);
            && f.finalized && Accounts(f.core, trace) && f.core.matched == s.core.matched
            && (!s.finalized ==> forall r :: r in f.core.pending || r in f.observations ==> r.status != Pending)
            && (!s.finalized ==> AllEnd(s.core.pending, f.core.pending) && AllEnd(s.observations, f.observations))
            && (s.finalized ==> f == s)
  {
    hide Accounts;
    GivingUpKeeps(s.core, trace);
    GivenUpEnds(s.core.pending);
    GivenUpEnds(s.observations);
  }

  // ---------------------------------------------------------------- which request a message concerns

  /** The entries with other keys, in order. */
  ghost function Others(pending: seq<Observation>, key: Key): seq<Observation>
  {
    if pending == [] then []
    else Others(pending[..|pending| - 1], key)
         + if KeyOf(pending[|pending| - 1]) == key then [] else [pending[|pending| - 1]]
  }

  lemma {:induction false} OthersIfAbsent(pending: seq<Observation>, key: Key)
    requires forall i :: 0 <= i < |pending| ==> KeyOf(pending[i]) != key
    ensures Others(pending, key) == pending
  {
    hide KeyOf;
    if pending != [] {
      OthersIfAbsent(pending[..|pending| - 1], key);
      assert pending == pending[..|pending| - 1] + [pending[|pending| - 1]];
    }
  }

  lemma {:induction false} OthersConcat(a: seq<Observation>, b: seq<Observation>, key: Key)
    ensures Others(a + b, key) == Others(a, key) + Others(b, key)
    decreases |b|
  {
    hide KeyOf;
    if b == [] {
      assert a + b == a && Others(a, key) + [] == Others(a, key);
    } else {
      var less, last := b[..|b| - 1], b[|b| - 1];
      assert (a + b)[..|a + b| - 1] == a + less && (a + b)[|a + b| - 1] == last;
      OthersConcat(a, less, key);
      assert Others(a, key) + (Others(less, key) + [last]) == Others(a + less, key) + [last];
    }
  }

  lemma {:induction false} KeysBeside(pending: seq<Observation>, i: nat)
    requires Table(pending) && i < |pending|
    ensures var key, a, b := KeyOf(pending[i]), pending[..i], pending[i + 1..];
            && (forall j :: 0 <= j < |a| ==> KeyOf(a[j]) != key) && (forall j :: 0 <= j < |b| ==> KeyOf(b[j]) != key)
  {
    hide KeyOf, Retained;
  }

  lemma {:induction false} OthersOfOne(r: Observation)
    ensures Others([r], KeyOf(r)) == []
  {
    assert [r][..0] == [];
  }

  lemma {:induction false} RemovalLeavesOthers(pending: seq<Observation>, i: nat)
    requires Table(pending) && i < |pending|
    ensures pending[..i] + pending[i + 1..] == Others(pending, KeyOf(pending[i]))
  {
    KeysBeside(pending, i);
    OthersOfOne(pending[i]);
    hide KeyOf, Table, Others;
    var key, a, b := KeyOf(pending[i]), pending[..i], pending[i + 1..];
    OthersIfAbsent(a, key);
    OthersIfAbsent(b, key);
    assert pending == (a + [pending[i]]) + b;
    OthersConcat(a, [pending[i]], key);
    OthersConcat(a + [pending[i]], b, key);
    assert a + [] == a;
  }

  /** The entry with this key, if there is one, becomes another one; the rest of the table stays. */
  ghost predicate OnlyChanges(pending: seq<Observation>, after: seq<Observation>, key: Key, r: Observation)
  {
    && |after| == |pending|
    && forall i :: 0 <= i < |pending| ==> after[i] == if KeyOf(pending[i]) == key then r else pending[i]
  }

  /**
   * Which messages take no part: those not complete, those numbered zero, and the
   * operations that neither wait for a response nor are one.
   */
  lemma {:induction false} NonCorrelatableExactly(c: Core, d: Direction, m: L.Message)
    requires Live(c)
    ensures Table(c.pending)
    ensures StepSpec(c, d, m).observation.status == NonCorrelatable
       <==> m.status != L.Complete || m.messageId == Some(0) || m.operation.None?
            || m.operation.value.UnbindRequest? || m.operation.value.AbandonRequest?
            || m.operation.value.IntermediateResponse?
  {
    hide StepSpec, Live, Correlatable;
    LiveTable(c);
    StatusMeans(c, d, m);
    CorrelatableExactly(m);
  }

  lemma {:induction false} CorrelatableExactly(m: L.Message)
    ensures !Correlatable(m)
       <==> m.status != L.Complete || m.messageId == Some(0) || m.operation.None?
            || m.operation.value.UnbindRequest? || m.operation.value.AbandonRequest?
            || m.operation.value.IntermediateResponse?
  { }

  /**
   * Which response answers which request, by the application numbers of RFC 4511: the
   * number before its own, but for the three responses to a search.
   */
  lemma {:induction false} ResponsesByNumber(response: L.Operation, request: L.Operation)
    ensures RequestOf(response) == Some(request)
       <==> W.Number(response) in {1, 4, 5, 7, 9, 11, 13, 15, 19, 24}
            && W.Number(request) == if W.Number(response) in {4, 5, 19} then 3 else W.Number(response) - 1
  { }

  /** Whether some response goes on: entries and references of a search do, all other responses end it. */
  predicate GoesOn(m: L.Message)
  {
    m.operation == Some(L.SearchResultEntry) || m.operation == Some(L.SearchResultReference)
  }

  /** One response more. */
  ghost predicate OneMore(before: Summary, after: Summary, m: L.Message)
  {
    && after.direction == before.direction && after.request == before.request
    && after.responses == before.responses + 1
    && (if GoesOn(m) then after.status == SummaryPending && after.terminal.None?
        else after.status == SummaryCompleted && after.terminal == Some(m))
  }

  /**
   * What one message does, in terms of the table's keys alone: which request the
   * observation names, what is counted for it, and what becomes of every entry.
   */
  ghost predicate StepMeans(c: Core, d: Direction, m: L.Message, o: Outcome)
  {
    var own: Key, asked: Key := (d, m.messageId), (Opposite(d), m.messageId);
    var w := o.observation;
    && w.direction == d && w.message == m
    && (w.status == Matched ==>
          exists r :: r in c.pending && KeyOf(r) == asked && w.request == Some(r.message) && r.summary.Some?
                      && if GoesOn(m) then
                           w.summary.None? && exists s ::
                             OneMore(r.summary.value, s, m)
                             && OnlyChanges(c.pending, o.core.pending, asked, r.(summary := Some(s)))
                         else
                           && w.summary.Some? && OneMore(r.summary.value, w.summary.value, m)
                           && o.core.pending == Others(c.pending, asked))
    && (w.status == Ambiguous ==>
          m.operation.Some?
          && if IsRequest(m.operation.value) then
               exists r :: r in c.pending && KeyOf(r) == own && SpoiledInTable(c, o, own, r)
                           && w.request == Some(r.message) && r.summary.Some?
                           && w.summary == Some(r.summary.value.(status := SummaryAmbiguous))
             else o.core.pending == c.pending && w.request.None? && w.summary.None?)
    && (w.status == NonCorrelatable ==>
          && w.request.None? && w.summary.None?
          && if c.unavailable.None? && m.status == L.Unsupported && HasKey(c.pending, own) then
               exists r :: r in c.pending && KeyOf(r) == own && SpoiledInTable(c, o, own, r)
             else o.core.pending == c.pending)
    && (w.status == Pending ==>
          && o.core.pending == c.pending + [w] && w.request == Some(m)
          && w.summary == Some(Summary(d, m, SummaryPending, 0, None)))
    && (w.status == Unresolved ==>
          && o.core.pending == c.pending && w.request == Some(m)
          && w.summary == Some(Summary(d, m, SummaryUnresolved, 0, None)))
    && (w.status == Unmatched ==>
          o.core.pending == c.pending && w.request.None? && w.summary.None?)
  }

  /** The entry of a key has become ambiguous, and nothing else has changed. */
  ghost predicate SpoiledInTable(c: Core, o: Outcome, key: Key, r: Observation)
  {
    && r.summary.Some?
    && OnlyChanges(c.pending, o.core.pending, key,
                   r.(status := Ambiguous, request := Some(r.message),
                      summary := Some(r.summary.value.(status := SummaryAmbiguous))))
  }

  lemma {:induction false} StepNamesTheRequest(c: Core, d: Direction, m: L.Message)
    requires Live(c)
    ensures StepMeans(c, d, m, StepSpec(c, d, m))
  {
    hide Find, KeyOf, Others, OnlyChanges, OneMore, IsRequest, RequestOf, GoesOn, Correlatable;
    LiveTable(c);
    if !Correlatable(m) {
      UnreadableMeans(c, d, m);
    } else {
      OperationKnown(m);
      if IsRequest(m.operation.value) { RequestMeans(c, d, m); } else { ResponseMeans(c, d, m); }
    }
  }

  lemma {:induction false} OneEntryChanges(pending: seq<Observation>, i: nat, r: Observation)
    requires Table(pending) && i < |pending|
    ensures OnlyChanges(pending, pending[i := r], KeyOf(pending[i]), r) && pending[i] in pending
  {
    hide Retained, KeyOf;
    var key := KeyOf(pending[i]);
    assert forall j :: 0 <= j < i ==> KeyOf(pending[j]) != key;
    assert forall j :: i < j < |pending| ==> KeyOf(pending[j]) != key;
  }

  lemma {:induction false} UnreadableMeans(c: Core, d: Direction, m: L.Message)
    requires Live(c) && !Correlatable(m)
    ensures Table(c.pending) && StepMeans(c, d, m, StepSpec(c, d, m))
  {
    hide Find, Others, OneMore, IsRequest, RequestOf, GoesOn, OnlyChanges;
    var at := Find(c.pending, (d, m.messageId));
    if at.Some? { OneEntryChanges(c.pending, at.value, MadeAmbiguous(c.pending[at.value])); }
  }

  lemma {:induction false} RequestMeans(c: Core, d: Direction, m: L.Message)
    requires Live(c) && Correlatable(m) && IsRequest(m.operation.value)
    ensures Table(c.pending) && StepMeans(c, d, m, StepSpec(c, d, m))
  {
    hide Find, Others, OneMore, IsRequest, RequestOf, GoesOn, OnlyChanges;
    var at := Find(c.pending, (d, m.messageId));
    if at.Some? { OneEntryChanges(c.pending, at.value, MadeAmbiguous(c.pending[at.value])); }
  }

  lemma {:induction false} ResponseMeans(c: Core, d: Direction, m: L.Message)
    requires Live(c) && Correlatable(m) && !IsRequest(m.operation.value)
    ensures Table(c.pending) && StepMeans(c, d, m, StepSpec(c, d, m))
  {
    hide Find, Others, IsRequest, RequestOf, OnlyChanges, Correlatable;
    OperationKnown(m);
    var at := Find(c.pending, (Opposite(d), m.messageId));
    if at.Some? && StepSpec(c, d, m).observation.status == Matched {
      var r := c.pending[at.value];
      var s := WithResponse(r.summary.value, m, !IsContinuation(m.operation.value));
      assert OneMore(r.summary.value, s, m);
      RemovalLeavesOthers(c.pending, at.value);
      OneEntryChanges(c.pending, at.value, r.(summary := Some(s)));
      hide OneMore, GoesOn;
    }
  }

  // ---------------------------------------------------------------- every message, once

  /** The messages of one side were observed in order, each in its direction. */
  ghost predicate Observed(observations: seq<Observation>, d: Direction, ms: seq<L.Message>)
  {
    && |observations| == |ms|
    && forall i :: 0 <= i < |ms| ==> observations[i].direction == d && observations[i].message == ms[i]
  }

  lemma {:induction false} AllObserved(c: Core, d: Direction, ms: seq<L.Message>)
    requires Live(c)
    ensures Observed(StepAll(c, d, ms).observations, d, ms)
  {
    hide StepSpec, Live;
    if ms != [] {
      AllObserved(c, d, ms[..|ms| - 1]);
      var before := StepAll(c, d, ms[..|ms| - 1]);
      LiveTable(before.core);
      StepIsOwn(before.core, d, ms[|ms| - 1]);
    }
  }

  lemma {:induction false} StepIsOwn(c: Core, d: Direction, m: L.Message)
    requires Live(c)
    ensures Table(c.pending) && StepSpec(c, d, m).observation.direction == d
            && StepSpec(c, d, m).observation.message == m
  {
    hide StepSpec, Table;
    LiveTable(c);
    StepNamesTheRequest(c, d, m);
  }

  /** One update observes each message it brings once, in order, forward ones as forward and reverse ones as reverse. */
  lemma {:induction false} TakenObserves(c: Core, framing: Framing)
    requires Live(c)
    ensures var forward, reverse := Messages(framing.forward), Messages(framing.reverse);
            var seen := Taken(c, framing).observations;
            && |seen| == |forward| + |reverse|
            && Observed(seen[..|forward|], Forward, forward) && Observed(seen[|forward|..], Reverse, reverse)
  {
    hide StepAll, Live, Observed;
    StaysLive(c, framing);
    var forward := StepAll(Before(c, framing), Forward, Messages(framing.forward));
    AllObserved(Before(c, framing), Forward, Messages(framing.forward));
    AllObserved(forward.core, Reverse, Messages(framing.reverse));
    ObservedSize(forward.observations, Forward, Messages(framing.forward));
    var reverse := StepAll(forward.core, Reverse, Messages(framing.reverse)).observations;
    ObservedSize(reverse, Reverse, Messages(framing.reverse));
    var seen := forward.observations + reverse;
    assert seen[..|forward.observations|] == forward.observations && seen[|forward.observations|..] == reverse;
  }

  lemma {:induction false} ObservedSize(observations: seq<Observation>, d: Direction, ms: seq<L.Message>)
    requires Observed(observations, d, ms)
    ensures |observations| == |ms|
  { }

  // ---------------------------------------------------------------- lost streams

  /** An observation that neither opens, answers nor spoils a request. */
  predicate Idle(o: Observation) { o.status == NonCorrelatable || o.status == Unmatched || o.status == Unresolved }

  ghost predicate AllIdle(os: seq<Observation>) { forall o :: o in os ==> Idle(o) }

  lemma {:induction false} UnavailableIsIdle(c: Core, d: Direction, ms: seq<L.Message>)
    requires Live(c) && c.unavailable.Some?
    ensures var r := StepAll(c, d, ms);
            && r.core.unavailable == c.unavailable && r.core.pending == c.pending && r.core.matched == c.matched
            && r.core.ambiguous == c.ambiguous && AllIdle(r.observations)
  {
    hide StepSpec, Live;
    if ms != [] {
      UnavailableIsIdle(c, d, ms[..|ms| - 1]);
      var before := StepAll(c, d, ms[..|ms| - 1]);
      LiveTable(before.core);
      UnavailableStep(before.core, d, ms[|ms| - 1]);
    }
  }

  lemma {:induction false} UnavailableStep(c: Core, d: Direction, m: L.Message)
    requires Table(c.pending) && c.unavailable.Some?
    ensures var o := StepSpec(c, d, m);
            && o.core.unavailable == c.unavailable && o.core.pending == c.pending && o.core.matched == c.matched
            && o.core.ambiguous == c.ambiguous && Idle(o.observation)
  {
    hide Find, IsRequest, RequestOf, IsContinuation;
  }

  /** While a correlation can be used only its own limit ends it. */
  lemma {:induction false} OnlyTheLimit(c: Core, d: Direction, ms: seq<L.Message>)
    requires Live(c) && c.unavailable.None?
    ensures StepAll(c, d, ms).core.unavailable in {None, Some(LimitExceeded)}
  {
    hide StepSpec, Live;
    if ms != [] {
      OnlyTheLimit(c, d, ms[..|ms| - 1]);
      var before := StepAll(c, d, ms[..|ms| - 1]);
      LiveTable(before.core);
      LimitStep(before.core, d, ms[|ms| - 1]);
    }
  }

  lemma {:induction false} LimitStep(c: Core, d: Direction, m: L.Message)
    requires Table(c.pending)
    ensures StepSpec(c, d, m).core.unavailable in {c.unavailable, Some(LimitExceeded)}
  {
    hide Find, IsRequest, RequestOf, IsContinuation;
  }

  /** An open request that will not be answered any more; every other entry is left as it is. */
  ghost predicate Ends(r: Observation, after: Observation)
  {
    if r.status != Pending then after == r
    else
      && r.summary.Some?
      && after == r.(status := Unresolved, summary := Some(r.summary.value.(status := SummaryUnresolved)))
  }

  ghost predicate AllEnd(rs: seq<Observation>, after: seq<Observation>)
  {
    |after| == |rs| && forall i :: 0 <= i < |rs| ==> Ends(rs[i], after[i])
  }

  lemma {:induction false} GivenUpEnds(rs: seq<Observation>)
    requires forall i :: 0 <= i < |rs| ==> rs[i].status == Pending ==> rs[i].summary.Some?
    ensures AllEnd(rs, AllGivenUp(rs))
  { }

  /**
   * A gap ends the matching before the messages that came with it are looked at, and a
   * failed stream after them: from then on nothing is open, and nothing is matched.
   */
  lemma {:induction false} LossEndsMatching(c: Core, framing: Framing)
    requires Live(c)
    ensures var t := Taken(c, framing);
            var lost := framing.gap || Failed(framing.forward) || Failed(framing.reverse);
            && (c.unavailable.Some? || lost ==> t.core.unavailable.Some?)
            && (c.unavailable.Some? ==> t.core.unavailable == c.unavailable)
            && (t.core.unavailable == Some(StreamUnavailable) && c.unavailable.None? ==> lost)
            && (c.unavailable.Some? || framing.gap ==>
                  && t.core.matched == c.matched && t.core.ambiguous == c.ambiguous && AllIdle(t.observations)
                  && AllEnd(c.pending, t.core.pending))
            && (t.core.unavailable.Some? ==> forall r :: r in t.core.pending ==> r.status != Pending)
  {
    hide StepAll, Live;
    SettledStaysLive(c);
    GivenUpEnds(c.pending);
    StaysLive(c, framing);
    var first := Before(c, framing);
    var forward := StepAll(first, Forward, Messages(framing.forward));
    if first.unavailable.Some? {
      UnavailableIsIdle(first, Forward, Messages(framing.forward));
      UnavailableIsIdle(forward.core, Reverse, Messages(framing.reverse));
    } else {
      OnlyTheLimit(first, Forward, Messages(framing.forward));
      if forward.core.unavailable.None? {
        OnlyTheLimit(forward.core, Reverse, Messages(framing.reverse));
      } else {
        UnavailableIsIdle(forward.core, Reverse, Messages(framing.reverse));
      }
    }
  }

  /** Once the matching has ended, no later update opens, answers or spoils a request. */
  lemma {:induction false} LossIsForGood(updates: seq<Framing>, more: seq<Framing>)
    requires CoreOf(Run(updates).current).unavailable.Some?
    ensures var r, r' := Run(updates), Run(updates + more);
            && CoreOf(r'.current).unavailable == CoreOf(r.current).unavailable
            && CoreOf(r'.current).matched == CoreOf(r.current).matched
            && r.trace <= r'.trace && AllIdle(r'.trace[|r.trace|..])
    decreases |more|
  {
    hide Live, Taken, Refuses;
    if more == [] {
      assert updates + more == updates;
    } else {
      var all, less := updates + more, updates + more[..|more| - 1];
      assert all[..|all| - 1] == less && all[|all| - 1] == more[|more| - 1];
      LossIsForGood(updates, more[..|more| - 1]);
      LossEndsMatching(CoreOf(Run(less).current), all[|all| - 1]);
      var n := |Run(updates).trace|;
      hide Run, AllIdle;
      IdleConcat(Run(less).trace[n..], Taken(CoreOf(Run(less).current), all[|all| - 1]).observations);
    }
  }

  lemma {:induction false} IdleConcat(a: seq<Observation>, b: seq<Observation>)
    requires AllIdle(a) && AllIdle(b)
    ensures AllIdle(a + b)
  { }
}
