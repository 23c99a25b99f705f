/**
 * Request and response correlation of DNS messages within one flow: a bounded
 * table of outstanding requests, repeats that make an identifier ambiguous, and
 * an overflow that gives the flow up.
 */
module DnsCorrelation {
  import opened Common
  import N = DnsName
  import D = Dns
  import M = DnsMeaning

  const MAX_PENDING := 128

  datatype Status = Pending | Matched | Unmatched | Ambiguous | Unresolved

  datatype Reason = LimitExceeded | FlowClosed

  datatype Transaction = Transaction(
    direction: Direction, message: D.Message, capturedAt: int, status: Status,
    request: Option<D.Message>, requestCapturedAt: Option<int>, reason: Option<Reason>)

  datatype State = State(
    identity: nat, requests: seq<Transaction>, observations: seq<Transaction>, lastCapturedAt: int,
    unavailable: Option<Reason>, finalized: bool)

  datatype CorrelationError = AlreadyFinalized | OtherIdentity | TimeWentBack

  /** A message that counts: completely parsed, so with a header and four sections of the declared lengths. */
  ghost predicate Valid(m: D.Message)
  {
    && m.status == N.Complete && m.header.Some? && |m.sections| == 4
    && (forall s :: 0 <= s < 4 ==> |m.sections[s]| == m.header.value.Declared(s))
    && (forall s, i :: 0 <= s < 4 && 0 <= i < |m.sections[s]|
                       ==> m.sections[s][i].Question? == (s == 0) && M.Fits(m.sections[s][i]))
  }

  /** What the parser produces: either valid or not complete. */
  ghost predicate Parsed(m: Option<D.Message>) { m.Some? && m.value.status == N.Complete ==> Valid(m.value) }

  /** Every payload is parsed into such a message. */
  lemma {:induction false} MessagesAreParsed(payload: Bytes)
    ensures Parsed(Some(D.MessageSpec(payload)))
  {
    hide D.MessageSpec, M.Fits, M.Laid, M.EndOf, M.Flat;
    var m := D.MessageSpec(payload);
    if m.status == N.Complete {
      M.CompleteMessage(payload);
      forall s: nat, i: nat | s < 4 && i < |m.sections[s]| ensures M.Fits(m.sections[s][i]) {
        M.EntriesFit(payload, s, i);
      }
    }
  }

  predicate Counts(m: Option<D.Message>) { m.Some? && m.value.status == N.Complete }

  function Lower(b: Byte): Byte { if 65 <= b <= 90 then b + 32 else b }

  function LowerAll(l: Bytes): Bytes { seq(|l|, i requires 0 <= i < |l| => Lower(l[i])) }

  /** A question as it is compared: labels without case, type and class. */
  function Asked(q: D.Entry): (seq<Bytes>, nat, nat)
  {
    (seq(|q.name.labels|, i requires 0 <= i < |q.name.labels| => LowerAll(q.name.labels[i])), q.entryType, q.entryClass)
  }

  predicate SameQuestions(a: D.Message, b: D.Message)
    requires |a.sections| > 0 && |b.sections| > 0
  {
    && |a.sections[0]| == |b.sections[0]|
    && forall i :: 0 <= i < |a.sections[0]| ==> Asked(a.sections[0][i]) == Asked(b.sections[0][i])
  }

  type Key = (Direction, nat)

  function KeyOf(t: Transaction): Key
    requires t.message.header.Some?
  {
    (t.direction, t.message.header.value.transactionId)
  }

  /** A request that can still be answered, in the table of outstanding ones. */
  ghost predicate Outstanding(t: Transaction)
  {
    && Valid(t.message) && !t.message.header.value.IsResponse()
    && (t.status == Pending || t.status == Ambiguous)
    && t.request == Some(t.message) && t.requestCapturedAt == Some(t.capturedAt) && t.reason.None?
  }

  ghost predicate AllOutstanding(pending: seq<Transaction>)
  {
    forall i :: 0 <= i < |pending| ==> Outstanding(pending[i])
  }

  ghost predicate Table(pending: seq<Transaction>)
  {
    && |pending| <= MAX_PENDING && AllOutstanding(pending)
    && (forall i, j :: 0 <= i < j < |pending| ==> KeyOf(pending[i]) != KeyOf(pending[j]))
  }

  ghost predicate Sound(s: State)
  {
    && Table(s.requests)
    && (forall i :: 0 <= i < |s.requests| ==> s.requests[i].capturedAt <= s.lastCapturedAt)
    && (s.unavailable.Some? ==> s.requests == [])
    && (s.finalized ==> s.requests == [])
  }

  /** Where the outstanding request with a key is. */
  function Find(pending: seq<Transaction>, key: Key): (r: Option<nat>)
    requires AllOutstanding(pending)
    ensures r.Some? ==> r.value < |pending| && KeyOf(pending[r.value]) == key
    ensures r.None? ==> forall i :: 0 <= i < |pending| ==> KeyOf(pending[i]) != key
  {
    if pending == [] then None
    else if KeyOf(pending[|pending| - 1]) == key then Some(|pending| - 1)
    else Find(pending[..|pending| - 1], key)
  }

  // ---------------------------------------------------------------- specification

  /** What one valid message is to the outstanding requests. */
  datatype Verdict = Late | Repeats(i: nat) | Overflows | Waits | Stray | Clashes(i: nat) | Answers(i: nat)

  function Judge(pending: seq<Transaction>, unavailable: Option<Reason>, m: D.Message,
          direction: Direction): (v: Verdict)
    requires Valid(m) && AllOutstanding(pending)
    ensures v.Repeats? || v.Clashes? || v.Answers? ==> v.i < |pending|
  {
    var id := m.header.value.transactionId;
    if !m.header.value.IsResponse() then
      if unavailable.Some? then Late
      else match Find(pending, (direction, id))
        case Some(i) => Repeats(i)
        case None => if |pending| == MAX_PENDING then Overflows else Waits
    else if unavailable.Some? then Stray
    else match Find(pending, (Opposite(direction), id))
      case None => Stray
      case Some(i) =>
        if pending[i].status == Ambiguous then Clashes(i)
        else if m.header.value.Opcode() == pending[i].message.header.value.Opcode()
                && SameQuestions(m, pending[i].message) then Answers(i)
        else Stray
  }

  function Resolve(t: Transaction, status: Status, reason: Option<Reason>): Transaction
  {
    t.(status := status, reason := reason)
  }

  function ResolveAll(ts: seq<Transaction>, reason: Reason): (r: seq<Transaction>)
    ensures |r| == |ts|
    ensures forall i :: 0 <= i < |ts| ==> r[i] == Resolve(ts[i], Unresolved, Some(reason))
  {
    seq(|ts|, i requires 0 <= i < |ts| => Resolve(ts[i], Unresolved, Some(reason)))
  }

  function Without(pending: seq<Transaction>, i: nat): seq<Transaction>
    requires i < |pending|
  {
    pending[..i] + pending[i + 1..]
  }

  datatype Effect = Effect(pending: seq<Transaction>, observations: seq<Transaction>, unavailable: Option<Reason>)

  function Apply(pending: seq<Transaction>, unavailable: Option<Reason>, m: D.Message, direction: Direction, at: int,
          v: Verdict): Effect
    requires v.Repeats? || v.Clashes? || v.Answers? ==> v.i < |pending|
  {
    var own := Transaction(direction, m, at, Unresolved, Some(m), Some(at), unavailable);
    match v
    case Late => Effect(pending, [own], unavailable)
    case Repeats(i) =>
      Effect(pending[i := Resolve(pending[i], Ambiguous, None)],
             [own.(status := Ambiguous, request := pending[i].request,
                   requestCapturedAt := pending[i].requestCapturedAt)], unavailable)
    case Overflows =>
      Effect([], ResolveAll(pending, LimitExceeded) + [own.(reason := Some(LimitExceeded))], Some(LimitExceeded))
    case Waits => Effect(pending + [own.(status := Pending)], [own.(status := Pending)], unavailable)
    case Stray => Effect(pending, [own.(status := Unmatched, request := None, requestCapturedAt := None)], unavailable)
    case Clashes(_) => Effect(pending, [own.(status := Ambiguous, request := None, requestCapturedAt := None)],
                              unavailable)
    case Answers(i) =>
      Effect(Without(pending, i),
             [own.(status := Matched, request := pending[i].request,
                   requestCapturedAt := pending[i].requestCapturedAt)], unavailable)
  }

  function RequestsOf(current: Option<State>): seq<Transaction> { if current.Some? then current.value.requests else [] }

  function UnavailableOf(current: Option<State>): Option<Reason>
  {
    if current.Some? then current.value.unavailable else None
  }

  function Refuses(current: Option<State>, identity: nat, at: int): Option<CorrelationError>
  {
    if current.None? then None
    else if current.value.finalized then Some(AlreadyFinalized)
    else if current.value.identity != identity then Some(OtherIdentity)
    else if at < current.value.lastCapturedAt then Some(TimeWentBack)
    else None
  }

  function UpdateSpec(current: Option<State>, message: Option<D.Message>, identity: nat, direction: Direction, at: int)
    : Result<Option<State>, CorrelationError>
    requires Parsed(message) && AllOutstanding(RequestsOf(current))
  {
    if Refuses(current, identity, at).Some? then Err(Refuses(current, identity, at).value)
    else if current.None? && !Counts(message) then Ok(None)
    else
      var pending, unavailable := RequestsOf(current), UnavailableOf(current);
      var e := if Counts(message) then Apply(pending, unavailable, message.value, direction, at,
                                             Judge(pending, unavailable, message.value, direction))
               else Effect(pending, [], unavailable);
      Ok(Some(State(identity, e.pending, e.observations, at, e.unavailable, false)))
  }

  // ---------------------------------------------------------------- the program's steps

  /** `update_dns_correlation_state`: the table and the observations change as the branches go. */
  method Update(current: Option<State>, message: Option<D.Message>, identity: nat, direction: Direction, at: int)
    returns (r: Result<Option<State>, CorrelationError>)
    requires Parsed(message) && (current.Some? ==> Sound(current.value))
    ensures r == UpdateSpec(current, message, identity, direction, at)
    ensures r.Err? <==> current.Some? && (current.value.finalized || current.value.identity != identity
                                          || at < current.value.lastCapturedAt)
    ensures r.Err? ==> r.error == if current.value.finalized then AlreadyFinalized
                       else if current.value.identity != identity then OtherIdentity else TimeWentBack
    ensures r.Ok? ==> (r.value.None? <==> current.None? && (message.None? || message.value.status != N.Complete))
  {
    hide SameQuestions, KeyOf, Resolve, D.Header.IsResponse, D.Header.Opcode;
    if current.Some? {
      if current.value.finalized { return Err(AlreadyFinalized); }
      if current.value.identity != identity { return Err(OtherIdentity); }
      if at < current.value.lastCapturedAt { return Err(TimeWentBack); }
    }
    var valid := message.Some? && message.value.status == N.Complete;
    if current.None? && !valid { return Ok(None); }
    var pending, unavailable := RequestsOf(current), UnavailableOf(current);
    var observations: seq<Transaction> := [];
    if valid {
      var m := message.value;
      ghost var v := Judge(pending, unavailable, m, direction);
      ghost var e := Apply(pending, unavailable, m, direction, at, v);
      var response := m.header.value.IsResponse();
      var key := (if response then Opposite(direction) else direction, m.header.value.transactionId);
      var previous := Find(pending, key);
      var request: Option<D.Message>, timestamp: Option<int>, reason := None, None, unavailable;
      var status;
      if !response {
        request, timestamp := Some(m), Some(at);
        if unavailable.Some? {
          status := Unresolved;
        } else if previous.Some? {
          status := Ambiguous;
          request, timestamp := pending[previous.value].request, pending[previous.value].requestCapturedAt;
          pending := pending[previous.value := Resolve(pending[previous.value], status, None)];
        } else if |pending| == MAX_PENDING {
          unavailable, reason := Some(LimitExceeded), Some(LimitExceeded);
          observations := ResolveAll(pending, LimitExceeded);
          pending := [];
          status := Unresolved;
        } else {
          status := Pending;
        }
      } else {
        status := Unmatched;
        if previous.Some? && unavailable.None? {
          if pending[previous.value].status == Ambiguous {
            status := Ambiguous;
          } else if m.header.value.Opcode() == pending[previous.value].request.value.header.value.Opcode()
                    && SameQuestions(m, pending[previous.value].request.value) {
            status := Matched;
            request, timestamp := pending[previous.value].request, pending[previous.value].requestCapturedAt;
            pending := Without(pending, previous.value);
          }
        }
      }
      var observation := Transaction(direction, m, at, status, request, timestamp, reason);
      assert e.unavailable == unavailable;
      observations := observations + [observation];
      assert v.Overflows? || observations == [observation];
      assert e.observations == observations;
      if status == Pending { pending := pending + [observation]; }
      assert e.pending == pending;
    }
    r := Ok(Some(State(identity, pending, observations, at, unavailable, false)));
  }

  /**
   * `finalize_dns_correlation_state`: outstanding requests end unresolved,
   * announcements of pending ones are dropped.
   */
  function Finalize(s: State): State
  {
    if s.finalized then s
    else s.(requests := [], observations := Terminal(s.observations) + ResolveAll(s.requests, FlowClosed),
            finalized := true)
  }

  /** The observations that are not merely pending, in order. */
  function Terminal(ts: seq<Transaction>): seq<Transaction>
  {
    if ts == [] then []
    else Terminal(ts[..|ts| - 1]) + if ts[|ts| - 1].status != Pending then [ts[|ts| - 1]] else []
  }

  // ---------------------------------------------------------------- what every update keeps

  lemma {:induction false} EmptyTable()
    ensures Table([])
  { }

  lemma {:induction false} TableAppend(pending: seq<Transaction>, t: Transaction)
    requires Table(pending) && |pending| < MAX_PENDING && Outstanding(t)
    requires forall i :: 0 <= i < |pending| ==> KeyOf(pending[i]) != KeyOf(t)
    ensures Table(pending + [t])
  { }

  lemma {:induction false} TableWithout(pending: seq<Transaction>, i: nat)
    requires Table(pending) && i < |pending|
    ensures Table(Without(pending, i))
  {
    var r := Without(pending, i);
    forall j, k | 0 <= j < k < |r| ensures KeyOf(r[j]) != KeyOf(r[k]) {
      assert r[j] == pending[if j < i then j else j + 1] && r[k] == pending[if k < i then k else k + 1];
    }
  }

  lemma {:induction false} TableUpdate(pending: seq<Transaction>, i: nat)
    requires Table(pending) && i < |pending|
    ensures Table(pending[i := Resolve(pending[i], Ambiguous, None)])
  {
    var r := pending[i := Resolve(pending[i], Ambiguous, None)];
    forall j, k | 0 <= j < k < |r| ensures KeyOf(r[j]) != KeyOf(r[k]) {
      assert KeyOf(r[j]) == KeyOf(pending[j]) && KeyOf(r[k]) == KeyOf(pending[k]);
    }
  }

  /** A message leaves a table of distinct keys within the bound, none of its entries newer than the message. */
  lemma {:induction false} ApplyKeepsTable(pending: seq<Transaction>, unavailable: Option<Reason>, m: D.Message,
          direction: Direction, at: int)
    requires Valid(m) && Table(pending) && (unavailable.Some? ==> pending == [])
    ensures var e := Apply(pending, unavailable, m, direction, at, Judge(pending, unavailable, m, direction));
            && Table(e.pending) && (e.unavailable.Some? ==> e.pending == [])
            && forall t :: t in e.pending
                           ==> t.capturedAt == at || exists u :: u in pending && u.capturedAt == t.capturedAt
  {
    hide Valid, SameQuestions, KeyOf;
    var v := Judge(pending, unavailable, m, direction);
    match v
    case Waits => Appended(pending, m, direction, at);
    case Answers(i) => TableWithout(pending, i);
    case Repeats(i) => TableUpdate(pending, i);
    case Overflows => EmptyTable();
    case _ =>
  }

  lemma {:induction false} Appended(pending: seq<Transaction>, m: D.Message, direction: Direction, at: int)
    requires Valid(m) && Table(pending) && Judge(pending, None, m, direction).Waits?
    ensures Table(Apply(pending, None, m, direction, at, Waits).pending)
  {
    hide Valid, SameQuestions;
    TableAppend(pending, Transaction(direction, m, at, Pending, Some(m), Some(at), None));
  }

  /** The table stays bounded, with distinct keys, and holds nothing newer than the last message. */
  lemma {:induction false} UpdateKeepsSound(current: Option<State>, message: Option<D.Message>, identity: nat,
          direction: Direction, at: int)
    requires Parsed(message) && (current.Some? ==> Sound(current.value))
    ensures var r := UpdateSpec(current, message, identity, direction, at);
            r.Ok? && r.value.Some? ==> Sound(r.value.value) && r.value.value.lastCapturedAt == at
                                       && !r.value.value.finalized
  {
    hide Valid, SameQuestions, Apply, Outstanding, KeyOf;
    var pending, unavailable := RequestsOf(current), UnavailableOf(current);
    assert Table(pending);
    if Counts(message) { ApplyKeepsTable(pending, unavailable, message.value, direction, at); }
  }

  // ---------------------------------------------------------------- which messages are accounted for

  /** The messages an observation accounts for: a match answers for its request too, a mere announcement for none. */
  function Contribution(t: Transaction): seq<D.Message>
  {
    if t.status == Pending then []
    else if t.status == Matched && t.request.Some? then [t.request.value, t.message]
    else [t.message]
  }

  ghost function Counted(ts: seq<Transaction>): seq<D.Message>
  {
    if ts == [] then [] else Counted(ts[..|ts| - 1]) + Contribution(ts[|ts| - 1])
  }

  ghost function Waiting(ts: seq<Transaction>): (r: seq<D.Message>)
    ensures |r| == |ts| && forall i :: 0 <= i < |ts| ==> r[i] == ts[i].message
  {
    seq(|ts|, i requires 0 <= i < |ts| => ts[i].message)
  }

  ghost function ObservationsOf(s: Option<State>): seq<Transaction> { if s.Some? then s.value.observations else [] }

  lemma {:induction false} CountedConcat(a: seq<Transaction>, b: seq<Transaction>)
    ensures Counted(a + b) == Counted(a) + Counted(b)
  {
    if b == [] {
      assert a + b == a && Counted(a) + [] == Counted(a);
    } else {
      assert (a + b)[..|a + b| - 1] == a + b[..|b| - 1];
      CountedConcat(a, b[..|b| - 1]);
      assert Counted(a) + (Counted(b[..|b| - 1]) + Contribution(b[|b| - 1]))
             == Counted(a + b[..|b| - 1]) + Contribution(b[|b| - 1]);
    }
  }

  lemma {:induction false} CountedOne(t: Transaction)
    ensures Counted([t]) == Contribution(t)
  {
    assert [t][..0] == [] && [] + Contribution(t) == Contribution(t);
  }

  lemma {:induction false} ResolvedCounts(ts: seq<Transaction>, reason: Reason)
    ensures Counted(ResolveAll(ts, reason)) == Waiting(ts)
  {
    if ts != [] {
      var before, r := ts[..|ts| - 1], ResolveAll(ts, reason);
      assert r[..|r| - 1] == ResolveAll(before, reason);
      ResolvedCounts(before, reason);
      assert Waiting(ts) == Waiting(before) + [ts[|ts| - 1].message];
    }
  }

  lemma {:induction false} WaitingWithout(pending: seq<Transaction>, i: nat)
    requires i < |pending|
    ensures multiset(Waiting(pending)) == multiset(Waiting(Without(pending, i))) + multiset{pending[i].message}
  {
    var w := Waiting(pending);
    assert w == w[..i] + [w[i]] + w[i + 1..];
    assert Waiting(Without(pending, i)) == w[..i] + w[i + 1..];
  }

  lemma {:induction false} WaitingAppend(pending: seq<Transaction>, t: Transaction)
    ensures Waiting(pending + [t]) == Waiting(pending) + [t.message]
  { }

  lemma {:induction false} WaitingUpdate(pending: seq<Transaction>, i: nat, t: Transaction)
    requires i < |pending| && t.message == pending[i].message
    ensures Waiting(pending[i := t]) == Waiting(pending)
  { }

  lemma {:induction false} RequestIsOwnMessage(pending: seq<Transaction>, i: nat)
    requires AllOutstanding(pending) && i < |pending|
    ensures pending[i].request == Some(pending[i].message)
  { }

  /** What a message's effect makes final and leaves waiting are the messages waiting before and itself. */
  ghost predicate Balanced(pending: seq<Transaction>, m: D.Message, e: Effect)
  {
    multiset(Counted(e.observations)) + multiset(Waiting(e.pending)) == multiset(Waiting(pending)) + multiset{m}
  }

  lemma {:induction false} BalancedAlone(pending: seq<Transaction>, m: D.Message, e: Effect, own: Transaction)
    requires e.observations == [own] && own.message == m && own.status != Pending && own.status != Matched
    requires Waiting(e.pending) == Waiting(pending)
    ensures Balanced(pending, m, e)
  {
    hide Waiting, Counted;
    CountedOne(own);
  }

  lemma {:induction false} BalancedWaits(pending: seq<Transaction>, m: D.Message, e: Effect, own: Transaction)
    requires e.observations == [own] && own.message == m && own.status == Pending && e.pending == pending + [own]
    ensures Balanced(pending, m, e)
  {
    hide Waiting, Counted;
    CountedOne(own);
    WaitingAppend(pending, own);
  }

  lemma {:induction false} BalancedAnswers(pending: seq<Transaction>, m: D.Message, e: Effect, own: Transaction, i: nat)
    requires e.observations == [own] && own.message == m && own.status == Matched
    requires i < |pending| && own.request == Some(pending[i].message) && e.pending == Without(pending, i)
    ensures Balanced(pending, m, e)
  {
    hide Waiting, Counted, Without;
    CountedOne(own);
    WaitingWithout(pending, i);
  }

  lemma {:induction false} BalancedOverflows(pending: seq<Transaction>, m: D.Message, e: Effect, own: Transaction)
    requires e.observations == ResolveAll(pending, LimitExceeded) + [own] && e.pending == []
    requires own.message == m && own.status == Unresolved
    ensures Balanced(pending, m, e)
  {
    hide Counted, ResolveAll;
    CountedOne(own);
    ResolvedCounts(pending, LimitExceeded);
    CountedConcat(ResolveAll(pending, LimitExceeded), [own]);
  }

  lemma {:induction false} ApplyConserves(pending: seq<Transaction>, unavailable: Option<Reason>, m: D.Message,
          direction: Direction, at: int)
    requires Valid(m) && AllOutstanding(pending)
    ensures Balanced(pending, m,
                     Apply(pending, unavailable, m, direction, at, Judge(pending, unavailable, m, direction)))
  {
    hide Valid, Judge, Balanced, Waiting, Outstanding, ResolveAll, Without;
    var v := Judge(pending, unavailable, m, direction);
    var e := Apply(pending, unavailable, m, direction, at, v);
    var own := e.observations[|e.observations| - 1];
    if v.Overflows? {
      BalancedOverflows(pending, m, e, own);
    } else if v.Waits? {
      BalancedWaits(pending, m, e, own);
    } else if v.Answers? {
      RequestIsOwnMessage(pending, v.i);
      BalancedAnswers(pending, m, e, own, v.i);
    } else {
      if v.Repeats? { WaitingUpdate(pending, v.i, e.pending[v.i]); }
      BalancedAlone(pending, m, e, own);
    }
  }

  /** No message is lost or counted twice: each is final in one observation or still waiting. */
  lemma {:induction false} UpdateConserves(current: Option<State>, message: Option<D.Message>, identity: nat,
          direction: Direction, at: int)
    requires Parsed(message) && (current.Some? ==> Sound(current.value))
    requires UpdateSpec(current, message, identity, direction, at).Ok?
    ensures var r := UpdateSpec(current, message, identity, direction, at).value;
            multiset(Counted(ObservationsOf(r))) + multiset(Waiting(RequestsOf(r)))
            == multiset(Waiting(RequestsOf(current)))
              + (if Counts(message) then multiset{message.value} else multiset{})
  {
    hide Valid, Apply, Outstanding, Waiting, KeyOf;
    if Counts(message) { ApplyConserves(RequestsOf(current), UnavailableOf(current), message.value, direction, at); }
  }

  lemma {:induction false} TerminalMembers(ts: seq<Transaction>)
    ensures forall t :: t in Terminal(ts) ==> t.status != Pending && t in ts
  {
    if ts != [] { TerminalMembers(ts[..|ts| - 1]); }
  }

  lemma {:induction false} TerminalCounts(ts: seq<Transaction>)
    ensures Counted(Terminal(ts)) == Counted(ts)
  {
    if ts != [] {
      var before, last := ts[..|ts| - 1], ts[|ts| - 1];
      TerminalCounts(before);
      CountedOne(last);
      CountedConcat(Terminal(before), [last]);
      assert Terminal(before) + [] == Terminal(before) && Counted(before) + [] == Counted(before);
    }
  }

  /** Closing makes every waiting message final, once; closing again changes nothing. */
  lemma {:induction false} FinalizeConserves(s: State)
    requires Sound(s)
    ensures var f := Finalize(s);
            && f.finalized && f.requests == [] && Finalize(f) == f && Sound(f)
            && (!s.finalized ==> f.observations[|Terminal(s.observations)|..] == ResolveAll(s.requests, FlowClosed))
            && (!s.finalized ==> Counted(f.observations) == Counted(s.observations) + Waiting(s.requests))
  {
    TerminalCounts(s.observations);
    ResolvedCounts(s.requests, FlowClosed);
    CountedConcat(Terminal(s.observations), ResolveAll(s.requests, FlowClosed));
  }

  /** Behind the final observations that were there, closing puts every outstanding request, ended for this reason. */
  lemma {:induction false} FinalizeEndsRequests(s: State)
    requires !s.finalized
    ensures var f, kept := Finalize(s), Terminal(s.observations);
            && |f.observations| == |kept| + |s.requests| && kept <= f.observations
            && forall i :: 0 <= i < |s.requests| ==>
                 f.observations[|kept| + i] == s.requests[i].(status := Unresolved, reason := Some(FlowClosed))
  {
    hide Terminal;
  }

  // ---------------------------------------------------------------- what a final observation says

  /** The relation between an observation's verdict, its message and the request it names. */
  ghost predicate Settled(t: Transaction)
  {
    && Valid(t.message)
    && match t.status
       case Pending => false
       case Matched =>
         && t.request.Some? && Valid(t.request.value) && Replies(t.message, t.request.value)
         && t.requestCapturedAt.Some? && t.requestCapturedAt.value <= t.capturedAt
       case Unmatched => t.message.header.value.IsResponse() && t.request.None? && t.requestCapturedAt.None?
       case Unresolved =>
         && !t.message.header.value.IsResponse() && t.request == Some(t.message)
         && t.requestCapturedAt == Some(t.capturedAt)
       case Ambiguous => t.message.header.value.IsResponse() ==> t.request.None? && t.requestCapturedAt.None?
  }

  /** A response with the identifier, the opcode and the questions of a request. */
  ghost predicate Replies(m: D.Message, request: D.Message)
    requires Valid(m) && Valid(request)
  {
    && m.header.value.IsResponse() && !request.header.value.IsResponse()
    && m.header.value.transactionId == request.header.value.transactionId
    && m.header.value.Opcode() == request.header.value.Opcode() && SameQuestions(m, request)
  }

  ghost predicate AllSettled(ts: seq<Transaction>) { forall t :: t in ts && t.status != Pending ==> Settled(t) }

  lemma {:induction false} ResolvedSettles(ts: seq<Transaction>, reason: Reason)
    requires AllOutstanding(ts)
    ensures AllSettled(ResolveAll(ts, reason))
  {
    hide Valid;
  }

  lemma {:induction false} AnswersReplies(pending: seq<Transaction>, m: D.Message, direction: Direction, i: nat)
    requires Valid(m) && AllOutstanding(pending) && Judge(pending, None, m, direction) == Answers(i)
    ensures i < |pending| && Outstanding(pending[i]) && Valid(pending[i].message) && Replies(m, pending[i].message)
    ensures KeyOf(pending[i]) == (Opposite(direction), m.header.value.transactionId)
  {
    hide SameQuestions;
  }

  lemma {:induction false} UpdateSettles(current: Option<State>, message: Option<D.Message>, identity: nat,
          direction: Direction, at: int)
    requires Parsed(message) && (current.Some? ==> Sound(current.value))
    requires UpdateSpec(current, message, identity, direction, at).Ok?
    ensures AllSettled(ObservationsOf(UpdateSpec(current, message, identity, direction, at).value))
  {
    hide Valid, SameQuestions, KeyOf;
    ResolvedSettles(RequestsOf(current), LimitExceeded);
    if Counts(message) && !UpdateSpec(current, message, identity, direction, at).value.None? {
      var v := Judge(RequestsOf(current), UnavailableOf(current), message.value, direction);
      if v.Answers? { AnswersReplies(RequestsOf(current), message.value, direction, v.i); }
    }
  }

  lemma {:induction false} FinalizeSettles(s: State)
    requires Sound(s) && AllSettled(s.observations)
    ensures AllSettled(Finalize(s).observations)
  {
    hide Valid, KeyOf, Settled;
    TerminalMembers(s.observations);
    ResolvedSettles(s.requests, FlowClosed);
  }

  /** Only what is still announced as pending is left out. */
  lemma {:induction false} TerminalConcat(a: seq<Transaction>, b: seq<Transaction>)
    ensures Terminal(a + b) == Terminal(a) + Terminal(b)
  {
    if b == [] {
      assert a + b == a && Terminal(a) + [] == Terminal(a);
    } else {
      assert (a + b)[..|a + b| - 1] == a + b[..|b| - 1];
      TerminalConcat(a, b[..|b| - 1]);
      assert Terminal(a) + (Terminal(b[..|b| - 1]) + Terminal([b[|b| - 1]]))
             == Terminal(a + b[..|b| - 1]) + Terminal([b[|b| - 1]]);
      TerminalOne(b[|b| - 1]);
    }
  }

  lemma {:induction false} TerminalOne(t: Transaction)
    ensures Terminal([t]) == if t.status != Pending then [t] else []
  {
    assert [t][..0] == [];
  }

  lemma {:induction false} AllTerminal(ts: seq<Transaction>)
    requires forall t :: t in ts ==> t.status != Pending
    ensures Terminal(ts) == ts
  {
    if ts != [] {
      AllTerminal(ts[..|ts| - 1]);
      assert ts == ts[..|ts| - 1] + [ts[|ts| - 1]];
    }
  }

  /** The messages of one packet in turn: the state they leave, and every final observation they make. */
  ghost function Run(current: Option<State>, messages: seq<(Direction, Option<D.Message>)>, identity: nat,
          at: int): (r: (Option<State>, seq<Transaction>))
    requires (current.Some? ==> Sound(current.value)) && forall i :: 0 <= i < |messages| ==> Parsed(messages[i].1)
    ensures r.0.Some? ==> Sound(r.0.value)
  {
    if messages == [] then (current, [])
    else
      var before, last := Run(current, messages[..|messages| - 1], identity, at), messages[|messages| - 1];
      UpdateKeepsSound(before.0, last.1, identity, last.0, at);
      SoundTable(before.0);
      var next := UpdateSpec(before.0, last.1, identity, last.0, at);
      if next.Err? then before else (next.value, before.1 + Terminal(ObservationsOf(next.value)))
  }

  lemma {:induction false} SoundTable(current: Option<State>)
    requires current.Some? ==> Sound(current.value)
    ensures AllOutstanding(RequestsOf(current))
  { }

  /** Whether some outstanding request has this key. */
  ghost predicate Holds(pending: seq<Transaction>, key: Key)
    requires AllOutstanding(pending)
  {
    exists i :: 0 <= i < |pending| && KeyOf(pending[i]) == key
  }

  /**
   * A response answers an outstanding request: same identifier, other direction, not
   * repeated, same opcode, same questions.
   */
  ghost predicate AnswersOne(pending: seq<Transaction>, m: D.Message, direction: Direction)
    requires AllOutstanding(pending) && Valid(m)
  {
    exists i :: 0 <= i < |pending| && Answered(pending[i], m, direction)
  }

  ghost predicate Answered(t: Transaction, m: D.Message, direction: Direction)
    requires Outstanding(t) && Valid(m)
  {
    && KeyOf(t) == (Opposite(direction), m.header.value.transactionId) && t.status == Pending
    && m.header.value.Opcode() == t.message.header.value.Opcode() && SameQuestions(m, t.message)
  }

  ghost predicate Repeated(pending: seq<Transaction>, key: Key)
    requires AllOutstanding(pending)
  {
    exists i :: 0 <= i < |pending| && KeyOf(pending[i]) == key && pending[i].status == Ambiguous
  }

  lemma {:induction false} FindIsUnique(pending: seq<Transaction>, key: Key, i: nat)
    requires Table(pending) && i < |pending| && KeyOf(pending[i]) == key
    ensures Find(pending, key) == Some(i)
  {
    hide Find, KeyOf;
    var found := Find(pending, key);
    assert found.Some? && KeyOf(pending[found.value]) == KeyOf(pending[i]);
  }

  /** What a message is observed as, in terms of the table alone. */
  lemma {:induction false} VerdictMeans(pending: seq<Transaction>, unavailable: Option<Reason>, m: D.Message,
          direction: Direction, at: int)
    requires Valid(m) && Table(pending)
    ensures var e := Apply(pending, unavailable, m, direction, at, Judge(pending, unavailable, m, direction));
            var status, response := e.observations[|e.observations| - 1].status, m.header.value.IsResponse();
            var own := (direction, m.header.value.transactionId);
            var asked := (Opposite(direction), m.header.value.transactionId);
            && (status == Matched <==> response && unavailable.None? && AnswersOne(pending, m, direction))
            && (status == Pending <==> !response && unavailable.None? && !Holds(pending, own)
                                       && |pending| < MAX_PENDING)
            && (status == Ambiguous <==> unavailable.None?
                                         && if response then Repeated(pending, asked) else Holds(pending, own))
            && (status == Unresolved <==>
                  !response && (unavailable.Some? || (!Holds(pending, own) && |pending| == MAX_PENDING)))
            && (status == Matched || status == Ambiguous || status == Pending || status == Unresolved || response)
  {
    hide Find, SameQuestions, KeyOf, D.Header.IsResponse, D.Header.Opcode;
    var own := (direction, m.header.value.transactionId);
    var asked := (Opposite(direction), m.header.value.transactionId);
    forall i: nat | i < |pending| ensures KeyOf(pending[i]) == own ==> Find(pending, own) == Some(i) {
      if KeyOf(pending[i]) == own { FindIsUnique(pending, own, i); }
    }
    forall i: nat | i < |pending| ensures KeyOf(pending[i]) == asked ==> Find(pending, asked) == Some(i) {
      if KeyOf(pending[i]) == asked { FindIsUnique(pending, asked, i); }
    }
  }

  // ---------------------------------------------------------------- which request a message concerns

  /** The entries with other keys, in order. */
  ghost function Others(pending: seq<Transaction>, key: Key): seq<Transaction>
    requires AllOutstanding(pending)
  {
    if pending == [] then []
    else Others(pending[..|pending| - 1], key)
         + if KeyOf(pending[|pending| - 1]) == key then [] else [pending[|pending| - 1]]
  }

  lemma {:induction false} OthersIfAbsent(pending: seq<Transaction>, key: Key)
    requires AllOutstanding(pending) && forall i :: 0 <= i < |pending| ==> KeyOf(pending[i]) != key
    ensures Others(pending, key) == pending
  {
    hide KeyOf, Outstanding;
    if pending != [] {
      OthersIfAbsent(pending[..|pending| - 1], key);
      assert pending == pending[..|pending| - 1] + [pending[|pending| - 1]];
    }
  }

  lemma {:induction false} OthersConcat(a: seq<Transaction>, b: seq<Transaction>, key: Key)
    requires AllOutstanding(a) && AllOutstanding(b)
    ensures AllOutstanding(a + b) && Others(a + b, key) == Others(a, key) + Others(b, key)
    decreases |b|
  {
    hide KeyOf, Outstanding;
    if b == [] {
      assert a + b == a && Others(a, key) + [] == Others(a, key);
    } else {
      var less, last := b[..|b| - 1], b[|b| - 1];
      assert (a + b)[..|a + b| - 1] == a + less && (a + b)[|a + b| - 1] == last;
      OthersConcat(a, less, key);
      assert Others(a, key) + (Others(less, key) + [last]) == Others(a + less, key) + [last];
    }
  }

  lemma {:induction false} KeysBeside(pending: seq<Transaction>, i: nat)
    requires Table(pending) && i < |pending|
    ensures var key, a, b := KeyOf(pending[i]), pending[..i], pending[i + 1..];
            && AllOutstanding(a) && AllOutstanding(b) && AllOutstanding([pending[i]])
            && (forall j :: 0 <= j < |a| ==> KeyOf(a[j]) != key) && (forall j :: 0 <= j < |b| ==> KeyOf(b[j]) != key)
  {
    hide KeyOf;
  }

  lemma {:induction false} OthersOfOne(t: Transaction)
    requires Outstanding(t)
    ensures Others([t], KeyOf(t)) == []
  {
    assert [t][..0] == [];
  }

  /** Taking an entry out of the table leaves all others, in order, and none with its key. */
  lemma {:induction false} WithoutIsOthers(pending: seq<Transaction>, i: nat)
    requires Table(pending) && i < |pending|
    ensures Without(pending, i) == Others(pending, KeyOf(pending[i]))
  {
    KeysBeside(pending, i);
    OthersOfOne(pending[i]);
    var key, a, b := KeyOf(pending[i]), pending[..i], pending[i + 1..];
    hide KeyOf, Outstanding, Others;
    OthersIfAbsent(a, key);
    OthersIfAbsent(b, key);
    assert pending == (a + [pending[i]]) + b;
    OthersConcat(a, [pending[i]], key);
    OthersConcat(a + [pending[i]], b, key);
    assert a + [] == a;
  }

  lemma {:induction false} KeyIsGone(pending: seq<Transaction>, i: nat)
    requires Table(pending) && i < |pending|
    ensures forall t :: t in Without(pending, i) ==> Outstanding(t) && KeyOf(t) != KeyOf(pending[i])
  {
    KeysBeside(pending, i);
    hide KeyOf, Outstanding;
  }

  /**
   * What one message does, in terms of the table's keys alone: which request the
   * observation names and since when, and what becomes of every entry.
   */
  ghost predicate EffectMeans(pending: seq<Transaction>, unavailable: Option<Reason>, m: D.Message,
          direction: Direction, at: int, e: Effect)
    requires Table(pending) && Valid(m)
  {
    var id := m.header.value.transactionId;
    var own, asked := (direction, id), (Opposite(direction), id);
    && e.observations != []
    && var last := e.observations[|e.observations| - 1];
       && last.direction == direction && last.message == m && last.capturedAt == at && last.reason == e.unavailable
       && (e.unavailable == unavailable
           || (unavailable.None? && e.unavailable == Some(LimitExceeded) && e.pending == []))
       && (e.unavailable == unavailable ==> |e.observations| == 1)
       && (last.status == Matched ==>
             && (forall t :: t in pending && KeyOf(t) == asked ==>
                   Replies(m, t.message) && last.request == Some(t.message)
                   && last.requestCapturedAt == Some(t.capturedAt))
             && (exists t :: t in pending && KeyOf(t) == asked)
             && e.pending == Others(pending, asked)
             && (forall t :: t in e.pending ==> Outstanding(t) && KeyOf(t) != asked))
       && (last.status == Ambiguous && !m.header.value.IsResponse() ==>
             && (forall t :: t in pending && KeyOf(t) == own ==>
                   last.request == Some(t.message) && last.requestCapturedAt == Some(t.capturedAt))
             && (exists t :: t in pending && KeyOf(t) == own)
             && |e.pending| == |pending|
             && forall i :: 0 <= i < |pending| ==>
                  e.pending[i] == if KeyOf(pending[i]) == own then pending[i].(status := Ambiguous) else pending[i])
       && (m.header.value.IsResponse() && last.status != Matched ==>
             e.pending == pending && last.request.None? && last.requestCapturedAt.None?)
       && (last.status == Pending || last.status == Unresolved ==>
             last.request == Some(m) && last.requestCapturedAt == Some(at))
       && (last.status == Pending ==> e.pending == pending + [last])
       && (e.unavailable != unavailable ==> LimitObserved(pending, e))
       && (last.status == Unresolved && e.unavailable == unavailable ==> e.pending == pending)
  }

  /** Every outstanding request, and then the message itself, ends for lack of room. */
  ghost predicate LimitObserved(pending: seq<Transaction>, e: Effect)
  {
    && |e.observations| == |pending| + 1
    && forall i :: 0 <= i < |pending| ==>
         e.observations[i] == pending[i].(status := Unresolved, reason := Some(LimitExceeded))
  }

  lemma {:induction false} EffectNamesTheRequest(pending: seq<Transaction>, unavailable: Option<Reason>, m: D.Message,
          direction: Direction, at: int)
    requires Valid(m) && Table(pending)
    ensures EffectMeans(pending, unavailable, m, direction, at,
                        Apply(pending, unavailable, m, direction, at, Judge(pending, unavailable, m, direction)))
  {
    var v := Judge(pending, unavailable, m, direction);
    if v.Answers? {
      AnswersNames(pending, unavailable, m, direction, at, v.i);
    } else if v.Repeats? {
      RepeatNames(pending, unavailable, m, direction, at, v.i);
    } else {
      hide Valid, SameQuestions, KeyOf, Find, Others, D.Header.IsResponse, D.Header.Opcode, Without;
    }
  }

  lemma {:induction false} AnswersNames(pending: seq<Transaction>, unavailable: Option<Reason>, m: D.Message,
          direction: Direction, at: int, i: nat)
    requires Valid(m) && Table(pending) && Judge(pending, unavailable, m, direction) == Answers(i)
    ensures EffectMeans(pending, unavailable, m, direction, at,
                        Apply(pending, unavailable, m, direction, at, Answers(i)))
  {
    AnswersReplies(pending, m, direction, i);
    KeyIsOwn(pending, i, (Opposite(direction), m.header.value.transactionId));
    WithoutIsOthers(pending, i);
    RequestIsOwnMessage(pending, i);
    KeyIsGone(pending, i);
    RequestSince(pending, i);
    hide Valid, Replies, KeyOf, Find, Others, Without, Judge;
  }

  lemma {:induction false} RepeatNames(pending: seq<Transaction>, unavailable: Option<Reason>, m: D.Message,
          direction: Direction, at: int, i: nat)
    requires Valid(m) && Table(pending) && Judge(pending, unavailable, m, direction) == Repeats(i)
    ensures EffectMeans(pending, unavailable, m, direction, at,
                        Apply(pending, unavailable, m, direction, at, Repeats(i)))
  {
    KeyIsOwn(pending, i, (direction, m.header.value.transactionId));
    RequestIsOwnMessage(pending, i);
    RequestSince(pending, i);
    hide Valid, Replies, KeyOf, Find, Others, Without;
  }

  lemma {:induction false} RequestSince(pending: seq<Transaction>, i: nat)
    requires AllOutstanding(pending) && i < |pending|
    ensures pending[i].requestCapturedAt == Some(pending[i].capturedAt) && pending[i].reason.None?
  { }

  /** The same of a whole update. */
  lemma {:induction false} UpdateNamesTheRequest(current: Option<State>, message: Option<D.Message>, identity: nat,
          direction: Direction, at: int)
    requires Parsed(message) && (current.Some? ==> Sound(current.value)) && Counts(message)
    requires UpdateSpec(current, message, identity, direction, at).Ok?
    ensures var r := UpdateSpec(current, message, identity, direction, at).value;
            && r.Some? && r.value.identity == identity && r.value.lastCapturedAt == at && !r.value.finalized
            && Table(RequestsOf(current))
            && EffectMeans(RequestsOf(current), UnavailableOf(current), message.value, direction, at,
                           Effect(r.value.requests, r.value.observations, r.value.unavailable))
  {
    hide Valid, Apply, Judge, EffectMeans, Outstanding, KeyOf;
    EffectNamesTheRequest(RequestsOf(current), UnavailableOf(current), message.value, direction, at);
  }

  /** Keys tell entries apart. */
  lemma {:induction false} KeyIsOwn(pending: seq<Transaction>, i: nat, key: Key)
    requires Table(pending) && i < |pending| && KeyOf(pending[i]) == key
    ensures forall t :: t in pending && KeyOf(t) == key ==> t == pending[i]
    ensures pending[i] in pending
    ensures forall j :: 0 <= j < |pending| ==> (KeyOf(pending[j]) == key <==> j == i)
  {
    hide KeyOf;
    assert forall j :: 0 <= j < i ==> KeyOf(pending[j]) != KeyOf(pending[i]);
    assert forall j :: i < j < |pending| ==> KeyOf(pending[i]) != KeyOf(pending[j]);
  }

  // ---------------------------------------------------------------- names without case

  /** The same byte, or one ASCII letter in upper and in lower case. */
  predicate SameLetter(a: Byte, b: Byte)
  {
    a == b || (65 <= Min(a, b) <= 90 && Max(a, b) == Min(a, b) + 32)
  }

  predicate SameLabel(a: Bytes, b: Bytes) { |a| == |b| && forall k :: 0 <= k < |a| ==> SameLetter(a[k], b[k]) }

  predicate SameName(a: seq<Bytes>, b: seq<Bytes>) { |a| == |b| && forall j :: 0 <= j < |a| ==> SameLabel(a[j], b[j]) }

  lemma {:induction false} LowerAgrees(a: Bytes, b: Bytes)
    ensures LowerAll(a) == LowerAll(b) <==> SameLabel(a, b)
  {
    if LowerAll(a) == LowerAll(b) {
      assert |a| == |LowerAll(a)| == |b|;
      forall k | 0 <= k < |a| ensures SameLetter(a[k], b[k]) { assert LowerAll(a)[k] == LowerAll(b)[k]; }
    }
  }

  /** Questions agree if and only if they agree in type, class and name, but for the case of ASCII letters. */
  lemma {:induction false} QuestionsAgreeExactly(a: D.Entry, b: D.Entry)
    ensures Asked(a) == Asked(b)
       <==> a.entryType == b.entryType && a.entryClass == b.entryClass && SameName(a.name.labels, b.name.labels)
  {
    hide LowerAll, SameLabel;
    var x, y := a.name.labels, b.name.labels;
    if Asked(a) == Asked(b) {
      assert |x| == |Asked(a).0| == |y|;
      forall j | 0 <= j < |x| ensures SameLabel(x[j], y[j]) {
        assert Asked(a).0[j] == Asked(b).0[j];
        LowerAgrees(x[j], y[j]);
      }
    }
    if SameName(x, y) {
      forall j | 0 <= j < |x| ensures LowerAll(x[j]) == LowerAll(y[j]) { LowerAgrees(x[j], y[j]); }
      assert Asked(a).0 == Asked(b).0;
    }
  }
}
