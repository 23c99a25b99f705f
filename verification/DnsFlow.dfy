/**
 * DNS over the life of one flow: the coordinator's message loop, which feeds
 * every final observation to four aggregates, and the closing of the flow.
 */
module DnsFlow {
  import opened Common
  import opened Tally
  import D = Dns
  import C = DnsCorrelation
  import S = DnsStatistics
  import Q = DnsNames
  import R = DnsRecords

  datatype Flow = Flow(correlation: Option<C.State>, transactions: S.Transactions, names: Q.Names, records: R.Records,
          flags: S.Flags)

  function NewFlow(): Flow { Flow(None, S.NoTransactions(), Q.NoNames(), R.NoRecords(), S.NO_FLAGS) }

  ghost predicate AllValid(ms: seq<D.Message>) { forall m :: m in ms ==> C.Valid(m) }

  /** The four aggregates are those of exactly these messages. */
  ghost predicate Aggregates(f: Flow, counted: seq<D.Message>)
  {
    && AllValid(counted)
    && S.Summarises(f.transactions, counted)
    && S.FlagsSummarise(f.flags, counted)
    && R.Summarises(f.records, counted)
    && NamesOf(f.names, counted)
  }

  ghost predicate NamesOf(n: Q.Names, counted: seq<D.Message>)
  {
    (forall m :: m in counted ==> |m.sections| > 0) && n == Q.AddNames(Q.NoNames(), Q.AllAsked(counted))
  }

  /**
   * All four aggregates are those of the messages these final observations account for,
   * and the verdicts are theirs.
   */
  ghost predicate Traced(f: Flow, trace: seq<C.Transaction>)
  {
    && S.AllFinal(trace) && f.transactions == S.Summary(trace)
    && Aggregates(f, C.Counted(trace))
  }

  lemma {:induction false} TracedAggregates(f: Flow, trace: seq<C.Transaction>)
    requires Traced(f, trace)
    ensures Aggregates(f, C.Counted(trace))
  { }

  lemma {:induction false} NewIsTraced()
    ensures Traced(NewFlow(), []) && C.Counted([]) == []
  {
    hide Aggregates;
    NewAggregates();
  }

  lemma {:induction false} NewAggregates()
    ensures Aggregates(NewFlow(), [])
  {
    hide S.Summarises, R.Summarises, S.FlagsSummarise, NamesOf;
    S.NothingSummarised();
    S.NoFlagsSummarise();
    R.NothingSummarised();
    NoNamesAsked();
  }

  lemma {:induction false} NoNamesAsked()
    ensures NamesOf(Q.NoNames(), [])
  {
    hide Q.NoNames, Q.AddNames, Q.AllAsked, Q.Names.Valid;
    Q.NoNamesIsValid();
    Q.ValidShape(Q.NoNames());
    Q.AddNothing(Q.NoNames());
    Q.NothingAsked();
  }

  // ---------------------------------------------------------------- the coordinator

  lemma {:induction false} NamesExtend(n: Q.Names, counted: seq<D.Message>, added: seq<D.Message>)
    requires NamesOf(n, counted) && AllValid(added)
    ensures (forall m :: m in added ==> |m.sections| > 0) && (forall m :: m in counted + added ==> |m.sections| > 0)
    ensures Q.AddNames(n, Q.AllAsked(added)) == Q.AddNames(Q.NoNames(), Q.AllAsked(counted + added))
  {
    hide Q.AddNames, Q.AllAsked, Q.Names.Valid;
    assert forall m :: m in added ==> C.Valid(m) && |m.sections| == 4;
    Q.NoNamesIsValid();
    Q.ValidShape(Q.NoNames());
    Q.AllAskedConcat(counted, added);
    Q.AddNamesConcat(Q.NoNames(), Q.AllAsked(counted), Q.AllAsked(added));
  }

  lemma {:induction false} AggregatesAreValid(f: Flow, counted: seq<D.Message>)
    requires Aggregates(f, counted)
    ensures f.transactions.Valid() && f.names.Valid() && f.records.Valid() && f.flags.Valid()
  {
    hide S.Summarises, R.Summarises, Q.AddNames, Q.AllAsked, Q.Names.Valid, S.Transactions.Valid, R.Records.Valid;
    S.SummaryIsValid(f.flags, counted);
    Q.NoNamesIsValid();
    Q.AskedFit(counted);
    Q.AddNamesKeepsValid(Q.NoNames(), Q.AllAsked(counted));
    SummariesAreValid(f, counted);
  }

  lemma {:induction false} SummariesAreValid(f: Flow, counted: seq<D.Message>)
    requires S.Summarises(f.transactions, counted) && R.Summarises(f.records, counted)
    ensures f.transactions.Valid() && f.records.Valid()
  { }

  /** One final observation goes to each aggregate. */
  method CountObservation(f: Flow, t: C.Transaction, ghost counted: seq<D.Message>) returns (g: Flow)
    requires Aggregates(f, counted) && C.Settled(t)
    ensures Aggregates(g, counted + C.Contribution(t)) && g.correlation == f.correlation
    ensures f.transactions.Shaped() && g.transactions == S.AddTransaction(f.transactions, t)
  {
    hide C.Settled, C.Valid, C.Contribution, S.Summarises, R.Summarises, S.FlagsSummarise, NamesOf, S.AddTransaction;
    AggregatesAreValid(f, counted);
    SettledIsFinal(t);
    var transactions := S.UpdateTransactions(Some(f.transactions), t);
    S.AddSummarises(f.transactions, counted, t);
    var names := Q.Update(Some(f.names), t);
    S.SettledHeaders(t);
    NamesExtend(f.names, counted, C.Contribution(t));
    NamesOfAdded(names.value, counted + C.Contribution(t));
    var records := R.Update(Some(f.records), t);
    R.MessagesSummarise(f.records, counted, C.Contribution(t));
    var flags := S.UpdateFlags(Some(f.flags), t);
    S.FlagsAddedSummarise(f.flags, flags.value, counted, C.Contribution(t));
    g := Flow(f.correlation, transactions.value, names.value, records.value, flags.value);
  }

  lemma {:induction false} TraceExtends(f: Flow, trace: seq<C.Transaction>, t: C.Transaction, g: Flow)
    requires Traced(f, trace) && C.Settled(t) && f.transactions.Shaped()
    requires g.transactions == S.AddTransaction(f.transactions, t)
    requires Aggregates(g, C.Counted(trace) + C.Contribution(t))
    ensures Traced(g, trace + [t])
  {
    hide Aggregates, C.Settled, S.AddTransaction, C.Contribution, C.Counted;
    C.CountedConcat(trace, [t]);
    C.CountedOne(t);
    assert (trace + [t])[..|trace|] == trace;
  }

  lemma {:induction false} NamesOfAdded(n: Q.Names, counted: seq<D.Message>)
    requires (forall m :: m in counted ==> |m.sections| > 0) && n == Q.AddNames(Q.NoNames(), Q.AllAsked(counted))
    ensures NamesOf(n, counted)
  { }

  lemma {:induction false} SettledIsFinal(t: C.Transaction)
    requires C.Settled(t)
    ensures t.status != C.Pending
  { }

  /** The inner loop: observations in order, announcements of pending requests skipped. */
  method CountObservations(f: Flow, ts: seq<C.Transaction>, ghost trace: seq<C.Transaction>) returns (g: Flow)
    requires Traced(f, trace) && C.AllSettled(ts)
    ensures Traced(g, trace + C.Terminal(ts)) && g.correlation == f.correlation
  {
    hide C.Settled, Aggregates, C.Contribution, Traced;
    g := f;
    assert trace + C.Terminal(ts[..0]) == trace;
    for i := 0 to |ts|
      invariant Traced(g, trace + C.Terminal(ts[..i])) && g.correlation == f.correlation
    {
      ghost var before := trace + C.Terminal(ts[..i]);
      assert ts[..i + 1][..i] == ts[..i];
      if ts[i].status != C.Pending {
        assert before + [ts[i]] == trace + C.Terminal(ts[..i + 1]);
        g := CountTraced(g, ts[i], before);
      } else {
        assert trace + C.Terminal(ts[..i + 1]) == before;
      }
    }
    assert ts[..|ts|] == ts;
  }

  method CountTraced(f: Flow, t: C.Transaction, ghost trace: seq<C.Transaction>) returns (g: Flow)
    requires Traced(f, trace) && C.Settled(t)
    ensures Traced(g, trace + [t]) && g.correlation == f.correlation
  {
    hide Aggregates, C.Settled, S.AddTransaction, C.Contribution, C.Counted;
    g := CountObservation(f, t, C.Counted(trace));
    TraceExtends(f, trace, t, g);
  }

  /** The complete messages among those of a packet. */
  ghost function Completes(messages: seq<(Direction, Option<D.Message>)>): seq<D.Message>
  {
    if messages == [] then []
    else
      var last := messages[|messages| - 1].1;
      Completes(messages[..|messages| - 1]) + if C.Counts(last) then [last.value] else []
  }

  /** Every message of `delivered` is accounted for by a final observation or waits for its response. */
  ghost predicate Accounted(f: Flow, trace: seq<C.Transaction>, delivered: seq<D.Message>)
  {
    && (f.correlation.Some? ==> C.Sound(f.correlation.value))
    && Traced(f, trace)
    && multiset(C.Counted(trace)) + multiset(C.Waiting(C.RequestsOf(f.correlation))) == multiset(delivered)
  }

  /** A flow that is not closed yet: its correlation still takes messages. */
  predicate Active(f: Flow) { f.correlation.Some? ==> !f.correlation.value.finalized }

  /** One message of a packet: correlate it, then count what became final. */
  method Deliver(f: Flow, message: Option<D.Message>, direction: Direction, identity: nat, at: int,
          ghost trace: seq<C.Transaction>, ghost delivered: seq<D.Message>)
    returns (r: Result<Flow, C.CorrelationError>, ghost trace': seq<C.Transaction>)
    requires C.Parsed(message) && Accounted(f, trace, delivered)
    ensures C.AllOutstanding(C.RequestsOf(f.correlation))
    ensures r.Err? <==> C.Refuses(f.correlation, identity, at).Some?
    ensures r.Err? ==> r.error == C.Refuses(f.correlation, identity, at).value
    ensures r.Ok? ==>
              && C.UpdateSpec(f.correlation, message, identity, direction, at) == Ok(r.value.correlation)
              && trace' == trace + C.Terminal(C.ObservationsOf(r.value.correlation))
              && Accounted(r.value, trace', delivered + if C.Counts(message) then [message.value] else [])
              && (r.value.correlation.Some? ==> C.Refuses(r.value.correlation, identity, at).None?)
              && Active(r.value)
  {
    hide C.Parsed, C.Sound, C.AllOutstanding, Traced, C.AllSettled, C.Counted, C.Waiting, C.Settled;
    C.SoundTable(f.correlation);
    trace' := trace;
    var updated := C.Update(f.correlation, message, identity, direction, at);
    if updated.Err? { return Err(updated.error), trace; }
    C.UpdateConserves(f.correlation, message, identity, direction, at);
    C.UpdateKeepsSound(f.correlation, message, identity, direction, at);
    C.UpdateSettles(f.correlation, message, identity, direction, at);
    var dns := updated.value;
    if dns.None? {
      assert delivered + [] == delivered && trace + [] == trace;
      return Ok(f), trace;
    }
    var observations := dns.value.observations;
    var g := CountObservations(f, observations, trace);
    trace' := trace + C.Terminal(observations);
    r := Ok(g.(correlation := dns));
    TraceIgnoresCorrelation(g, dns, trace');
    C.CountedConcat(trace, C.Terminal(observations));
    C.TerminalCounts(observations);
    Rebalance(multiset(C.Counted(trace)), multiset(C.Counted(observations)), multiset(C.Waiting(dns.value.requests)),
              multiset(C.Waiting(C.RequestsOf(f.correlation))),
              if C.Counts(message) then [message.value] else [], delivered);
  }

  lemma {:induction false} TraceIgnoresCorrelation(f: Flow, dns: Option<C.State>, trace: seq<C.Transaction>)
    requires Traced(f, trace)
    ensures Traced(f.(correlation := dns), trace)
  {
    hide S.Summarises, S.FlagsSummarise, R.Summarises, NamesOf;
  }

  lemma {:induction false} Rebalance(counted: multiset<D.Message>, final: multiset<D.Message>,
          waiting': multiset<D.Message>, waiting: multiset<D.Message>, added: seq<D.Message>, delivered: seq<D.Message>)
    requires final + waiting' == waiting + multiset(added) && counted + waiting == multiset(delivered)
    ensures counted + final + waiting' == multiset(delivered + added)
  {
    assert counted + final + waiting' == counted + (final + waiting');
    assert counted + waiting + multiset(added) == counted + (waiting + multiset(added));
  }

  /**
   * The coordinator of one flow. `delivered` are the complete messages of the
   * accepted packets, `trace` all final observations so far.
   */
  class Coordinator {
    var state: Option<Flow>
    ghost var delivered: seq<D.Message>
    ghost var trace: seq<C.Transaction>

    ghost predicate Valid()
      reads this
    {
      Accounted(Current(), trace, delivered) && Active(Current())
    }

    function Current(): Flow
      reads this
    {
      if state.Some? then state.value else NewFlow()
    }

    constructor ()
      ensures Valid() && state == None && delivered == [] && trace == []
    {
      state, delivered, trace := None, [], [];
      new;
      hide Traced, C.Waiting;
      NewIsTraced();
      assert C.Waiting([]) == [];
    }

    /** The DNS part of `record`: a packet is taken whole, or refused leaving everything as it was. */
    method Record(messages: seq<(Direction, Option<D.Message>)>, identity: nat, at: int)
      returns (error: Option<C.CorrelationError>)
      requires Valid() && forall i :: 0 <= i < |messages| ==> C.Parsed(messages[i].1)
      modifies this
      ensures Valid()
      ensures error == if messages == [] then None else C.Refuses(old(Current()).correlation, identity, at)
      ensures error.Some? ==> state == old(state) && delivered == old(delivered) && trace == old(trace)
      ensures error.None? ==> state.Some? && delivered == old(delivered) + Completes(messages)
      ensures error.None? ==>
                && (old(Current()).correlation.Some? ==> C.Sound(old(Current()).correlation.value))
                && Current().correlation == C.Run(old(Current()).correlation, messages, identity, at).0
                && trace == old(trace) + C.Run(old(Current()).correlation, messages, identity, at).1
    {
      hide C.Parsed, Accounted, C.Refuses, Active, C.Sound, C.Run, C.Terminal, C.UpdateSpec, ResultOf, C.AllOutstanding;
      SoundWhenAccounted(Current(), trace, delivered);
      var flow := Current();
      ghost var current := flow.correlation;
      ghost var t, d := trace, delivered;
      assert d + Completes(messages[..0]) == d && messages[..0] == [];
      NothingRun(current, identity, at, trace);
      for i := 0 to |messages|
        invariant Accounted(flow, t, d + Completes(messages[..i])) && Active(flow)
        invariant state == old(state) && delivered == old(delivered) && trace == old(trace)
        invariant (flow.correlation, t) == ResultOf(trace, C.Run(current, messages[..i], identity, at))
        invariant i == 0 ==> flow == old(Current())
        invariant i > 0 ==> C.Refuses(flow.correlation, identity, at).None?
                            && C.Refuses(old(Current()).correlation, identity, at).None?
      {
        var message := messages[i].1;
        assert messages[..i + 1][..i] == messages[..i];
        assert d + Completes(messages[..i + 1])
               == d + Completes(messages[..i]) + if C.Counts(message) then [message.value] else [];
        var r;
        ghost var t';
        r, t' := Deliver(flow, message, messages[i].0, identity, at, t, d + Completes(messages[..i]));
        if r.Err? { return Some(r.error); }
        RunMore(current, messages, i, identity, at, trace, flow.correlation, t, r.value.correlation);
        flow, t := r.value, t';
        NoStateNoRefusal(flow.correlation, identity, at);
      }
      assert messages[..|messages|] == messages;
      ResultIs(trace, C.Run(current, messages, identity, at));
      state, delivered, trace := Some(flow), d + Completes(messages), t;
      error := None;
    }
  }

  ghost function ResultOf(trace: seq<C.Transaction>, run: (Option<C.State>, seq<C.Transaction>))
    : (Option<C.State>, seq<C.Transaction>)
  {
    (run.0, trace + run.1)
  }

  lemma {:induction false} ResultIs(trace: seq<C.Transaction>, run: (Option<C.State>, seq<C.Transaction>))
    ensures ResultOf(trace, run) == (run.0, trace + run.1)
  { }

  lemma {:induction false} NothingRun(current: Option<C.State>, identity: nat, at: int, trace: seq<C.Transaction>)
    requires current.Some? ==> C.Sound(current.value)
    ensures ResultOf(trace, C.Run(current, [], identity, at)) == (current, trace)
  {
    hide C.Sound;
    assert trace + [] == trace;
  }

  lemma {:induction false} SoundWhenAccounted(f: Flow, trace: seq<C.Transaction>, delivered: seq<D.Message>)
    requires Accounted(f, trace, delivered)
    ensures f.correlation.Some? ==> C.Sound(f.correlation.value)
  { }

  lemma {:induction false} RunMore(current: Option<C.State>, messages: seq<(Direction, Option<D.Message>)>, i: nat,
          identity: nat, at: int, trace: seq<C.Transaction>, before: Option<C.State>, t: seq<C.Transaction>,
          next: Option<C.State>)
    requires i < |messages| && forall k :: 0 <= k < |messages| ==> C.Parsed(messages[k].1)
    requires current.Some? ==> C.Sound(current.value)
    requires (before, t) == ResultOf(trace, C.Run(current, messages[..i], identity, at))
    requires C.AllOutstanding(C.RequestsOf(before))
    requires C.UpdateSpec(before, messages[i].1, identity, messages[i].0, at) == Ok(next)
    ensures (next, t + C.Terminal(C.ObservationsOf(next)))
            == ResultOf(trace, C.Run(current, messages[..i + 1], identity, at))
  {
    hide C.Parsed, C.Sound, C.UpdateSpec, C.Terminal, C.AllOutstanding;
    assert messages[..i + 1][..i] == messages[..i];
    var earlier, more := C.Run(current, messages[..i], identity, at).1, C.Terminal(C.ObservationsOf(next));
    assert trace + earlier + more == trace + (earlier + more);
  }

  lemma {:induction false} NoStateNoRefusal(current: Option<C.State>, identity: nat, at: int)
    ensures current.None? ==> C.Refuses(current, identity, at).None?
  { }

  // ---------------------------------------------------------------- closing

  /** How many observations of the last update are final. */
  method RetainedCount(ts: seq<C.Transaction>) returns (n: nat)
    ensures n == |C.Terminal(ts)|
  {
    n := 0;
    for i := 0 to |ts|
      invariant n == |C.Terminal(ts[..i])|
    {
      assert ts[..i + 1][..i] == ts[..i];
      if ts[i].status != C.Pending { n := n + 1; }
    }
    assert ts[..|ts|] == ts;
  }

  /** What closing adds to the final observations: every request still waiting, unresolved. */
  ghost function Closing(current: Option<C.State>): seq<C.Transaction>
  {
    C.ResolveAll(C.RequestsOf(current), C.FlowClosed)
  }

  /**
   * `FlowObservationWindow.__post_init__` of a closed window: requests still
   * waiting are counted, each once; a flow closed before is left alone.
   */
  method Close(f: Flow, ghost trace: seq<C.Transaction>, ghost delivered: seq<D.Message>) returns (g: Flow)
    requires Accounted(f, trace, delivered)
    ensures Traced(g, trace + Closing(f.correlation))
    ensures multiset(C.Counted(trace + Closing(f.correlation))) == multiset(delivered)
    ensures f.correlation.None? || f.correlation.value.finalized ==> g == f
    ensures f.correlation.Some? ==> g.correlation == Some(C.Finalize(f.correlation.value))
  {
    hide Traced, C.Sound, C.Terminal, C.Counted, C.AllSettled, C.Finalize, C.ResolveAll;
    C.SoundTable(f.correlation);
    C.CountedConcat(trace, Closing(f.correlation));
    C.ResolvedCounts(C.RequestsOf(f.correlation), C.FlowClosed);
    NothingClosing();
    assert trace + [] == trace;
    if f.correlation.None? { return f; }
    var dns := f.correlation.value;
    if dns.finalized {
      FinalizedIsSettled(dns);
      return f;
    }
    var finalized := C.Finalize(dns);
    var retained := RetainedCount(dns.observations);
    C.FinalizeConserves(dns);
    C.ResolvedSettles(dns.requests, C.FlowClosed);
    FinalizeLength(dns);
    ClosingIsTerminal(dns.requests);
    g := CountObservations(f, finalized.observations[retained..], trace);
    TraceIgnoresCorrelation(g, Some(finalized), trace + Closing(f.correlation));
    g := g.(correlation := Some(finalized));
  }

  lemma {:induction false} NothingClosing()
    ensures C.ResolveAll([], C.FlowClosed) == []
  { }

  lemma {:induction false} ClosingIsTerminal(requests: seq<C.Transaction>)
    ensures C.Terminal(C.ResolveAll(requests, C.FlowClosed)) == C.ResolveAll(requests, C.FlowClosed)
  {
    C.AllTerminal(C.ResolveAll(requests, C.FlowClosed));
  }

  lemma {:induction false} FinalizedIsSettled(s: C.State)
    requires C.Sound(s) && s.finalized
    ensures s.requests == [] && C.Finalize(s) == s
  { }

  lemma {:induction false} FinalizeLength(s: C.State)
    requires !s.finalized
    ensures |C.Terminal(s.observations)| <= |C.Finalize(s).observations|
  { }

  // ---------------------------------------------------------------- what the numbers of a flow say

  /** Aggregates kept apart agree, at every moment of every flow. */
  lemma {:induction false} AggregatesAgree(f: Flow, counted: seq<D.Message>)
    requires Aggregates(f, counted)
    ensures f.flags.messages == Sum(f.transactions.opcodes) == |counted|
    ensures f.flags.set_[0] == Sum(f.transactions.responseCodes)
    ensures f.names.names == f.transactions.declared[0]
    ensures forall k :: 0 <= k < 3 ==> f.records.counts[k] == f.transactions.declared[k + 1]
  {
    hide C.Valid, SumOver, R.Holds, R.Grid, S.Transactions.Valid;
    OpcodesTotal(f.transactions, counted);
    Q.NamesAreQuestions(counted);
    Q.NamesAreCounted(Q.AllAsked(counted));
    ResponsesAreFlagged(counted);
  }

  lemma {:induction false} OpcodesTotal(s: S.Transactions, counted: seq<D.Message>)
    requires S.Summarises(s, counted)
    ensures Sum(s.opcodes) == |counted|
  { }

  lemma {:induction false} ResponsesAreFlagged(ms: seq<D.Message>)
    ensures SumOver(ms, S.FlagIs(0)) == SumOver(ms, S.ResponseWeight())
  {
    if ms != [] {
      ResponsesAreFlagged(ms[..|ms| - 1]);
      assert S.MASKS[0] == 0x8000;
    }
  }

  /** While a flow is open, what is counted and what waits add up to what was delivered. */
  lemma {:induction false} OpenFlowAccounts(f: Flow, trace: seq<C.Transaction>, delivered: seq<D.Message>)
    requires Accounted(f, trace, delivered)
    ensures Sum(f.transactions.opcodes) + |C.RequestsOf(f.correlation)| == |delivered|
    ensures f.transactions.Total() == |trace|
  {
    hide S.FlagsSummarise, R.Summarises, NamesOf, C.Sound, S.Summary, C.Counted, S.AllFinal;
    OpcodesTotal(f.transactions, C.Counted(trace));
    VerdictsOfFlow(f, trace);
    assert |multiset(C.Counted(trace)) + multiset(C.Waiting(C.RequestsOf(f.correlation)))|
           == |C.Counted(trace)| + |C.RequestsOf(f.correlation)|;
  }

  /**
   * Every verdict count of a flow is that of its final observations, the latencies are
   * theirs, and each of these has one of the four verdicts.
   */
  lemma {:induction false} VerdictsOfFlow(f: Flow, trace: seq<C.Transaction>)
    requires Traced(f, trace)
    ensures S.Verdicts(f.transactions, trace) && f.transactions.Total() == |trace|
    ensures f.transactions.Total() + f.transactions.matched == |C.Counted(trace)|
  {
    hide S.Verdicts, S.Bins, S.Transactions.Valid, R.Summarises, NamesOf, C.Settled;
    S.SummaryCountsVerdicts(trace);
    S.VerdictsAreAll(trace);
    TotalsOf(f.transactions, trace);
  }

  lemma {:induction false} TotalsOf(s: S.Transactions, trace: seq<C.Transaction>)
    requires S.Verdicts(s, trace)
    requires |trace| == SumOver(trace, S.StatusIs(C.Matched)) + SumOver(trace, S.StatusIs(C.Unmatched))
                        + SumOver(trace, S.StatusIs(C.Ambiguous)) + SumOver(trace, S.StatusIs(C.Unresolved))
    ensures s.Total() == |trace|
  { }

  /** No aggregate shows the order in which messages became final. */
  lemma {:induction false} AggregatesPermuted(f: Flow, a: seq<D.Message>, b: seq<D.Message>)
    requires Aggregates(f, a) && multiset(a) == multiset(b)
    ensures Aggregates(f, b)
  {
    hide S.Summarises, S.FlagsSummarise, R.Summarises, C.Valid;
    SameMembers(a, b);
    S.SummarisesPermuted(f.transactions, a, b);
    S.FlagsPermuted(f.flags, a, b);
    R.SummarisesPermuted(f.records, a, b);
    Q.MessagesPermuted(a, b);
  }

  /** The header numbers of these messages. */
  ghost predicate HeaderNumbers(f: Flow, ms: seq<D.Message>)
  {
    && |f.transactions.opcodes| == |f.transactions.responseCodes| == S.BINS
    && |f.transactions.declared| == 4 && |f.flags.set_| == |S.MASKS|
    && Sum(f.transactions.opcodes) == f.flags.messages == |ms|
    && (forall k :: 0 <= k < S.BINS ==> f.transactions.opcodes[k] == SumOver(ms, S.OpcodeIs(k)))
    && (forall k :: 0 <= k < S.BINS ==> f.transactions.responseCodes[k] == SumOver(ms, S.ResponseCodeIs(k)))
    && (forall k :: 0 <= k < |S.MASKS| ==> f.flags.set_[k] == SumOver(ms, S.FlagIs(k)))
    && (forall k :: 0 <= k < 4 ==> f.transactions.declared[k] == SumOver(ms, S.DeclaredIn(k)))
  }

  /** Section counts, type and class bins, and total, least and greatest RDATA length of these messages. */
  ghost predicate RecordNumbers(r: R.Records, ms: seq<D.Message>)
  {
    && |r.counts| == 3 && R.Grid(r.tables.types) && R.Grid(r.tables.classes)
    && (forall k :: 0 <= k < 3 ==> r.counts[k] == SumOver(ms, S.DeclaredIn(k + 1)))
    && (forall k :: 0 <= k < 65536 ==> R.Bin(r.tables.types, k) == SumOver(ms, R.InRecords(R.EntryTypeIs(k))))
    && (forall k :: 0 <= k < 65536 ==> R.Bin(r.tables.classes, k) == SumOver(ms, R.InRecords(R.EntryClassIs(k))))
    && SpanOf(r.tables.rdata, Gather(ms, R.RecordsIn()), R.EntryLength())
  }

  /** Totals, byte classes, and extremes of lengths and label counts of the names these messages ask for. */
  ghost predicate NameNumbers(n: Q.Names, ms: seq<D.Message>)
  {
    && (forall m :: m in ms ==> |m.sections| > 0)
    && Q.Counted(n, Q.AllAsked(ms)) && Q.Extremes(n, Q.AllAsked(ms))
  }

  /** Every number of every aggregate is that of the messages accounted for. */
  lemma {:induction false} AggregatesAreNumbers(f: Flow, ms: seq<D.Message>)
    requires Aggregates(f, ms)
    ensures HeaderNumbers(f, ms) && RecordNumbers(f.records, ms) && NameNumbers(f.names, ms)
  {
    hide Aggregates, HeaderNumbers, RecordNumbers, NameNumbers;
    HeadersAreNumbers(f, ms);
    RecordsAreNumbers(f, ms);
    NamesAreNumbers(f, ms);
  }

  lemma {:induction false} HeadersAreNumbers(f: Flow, ms: seq<D.Message>)
    requires Aggregates(f, ms)
    ensures HeaderNumbers(f, ms)
  {
    hide SumOver, R.Summarises, NamesOf, C.Valid;
  }

  lemma {:induction false} RecordsAreNumbers(f: Flow, ms: seq<D.Message>)
    requires Aggregates(f, ms)
    ensures RecordNumbers(f.records, ms)
  {
    hide SumOver, S.Summarises, S.FlagsSummarise, NamesOf, C.Valid, R.Bin, R.Holds, R.Grid, SpanOf, Gather;
  }

  lemma {:induction false} NamesAreNumbers(f: Flow, ms: seq<D.Message>)
    requires Aggregates(f, ms)
    ensures NameNumbers(f.names, ms)
  {
    hide S.Summarises, S.FlagsSummarise, R.Summarises, C.Valid, Q.Counted, Q.Extremes, Q.AllAsked, Q.AddNames,
         Q.NoNames;
    Q.NamesAreCounted(Q.AllAsked(ms));
    Q.ExtremesAreAttained(Q.AllAsked(ms));
  }

  /** Once closed, the aggregates are those of the messages delivered, in whatever order they became final. */
  lemma {:induction false} ClosedFlowCountsEveryMessage(f: Flow, counted: seq<D.Message>, delivered: seq<D.Message>)
    requires Aggregates(f, counted) && multiset(counted) == multiset(delivered)
    ensures Aggregates(f, delivered)
    ensures HeaderNumbers(f, delivered) && RecordNumbers(f.records, delivered) && NameNumbers(f.names, delivered)
  {
    hide Aggregates, HeaderNumbers, RecordNumbers, NameNumbers;
    AggregatesPermuted(f, counted, delivered);
    AggregatesAreNumbers(f, delivered);
  }

  /**
   * The whole life of a flow: after any packets recorded and the closing, every header,
   * record and name number is that of all messages delivered, and every verdict count
   * and latency that of all final observations, those the closing adds included.
   */
  method CloseFlow(c: Coordinator) returns (g: Flow)
    requires c.Valid()
    ensures HeaderNumbers(g, c.delivered) && RecordNumbers(g.records, c.delivered) && NameNumbers(g.names, c.delivered)
    ensures S.Verdicts(g.transactions, c.trace + Closing(c.Current().correlation))
    ensures g.transactions.Total() == |c.trace| + |C.RequestsOf(c.Current().correlation)|
    ensures g.transactions.Total() + g.transactions.matched == |c.delivered|
    ensures !Active(g) <==> c.Current().correlation.Some?
  {
    hide Aggregates, HeaderNumbers, RecordNumbers, NameNumbers, C.Sound, C.Waiting, C.Counted, S.AllFinal, S.Summary;
    hide S.Verdicts;
    g := Close(c.Current(), c.trace, c.delivered);
    ghost var trace := c.trace + Closing(c.Current().correlation);
    VerdictsOfFlow(g, trace);
    SameMembers(C.Counted(trace), c.delivered);
    ClosedFlowCountsEveryMessage(g, C.Counted(trace), c.delivered);
  }
}
