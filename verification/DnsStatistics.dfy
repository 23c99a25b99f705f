/**
 * Two aggregates over final observations of one flow: verdict, opcode and
 * latency counts, and header flag counts. `Valid` is what the constructors
 * demand; `Summarises` says what the numbers are, by counting messages.
 */
module DnsStatistics {
  import opened Common
  import opened Tally
  import D = Dns
  import C = DnsCorrelation

  const BINS := 16

  datatype StatisticsError = NotTerminal

  /** `declared[s]`: the sum of the header counts of section `s`. */
  datatype Transactions = Transactions(
    matched: nat, unmatchedResponses: nat, ambiguous: nat, unresolved: nat, declared: seq<nat>,
    latency: Span, opcodes: seq<nat>, responseCodes: seq<nat>)
  {
    function Total(): nat { matched + unmatchedResponses + ambiguous + unresolved }

    predicate Shaped() { |declared| == 4 && |opcodes| == BINS && |responseCodes| == BINS }

    ghost predicate Valid()
    {
      && Shaped()
      && Bounds(latency, matched) && Natural(latency)
      && Sum(opcodes) == Total() + matched
      && matched + unmatchedResponses <= Sum(responseCodes) <= matched + unmatchedResponses + ambiguous
      && (Total() == 0 ==> forall s :: 0 <= s < 4 ==> declared[s] == 0)
    }
  }

  function NoTransactions(): Transactions
  {
    Transactions(0, 0, 0, 0, [0, 0, 0, 0], NOTHING, seq(BINS, _ => 0), seq(BINS, _ => 0))
  }

  lemma {:induction false} NoTransactionsIsValid()
    ensures NoTransactions().Valid()
  {
    SumOfZeros(BINS);
  }

  function CountHeader(s: Transactions, h: D.Header): (r: Transactions)
    requires s.Shaped()
    ensures r.Shaped()
  {
    s.(declared := [s.declared[0] + h.Declared(0), s.declared[1] + h.Declared(1), s.declared[2] + h.Declared(2),
                    s.declared[3] + h.Declared(3)],
       opcodes := Bump(s.opcodes, h.Opcode()),
       responseCodes := if h.IsResponse() then Bump(s.responseCodes, h.ResponseCode()) else s.responseCodes)
  }

  function CountHeaders(s: Transactions, ms: seq<D.Message>): (r: Transactions)
    requires s.Shaped() && forall m :: m in ms ==> m.header.Some?
    ensures r.Shaped()
  {
    if ms == [] then s
    else CountHeader(CountHeaders(s, ms[..|ms| - 1]), ms[|ms| - 1].header.value)
  }

  function CountVerdict(s: Transactions, t: C.Transaction): (r: Transactions)
    requires s.Shaped() && (t.status == C.Matched ==> t.requestCapturedAt.Some?)
    ensures r.Shaped()
  {
    match t.status
    case Matched => s.(matched := s.matched + 1,
                       latency := Observe(s.latency, t.capturedAt - t.requestCapturedAt.value))
    case Unmatched => s.(unmatchedResponses := s.unmatchedResponses + 1)
    case Ambiguous => s.(ambiguous := s.ambiguous + 1)
    case Unresolved => s.(unresolved := s.unresolved + 1)
    case Pending => s
  }

  lemma {:induction false} SettledHeaders(t: C.Transaction)
    requires C.Settled(t)
    ensures forall m :: m in C.Contribution(t) ==> C.Valid(m) && m.header.Some?
    ensures t.status == C.Matched ==>
              t.requestCapturedAt.Some? && t.request.Some? && C.Contribution(t) == [t.request.value, t.message]
    ensures t.status != C.Matched ==> C.Contribution(t) == [t.message]
  { }

  ghost function AddTransaction(s: Transactions, t: C.Transaction): Transactions
    requires s.Shaped() && C.Settled(t)
  {
    CountHeaders(CountVerdict(s, t), C.Contribution(t))
  }

  lemma {:induction false} LatencyIsKnown(s: Transactions)
    requires s.Valid()
    ensures s.Shaped() && (s.matched > 0 ==> s.latency.low.Some? && s.latency.high.Some?)
    ensures s.matched == 0 ==> s.latency == NOTHING
  {
    hide Sum;
  }

  /** `update_dns_transaction_statistics`. */
  method UpdateTransactions(current: Option<Transactions>, t: C.Transaction)
    returns (r: Result<Transactions, StatisticsError>)
    requires (current.Some? ==> current.value.Valid()) && (t.status != C.Pending ==> C.Settled(t))
    ensures r.Err? <==> t.status == C.Pending
    ensures r.Ok? ==> r.value == AddTransaction(if current.Some? then current.value else NoTransactions(), t)
                      && r.value.Valid()
  {
    hide NoTransactions, C.Valid, C.Settled, SumOver, Transactions.Valid;
    if t.status == C.Pending { return Err(NotTerminal); }
    NoTransactionsIsValid();
    var s := if current.Some? then current.value else NoTransactions();
    ghost var s0 := s;
    LatencyIsKnown(s);
    SettledHeaders(t);
    var messages := [t.message];
    match t.status {
      case Matched =>
        messages := [t.request.value, t.message];
        var latency := t.capturedAt - t.requestCapturedAt.value;
        s := s.(matched := s.matched + 1,
                latency := Span(s.latency.total + latency,
                                Some(if s.matched == 0 then latency else Min(s.latency.low.value, latency)),
                                Some(if s.matched == 0 then latency else Max(s.latency.high.value, latency))));
      case Unmatched => s := s.(unmatchedResponses := s.unmatchedResponses + 1);
      case Ambiguous => s := s.(ambiguous := s.ambiguous + 1);
      case Unresolved => s := s.(unresolved := s.unresolved + 1);
      case Pending =>
    }
    ghost var s1 := s;
    assert s1 == CountVerdict(s0, t);
    assert messages == C.Contribution(t);
    hide CountHeader, CountVerdict, C.Contribution;
    for i := 0 to |messages|
      invariant s1.Shaped() && s == CountHeaders(s1, messages[..i])
    {
      assert messages[..i + 1][..i] == messages[..i];
      s := CountHeader(s, messages[i].header.value);
    }
    assert messages[..|messages|] == messages;
    AddKeepsValid(s0, t);
    r := Ok(s);
  }

  ghost function ResponseWeight(): D.Message -> int
  {
    (m: D.Message) => if m.header.Some? && m.header.value.IsResponse() then 1 else 0
  }

  /** Each message lands in one opcode bin, and in one response-code bin if it is a response. */
  lemma {:induction false} HeadersAreBinned(s: Transactions, ms: seq<D.Message>)
    requires s.Shaped() && forall m :: m in ms ==> m.header.Some?
    ensures var r := CountHeaders(s, ms);
            && Sum(r.opcodes) == Sum(s.opcodes) + |ms|
            && Sum(r.responseCodes) == Sum(s.responseCodes) + SumOver(ms, ResponseWeight())
            && r == s.(declared := r.declared, opcodes := r.opcodes, responseCodes := r.responseCodes)
  {
    hide Sum;
    if ms != [] {
      HeadersAreBinned(s, ms[..|ms| - 1]);
      var h, before := ms[|ms| - 1].header.value, CountHeaders(s, ms[..|ms| - 1]);
      BumpSum(before.opcodes, h.Opcode());
      BumpSum(before.responseCodes, h.ResponseCode());
    }
  }

  lemma {:induction false} SettledResponses(t: C.Transaction)
    requires C.Settled(t)
    ensures var responses := SumOver(C.Contribution(t), ResponseWeight());
            && 0 <= responses <= 1
            && (t.status == C.Matched || t.status == C.Unmatched ==> responses == 1)
            && (t.status == C.Unresolved ==> responses == 0)
  {
    var f := ResponseWeight();
    SumOverOne(t.message, f);
    if t.status == C.Matched {
      SumOverOne(t.request.value, f);
      SumOverAppend([t.request.value], t.message, f);
      assert [t.request.value] + [t.message] == C.Contribution(t);
    }
  }

  /** No final observation, whatever it says, can make the statistics refuse their own check. */
  lemma {:induction false} AddKeepsValid(s: Transactions, t: C.Transaction)
    requires s.Valid() && C.Settled(t)
    ensures AddTransaction(s, t).Valid()
  {
    hide Sum, SumOver, CountHeaders, Bounds, ResponseWeight;
    SettledHeaders(t);
    SettledResponses(t);
    HeadersAreBinned(CountVerdict(s, t), C.Contribution(t));
    if t.status == C.Matched { ObserveKeepsBounds(s.latency, s.matched, t.capturedAt - t.requestCapturedAt.value); }
  }

  // ---------------------------------------------------------------- what the numbers are

  ghost function DeclaredIn(section: nat): D.Message -> int
  {
    (m: D.Message) => if m.header.Some? then m.header.value.Declared(section) else 0
  }

  ghost function OpcodeIs(k: nat): D.Message -> int
  {
    (m: D.Message) => if m.header.Some? && m.header.value.Opcode() == k then 1 else 0
  }

  ghost function ResponseCodeIs(k: nat): D.Message -> int
  {
    (m: D.Message) => if m.header.Some? && m.header.value.IsResponse() && m.header.value.ResponseCode() == k then 1
      else 0
  }

  /** Every bin holds the number of messages that belong in it. */
  ghost predicate Bins(s: Transactions, ms: seq<D.Message>)
  {
    && s.Shaped()
    && (forall i :: 0 <= i < 4 ==> s.declared[i] == SumOver(ms, DeclaredIn(i)))
    && (forall k :: 0 <= k < BINS ==> s.opcodes[k] == SumOver(ms, OpcodeIs(k)))
    && (forall k :: 0 <= k < BINS ==> s.responseCodes[k] == SumOver(ms, ResponseCodeIs(k)))
  }

  lemma {:induction false} HeaderBins(s: Transactions, ms: seq<D.Message>, m: D.Message)
    requires Bins(s, ms) && m.header.Some?
    ensures Bins(CountHeader(s, m.header.value), ms + [m])
  {
    hide SumOver, D.Header.Opcode, D.Header.ResponseCode, D.Header.IsResponse, D.Header.Declared;
    forall i | 0 <= i < 4
      ensures SumOver(ms + [m], DeclaredIn(i)) == SumOver(ms, DeclaredIn(i)) + m.header.value.Declared(i)
    {
      SumOverAppend(ms, m, DeclaredIn(i));
    }
    forall k | 0 <= k < BINS
      ensures SumOver(ms + [m], OpcodeIs(k)) == SumOver(ms, OpcodeIs(k)) + OpcodeIs(k)(m)
      ensures SumOver(ms + [m], ResponseCodeIs(k)) == SumOver(ms, ResponseCodeIs(k)) + ResponseCodeIs(k)(m)
    {
      SumOverAppend(ms, m, OpcodeIs(k));
      SumOverAppend(ms, m, ResponseCodeIs(k));
    }
  }

  lemma {:induction false} HeadersBins(s: Transactions, before: seq<D.Message>, ms: seq<D.Message>)
    requires Bins(s, before) && forall m :: m in ms ==> m.header.Some?
    ensures Bins(CountHeaders(s, ms), before + ms)
  {
    hide SumOver, CountHeader;
    if ms == [] {
      assert before + ms == before;
    } else {
      var init, last := ms[..|ms| - 1], ms[|ms| - 1];
      HeadersBins(s, before, init);
      HeaderBins(CountHeaders(s, init), before + init, last);
      assert before + ms == before + init + [last];
    }
  }

  /** The aggregate of exactly these messages. */
  ghost predicate Summarises(s: Transactions, ms: seq<D.Message>)
  {
    && s.Valid() && s.Total() + s.matched == |ms| && Bins(s, ms)
    && Sum(s.responseCodes) == SumOver(ms, ResponseWeight())
  }

  lemma {:induction false} NothingBinned()
    ensures Bins(NoTransactions(), [])
  {
    hide SumOver;
    forall f: D.Message -> int ensures SumOver([], f) == 0 { SumOverNothing(f); }
  }

  lemma {:induction false} NothingSummarised()
    ensures Summarises(NoTransactions(), [])
  {
    hide SumOver, Bins, Transactions.Valid, Sum;
    NoTransactionsIsValid();
    NothingBinned();
    SumOfZeros(BINS);
    SumOverNothing(ResponseWeight());
  }

  /** The order of the messages does not show. */
  lemma {:induction false} SummarisesPermuted(s: Transactions, a: seq<D.Message>, b: seq<D.Message>)
    requires Summarises(s, a) && multiset(a) == multiset(b)
    ensures Summarises(s, b)
  {
    hide SumOver, Transactions.Valid, Sum;
    SameMembers(a, b);
    forall f: D.Message -> int ensures SumOver(a, f) == SumOver(b, f) { SumOverPermuted(a, b, f); }
  }

  /** One more final observation adds the messages it accounts for, and no others. */
  lemma {:induction false} AddSummarises(s: Transactions, ms: seq<D.Message>, t: C.Transaction)
    requires Summarises(s, ms) && C.Settled(t)
    ensures Summarises(AddTransaction(s, t), ms + C.Contribution(t))
  {
    hide CountHeaders, Transactions.Valid, SumOver, C.Contribution;
    var added := C.Contribution(t);
    AddKeepsValid(s, t);
    SettledHeaders(t);
    HeadersAreBinned(CountVerdict(s, t), added);
    HeadersBins(CountVerdict(s, t), ms, added);
    SumOverConcat(ms, added, ResponseWeight());
  }

  // ---------------------------------------------------------------- verdicts and latencies

  ghost function StatusIs(status: C.Status): C.Transaction -> int
  {
    (t: C.Transaction) => if t.status == status then 1 else 0
  }

  /** The time a request waited for its response. */
  ghost function Latency(): C.Transaction -> int
  {
    (t: C.Transaction) => if t.status == C.Matched
      && t.requestCapturedAt.Some? then t.capturedAt - t.requestCapturedAt.value else 0
  }

  ghost predicate AllFinal(ts: seq<C.Transaction>) { forall i :: 0 <= i < |ts| ==> C.Settled(ts[i]) }

  ghost function Summary(ts: seq<C.Transaction>): (r: Transactions)
    requires AllFinal(ts)
    ensures r.Shaped()
  {
    if ts == [] then NoTransactions() else AddTransaction(Summary(ts[..|ts| - 1]), ts[|ts| - 1])
  }

  /** Each verdict's observations, the sum of all latencies, and the shortest and the longest. */
  ghost predicate Verdicts(s: Transactions, ts: seq<C.Transaction>)
  {
    && s.matched == SumOver(ts, StatusIs(C.Matched)) && s.unmatchedResponses == SumOver(ts, StatusIs(C.Unmatched))
    && s.ambiguous == SumOver(ts, StatusIs(C.Ambiguous)) && s.unresolved == SumOver(ts, StatusIs(C.Unresolved))
    && s.latency.total == SumOver(ts, Latency())
    && (forall i :: 0 <= i < |ts| && ts[i].status == C.Matched ==>
          && s.latency.low.Some? && s.latency.high.Some?
          && s.latency.low.value <= Latency()(ts[i]) <= s.latency.high.value)
    && (s.latency.low.Some? ==> exists i ::
                                0 <= i < |ts| && ts[i].status == C.Matched && Latency()(ts[i]) == s.latency.low.value)
    && (s.latency.high.Some? ==> exists i ::
                                 0 <= i < |ts| && ts[i].status == C.Matched && Latency()(ts[i]) == s.latency.high.value)
  }

  lemma {:induction false} VerdictsAppend(s: Transactions, ts: seq<C.Transaction>, t: C.Transaction)
    requires s.Shaped() && Verdicts(s, ts) && C.Settled(t) && (s.latency.low.Some? <==> s.latency.high.Some?)
    ensures Verdicts(CountVerdict(s, t), ts + [t])
  {
    hide SumOver, C.Valid;
    var r, all := CountVerdict(s, t), ts + [t];
    SumOverAppend(ts, t, StatusIs(C.Matched));
    SumOverAppend(ts, t, StatusIs(C.Unmatched));
    SumOverAppend(ts, t, StatusIs(C.Ambiguous));
    SumOverAppend(ts, t, StatusIs(C.Unresolved));
    SumOverAppend(ts, t, Latency());
    assert all[|ts|] == t && forall i :: 0 <= i < |ts| ==> all[i] == ts[i];
    if s.latency.low.Some? {
      var i :| 0 <= i < |ts| && ts[i].status == C.Matched && Latency()(ts[i]) == s.latency.low.value;
      var j :| 0 <= j < |ts| && ts[j].status == C.Matched && Latency()(ts[j]) == s.latency.high.value;
      assert Latency()(all[i]) == s.latency.low.value && Latency()(all[j]) == s.latency.high.value;
    }
    assert t.status == C.Matched ==> Latency()(all[|ts|]) == t.capturedAt - t.requestCapturedAt.value;
  }

  /** The aggregate counts what the observations say, whatever they are. */
  lemma {:induction false} SummaryCountsVerdicts(ts: seq<C.Transaction>)
    requires AllFinal(ts)
    ensures Verdicts(Summary(ts), ts) && (Summary(ts).latency.low.Some? <==> Summary(ts).latency.high.Some?)
  {
    hide Verdicts, CountHeaders, C.Settled, C.Contribution;
    if ts == [] {
      NoVerdicts();
    } else {
      var init, t := ts[..|ts| - 1], ts[|ts| - 1];
      SummaryCountsVerdicts(init);
      VerdictsAppend(Summary(init), init, t);
      SettledHeaders(t);
      HeadersAreBinned(CountVerdict(Summary(init), t), C.Contribution(t));
      SameVerdicts(CountVerdict(Summary(init), t), Summary(ts), init + [t]);
      assert ts == init + [t];
    }
  }

  /** Every final observation has one of four verdicts. */
  lemma {:induction false} VerdictsAreAll(ts: seq<C.Transaction>)
    requires AllFinal(ts)
    ensures |ts| == SumOver(ts, StatusIs(C.Matched)) + SumOver(ts, StatusIs(C.Unmatched))
                    + SumOver(ts, StatusIs(C.Ambiguous)) + SumOver(ts, StatusIs(C.Unresolved))
  {
    hide C.Valid;
    if ts != [] { VerdictsAreAll(ts[..|ts| - 1]); }
  }

  lemma {:induction false} NoVerdicts()
    ensures Verdicts(NoTransactions(), [])
  { }

  lemma {:induction false} SameVerdicts(a: Transactions, b: Transactions, ts: seq<C.Transaction>)
    requires Verdicts(a, ts) && b == a.(declared := b.declared, opcodes := b.opcodes, responseCodes := b.responseCodes)
    ensures Verdicts(b, ts)
  { }

  // ---------------------------------------------------------------- header flags

  /**
   * is_response, truncated, authoritative_answer, recursion_desired,
   * recursion_available, authenticated_data, checking_disabled.
   */
  const MASKS: seq<nat> := [0x8000, 0x0200, 0x0400, 0x0100, 0x0080, 0x0020, 0x0010]

  datatype Flags = Flags(messages: nat, set_: seq<nat>)
  {
    ghost predicate Valid() { |set_| == |MASKS| && forall i :: 0 <= i < |MASKS| ==> set_[i] <= messages }
  }

  const NO_FLAGS := Flags(0, [0, 0, 0, 0, 0, 0, 0])

  predicate FlagSet(m: D.Message, i: nat)
    requires i < |MASKS| && m.header.Some?
  {
    m.header.value.Bit(MASKS[i])
  }

  /** The second header word by its fields (section 4.1.1 of RFC 1035, section 3 of RFC 2535). */
  datatype HeaderWord = HeaderWord(
    response: bool, opcode: nat, authoritative: bool, truncated: bool, recursionDesired: bool,
    recursionAvailable: bool, reserved: bool, authenticatedData: bool, checkingDisabled: bool, responseCode: nat)
  {
    function Value(): nat
    {
      Digit(response) * 32768 + opcode * 2048 + Digit(authoritative) * 1024 + Digit(truncated) * 512
      + Digit(recursionDesired) * 256 + Digit(recursionAvailable) * 128 + Digit(reserved) * 64
      + Digit(authenticatedData) * 32 + Digit(checkingDisabled) * 16 + responseCode
    }
  }

  function Digit(b: bool): nat { if b then 1 else 0 }

  /** Every field of a header word is read back, and each counter is for the flag it is named after. */
  lemma {:induction false} HeaderWordIsRead(m: D.Message, w: HeaderWord)
    requires m.header.Some? && w.opcode < 16 && w.responseCode < 16 && m.header.value.flags == w.Value()
    ensures var h := m.header.value;
            h.IsResponse() == w.response && h.Opcode() == w.opcode && h.ResponseCode() == w.responseCode
    ensures |MASKS| == 7
    ensures FlagSet(m, 0) == w.response && FlagSet(m, 1) == w.truncated && FlagSet(m, 2) == w.authoritative
    ensures FlagSet(m, 3) == w.recursionDesired && FlagSet(m, 4) == w.recursionAvailable
    ensures FlagSet(m, 5) == w.authenticatedData && FlagSet(m, 6) == w.checkingDisabled
  {
    UpperBits(w);
    LowerBits(w);
    hide HeaderWord.Value;
  }

  lemma {:induction false} UpperBits(w: HeaderWord)
    requires w.opcode < 16 && w.responseCode < 16
    ensures var v := w.Value();
            && v / 32768 % 2 == Digit(w.response) && v / 2048 % 16 == w.opcode
            && v / 1024 % 2 == Digit(w.authoritative) && v / 512 % 2 == Digit(w.truncated)
            && v / 256 % 2 == Digit(w.recursionDesired)
  {
    var v := w.Value();
    var low := Digit(w.recursionAvailable) * 128 + Digit(w.reserved) * 64 + Digit(w.authenticatedData) * 32
               + Digit(w.checkingDisabled) * 16 + w.responseCode;
    var a := Digit(w.response) * 128 + w.opcode * 8 + Digit(w.authoritative) * 4 + Digit(w.truncated) * 2
             + Digit(w.recursionDesired);
    assert v == a * 256 + low && low < 256;
    hide HeaderWord.Value;
    assert v / 256 == a && v / 512 == a / 2 && v / 1024 == a / 4 && v / 2048 == a / 8 && v / 32768 == a / 128;
    HighByte(Digit(w.response), w.opcode, Digit(w.authoritative), Digit(w.truncated), Digit(w.recursionDesired));
  }

  lemma {:induction false} HighByte(qr: nat, opcode: nat, aa: nat, tc: nat, rd: nat)
    requires qr < 2 && opcode < 16 && aa < 2 && tc < 2 && rd < 2
    ensures var a := qr * 128 + opcode * 8 + aa * 4 + tc * 2 + rd;
            a % 2 == rd && a / 2 % 2 == tc && a / 4 % 2 == aa && a / 8 % 16 == opcode && a / 128 % 2 == qr
  { }

  lemma {:induction false} LowerBits(w: HeaderWord)
    requires w.opcode < 16 && w.responseCode < 16
    ensures var v := w.Value();
            && v / 128 % 2 == Digit(w.recursionAvailable) && v / 32 % 2 == Digit(w.authenticatedData)
            && v / 16 % 2 == Digit(w.checkingDisabled) && v % 16 == w.responseCode
  {
    var v := w.Value();
    var a := Digit(w.response) * 128 + w.opcode * 8 + Digit(w.authoritative) * 4 + Digit(w.truncated) * 2
             + Digit(w.recursionDesired);
    var b := a * 16 + Digit(w.recursionAvailable) * 8 + Digit(w.reserved) * 4 + Digit(w.authenticatedData) * 2
             + Digit(w.checkingDisabled);
    assert v == b * 16 + w.responseCode;
    assert v / 16 == b;
    assert v / 32 == v / 16 / 2 && v / 128 == v / 32 / 4;
    assert b / 2 == a * 8 + Digit(w.recursionAvailable) * 4 + Digit(w.reserved) * 2 + Digit(w.authenticatedData);
    assert b / 2 / 4 == a * 2 + Digit(w.recursionAvailable);
  }

  ghost function FlagIs(i: nat): D.Message -> int
  {
    (m: D.Message) => if i < |MASKS| && m.header.Some? && FlagSet(m, i) then 1 else 0
  }

  ghost predicate FlagsSummarise(f: Flags, ms: seq<D.Message>)
  {
    |f.set_| == |MASKS| && f.messages == |ms| && forall i :: 0 <= i < |MASKS| ==> f.set_[i] == SumOver(ms, FlagIs(i))
  }

  lemma {:induction false} FlagsPermuted(f: Flags, a: seq<D.Message>, b: seq<D.Message>)
    requires FlagsSummarise(f, a) && multiset(a) == multiset(b)
    ensures FlagsSummarise(f, b)
  {
    hide SumOver;
    SameMembers(a, b);
    forall g: D.Message -> int ensures SumOver(a, g) == SumOver(b, g) { SumOverPermuted(a, b, g); }
  }

  lemma {:induction false} NoFlagsSummarise()
    ensures FlagsSummarise(NO_FLAGS, [])
  {
    hide SumOver;
    forall i | 0 <= i < |MASKS| ensures SumOver([], FlagIs(i)) == 0 { SumOverNothing(FlagIs(i)); }
  }

  lemma {:induction false} FlagsAtMostMessages(ms: seq<D.Message>, i: nat)
    ensures 0 <= SumOver(ms, FlagIs(i)) <= |ms|
  {
    if ms != [] { FlagsAtMostMessages(ms[..|ms| - 1], i); }
  }

  lemma {:induction false} SummaryIsValid(f: Flags, ms: seq<D.Message>)
    requires FlagsSummarise(f, ms)
    ensures f.Valid()
  {
    forall i | 0 <= i < |MASKS| ensures f.set_[i] <= f.messages { FlagsAtMostMessages(ms, i); }
  }

  /** One more message: its set flags counted, in order. */
  method CountFlags(f: Flags, m: D.Message) returns (r: Flags)
    requires f.Valid() && m.header.Some?
    ensures r.Valid() && r.messages == f.messages + 1
    ensures forall i :: 0 <= i < |MASKS| ==> r.set_[i] == f.set_[i] + if FlagSet(m, i) then 1 else 0
  {
    var set_ := f.set_;
    for i := 0 to |MASKS|
      invariant |set_| == |MASKS|
      invariant forall j :: 0 <= j < i ==> set_[j] == f.set_[j] + if FlagSet(m, j) then 1 else 0
      invariant forall j :: i <= j < |MASKS| ==> set_[j] == f.set_[j]
    {
      var enabled := m.header.value.Bit(MASKS[i]);
      set_ := set_[i := set_[i] + if enabled then 1 else 0];
    }
    r := Flags(f.messages + 1, set_);
  }

  /** `g` is `f` with these messages counted as well. */
  ghost predicate FlagsAdded(f: Flags, g: Flags, ms: seq<D.Message>)
  {
    && |f.set_| == |MASKS| == |g.set_| && g.messages == f.messages + |ms|
    && forall i :: 0 <= i < |MASKS| ==> g.set_[i] == f.set_[i] + SumOver(ms, FlagIs(i))
  }

  lemma {:induction false} FlagsAddedStep(f: Flags, g: Flags, next: Flags, ms: seq<D.Message>, m: D.Message)
    requires FlagsAdded(f, g, ms) && m.header.Some? && |next.set_| == |MASKS| && next.messages == g.messages + 1
    requires forall i :: 0 <= i < |MASKS| ==> next.set_[i] == g.set_[i] + if FlagSet(m, i) then 1 else 0
    ensures FlagsAdded(f, next, ms + [m])
  {
    hide SumOver;
    forall i | 0 <= i < |MASKS| ensures next.set_[i] == f.set_[i] + SumOver(ms + [m], FlagIs(i)) {
      SumOverAppend(ms, m, FlagIs(i));
    }
  }

  lemma {:induction false} FlagsAddedSummarise(f: Flags, g: Flags, before: seq<D.Message>, ms: seq<D.Message>)
    requires FlagsSummarise(f, before) && FlagsAdded(f, g, ms)
    ensures FlagsSummarise(g, before + ms)
  {
    forall i | 0 <= i < |MASKS| ensures g.set_[i] == SumOver(before + ms, FlagIs(i)) {
      SumOverConcat(before, ms, FlagIs(i));
    }
  }

  /** `update_dns_message_flag_statistics`. */
  method UpdateFlags(current: Option<Flags>, t: C.Transaction) returns (r: Result<Flags, StatisticsError>)
    requires (current.Some? ==> current.value.Valid()) && (t.status != C.Pending ==> C.Settled(t))
    ensures r.Err? <==> t.status == C.Pending
    ensures r.Ok? ==> r.value.Valid()
                      && FlagsAdded(if current.Some? then current.value else NO_FLAGS, r.value, C.Contribution(t))
  {
    if t.status == C.Pending { return Err(NotTerminal); }
    var f := if current.Some? then current.value else NO_FLAGS;
    ghost var f0 := f;
    SettledHeaders(t);
    var messages := C.Contribution(t);
    hide C.Settled, C.Contribution, FlagSet;
    for i := 0 to |messages|
      invariant f.Valid() && FlagsAdded(f0, f, messages[..i])
    {
      var next := CountFlags(f, messages[i]);
      FlagsAddedStep(f0, f, next, messages[..i], messages[i]);
      assert messages[..i + 1] == messages[..i] + [messages[i]];
      f := next;
    }
    assert messages[..|messages|] == messages;
    r := Ok(f);
  }
}
