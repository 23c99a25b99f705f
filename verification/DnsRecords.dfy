/**
 * The resource-record aggregate: counts by section, RDATA lengths, and a table of 256
 * blocks of 256 codes for types and classes.
 */
module DnsRecords {
  import opened Common
  import opened Tally
  import D = Dns
  import M = DnsMeaning
  import C = DnsCorrelation
  import S = DnsStatistics

  type Blocks = seq<seq<nat>>

  ghost predicate Grid(b: Blocks) { |b| == 256 && forall i :: 0 <= i < 256 ==> |b[i]| == 256 }

  ghost function BlockSum(): seq<nat> -> int { (b: seq<nat>) => Sum(b) }

  ghost function Total(b: Blocks): int { SumOver(b, BlockSum()) }

  function Bin(b: Blocks, code: nat): nat
    requires Grid(b) && code < 65536
  {
    b[code / 256][code % 256]
  }

  function Increment(b: Blocks, code: nat): (r: Blocks)
    requires Grid(b) && code < 65536
    ensures Grid(r)
  {
    b[code / 256 := b[code / 256][code % 256 := b[code / 256][code % 256] + 1]]
  }

  lemma {:induction false} IncrementBins(b: Blocks, code: nat, k: nat)
    requires Grid(b) && code < 65536 && k < 65536
    ensures Bin(Increment(b, code), k) == Bin(b, k) + if k == code then 1 else 0
  {
    assert k / 256 == code / 256 && k % 256 == code % 256 ==> k == code;
  }

  lemma {:induction false} IncrementTotal(b: Blocks, code: nat)
    requires Grid(b) && code < 65536
    ensures Total(Increment(b, code)) == Total(b) + 1
  {
    hide SumOver, Sum;
    var block, low := b[code / 256], code % 256;
    SumUpdate(block, low, block[low] + 1);
    SumOverUpdate(b, code / 256, block[low := block[low] + 1], BlockSum());
  }

  /** `_increment_code`: the block is replaced in place. */
  method IncrementCode(blocks: array<seq<nat>>, code: nat)
    requires Grid(blocks[..]) && code < 65536
    modifies blocks
    ensures blocks[..] == Increment(old(blocks[..]), code)
  {
    var high, low := code / 256, code % 256;
    assert |blocks[..]| == 256 && blocks[..][high] == blocks[high];
    var block := blocks[high];
    block := block[low := block[low] + 1];
    blocks[high] := block;
  }

  // ---------------------------------------------------------------- the aggregate

  datatype Tables = Tables(rdata: Span, types: Blocks, classes: Blocks)

  /** `counts`: answers, authorities and additionals. */
  datatype Records = Records(counts: seq<nat>, tables: Tables)
  {
    ghost predicate Shaped() { |counts| == 3 && Grid(tables.types) && Grid(tables.classes) }

    function Count(): nat requires |counts| == 3 { counts[0] + counts[1] + counts[2] }

    ghost predicate Valid() { Shaped() && Holds(tables, Count()) }
  }

  /** What the constructor checks of the lengths and the two tables of `count` records. */
  ghost predicate Holds(t: Tables, count: nat)
  {
    Bounds(t.rdata, count) && Within(t.rdata, 0, 65535) && Total(t.types) == count && Total(t.classes) == count
  }

  function NoBlock(): seq<nat> { seq(256, _ => 0) }

  function NoBlocks(): Blocks { seq(256, _ => NoBlock()) }

  function NoRecords(): Records { Records(seq(3, _ => 0), Tables(NOTHING, NoBlocks(), NoBlocks())) }

  lemma {:induction false} ZeroBlocks(n: nat)
    ensures Total(seq(n, _ => NoBlock())) == 0
  {
    if n > 0 {
      assert seq(n, _ => NoBlock()) == seq(n - 1, _ => NoBlock()) + [NoBlock()];
      ZeroBlocks(n - 1);
      SumOfZeros(256);
      SumOverAppend(seq(n - 1, _ => NoBlock()), NoBlock(), BlockSum());
    }
  }

  lemma {:induction false} NoRecordsIsValid()
    ensures NoRecords().Valid() && Grid(NoBlocks())
  {
    ZeroBlocks(256);
  }

  ghost predicate Usable(e: D.Entry) { e.Record? && e.entryType < 65536 && e.entryClass < 65536 && e.rdlength <= 65535 }

  ghost predicate AllUsable(entries: seq<D.Entry>) { forall i :: 0 <= i < |entries| ==> Usable(entries[i]) }

  ghost predicate UsableMessage(m: D.Message)
  {
    |m.sections| == 4 && forall s :: 1 <= s < 4 ==> AllUsable(m.sections[s])
  }

  ghost function AddRecords(t: Tables, entries: seq<D.Entry>): (r: Tables)
    requires Grid(t.types) && Grid(t.classes) && AllUsable(entries)
    ensures Grid(r.types) && Grid(r.classes)
  {
    if entries == [] then t
    else
      var before, e := AddRecords(t, entries[..|entries| - 1]), entries[|entries| - 1];
      Tables(Observe(before.rdata, e.rdlength), Increment(before.types, e.entryType),
             Increment(before.classes, e.entryClass))
  }

  ghost function AddSection(s: Records, k: nat, entries: seq<D.Entry>): (r: Records)
    requires s.Shaped() && k < 3 && AllUsable(entries)
    ensures r.Shaped()
  {
    Records(s.counts[k := s.counts[k] + |entries|], AddRecords(s.tables, entries))
  }

  ghost function AddMessage(s: Records, m: D.Message): (r: Records)
    requires s.Shaped() && UsableMessage(m)
    ensures r.Shaped()
  {
    AddSection(AddSection(AddSection(s, 0, m.sections[1]), 1, m.sections[2]), 2, m.sections[3])
  }

  ghost function AddMessages(s: Records, ms: seq<D.Message>): (r: Records)
    requires s.Shaped() && forall m :: m in ms ==> UsableMessage(m)
    ensures r.Shaped()
  {
    if ms == [] then s else AddMessage(AddMessages(s, ms[..|ms| - 1]), ms[|ms| - 1])
  }

  lemma {:induction false} ValidIsUsable(m: D.Message)
    requires C.Valid(m)
    ensures UsableMessage(m)
  {
    forall s, i | 1 <= s < 4 && 0 <= i < |m.sections[s]| ensures Usable(m.sections[s][i]) {
      assert M.Fits(m.sections[s][i]);
    }
  }

  // ---------------------------------------------------------------- the program's loops

  /** The records of one section, the tables changing in place. */
  method CountRecords(rdata0: Span, types: array<seq<nat>>, classes: array<seq<nat>>, entries: seq<D.Entry>)
    returns (rdata: Span)
    requires Grid(types[..]) && Grid(classes[..]) && types != classes && AllUsable(entries)
    modifies types, classes
    ensures Grid(types[..]) && Grid(classes[..])
    ensures Tables(rdata, types[..], classes[..])
            == AddRecords(Tables(rdata0, old(types[..]), old(classes[..])), entries)
  {
    ghost var t0 := Tables(rdata0, types[..], classes[..]);
    rdata := rdata0;
    for i := 0 to |entries|
      invariant Grid(types[..]) && Grid(classes[..])
      invariant Tables(rdata, types[..], classes[..]) == AddRecords(t0, entries[..i])
    {
      var e := entries[i];
      assert Usable(e) && entries[..i + 1][..i] == entries[..i];
      hide Increment;
      rdata := Observe(rdata, e.rdlength);
      IncrementCode(types, e.entryType);
      IncrementCode(classes, e.entryClass);
    }
    assert entries[..|entries|] == entries;
  }

  /** One message: its three record sections in turn. */
  method CountMessage(counts0: seq<nat>, rdata0: Span, types: array<seq<nat>>, classes: array<seq<nat>>, m: D.Message)
    returns (counts: seq<nat>, rdata: Span, added: nat)
    requires |counts0| == 3 && Grid(types[..]) && Grid(classes[..]) && types != classes && UsableMessage(m)
    modifies types, classes
    ensures |counts| == 3 && Grid(types[..]) && Grid(classes[..])
    ensures Records(counts, Tables(rdata, types[..], classes[..]))
         == AddMessage(Records(counts0, Tables(rdata0, old(types[..]), old(classes[..]))), m)
    ensures added == |m.sections[1]| + |m.sections[2]| + |m.sections[3]|
  {
    hide AddRecords, Grid, AllUsable;
    counts, rdata, added := counts0, rdata0, 0;
    ghost var s := Records(counts, Tables(rdata, types[..], classes[..]));
    for k := 0 to 3
      invariant |counts| == 3 && Grid(types[..]) && Grid(classes[..])
      invariant Records(counts, Tables(rdata, types[..], classes[..])) == FirstSections(s, m, k)
      invariant added == (if k > 0 then |m.sections[1]| else 0) + (if k > 1 then |m.sections[2]| else 0)
                         + (if k > 2 then |m.sections[3]| else 0)
    {
      var section := m.sections[k + 1];
      counts := counts[k := counts[k] + |section|];
      added := added + |section|;
      rdata := CountRecords(rdata, types, classes, section);
    }
  }

  ghost function FirstSections(s: Records, m: D.Message, k: nat): (r: Records)
    requires s.Shaped() && UsableMessage(m) && k <= 3
    ensures r.Shaped() && (k == 3 ==> r == AddMessage(s, m))
  {
    if k == 0 then s
    else if k == 1 then AddSection(s, 0, m.sections[1])
    else if k == 2 then AddSection(AddSection(s, 0, m.sections[1]), 1, m.sections[2])
    else AddMessage(s, m)
  }

  lemma {:induction false} NothingAdded(s: Records, m: D.Message)
    requires s.Shaped() && UsableMessage(m) && forall k :: 1 <= k < 4 ==> m.sections[k] == []
    ensures AddMessage(s, m) == s
  {
    assert s.counts[0 := s.counts[0]] == s.counts && s.counts[1 := s.counts[1]] == s.counts
           && s.counts[2 := s.counts[2]] == s.counts;
  }

  /** `update_dns_resource_record_statistics`. */
  method Update(current: Option<Records>, t: C.Transaction) returns (r: Result<Records, S.StatisticsError>)
    requires (current.Some? ==> current.value.Valid()) && (t.status != C.Pending ==> C.Settled(t))
    ensures r.Err? <==> t.status == C.Pending
    ensures r.Ok? ==>
              && (forall m :: m in C.Contribution(t) ==> UsableMessage(m))
              && r.value.Valid()
              && r.value == AddMessages(if current.Some? then current.value else NoRecords(), C.Contribution(t))
  {
    hide C.Settled, C.Contribution, C.Valid, UsableMessage, AddMessage, Records.Valid, Holds;
    if t.status == C.Pending { return Err(S.NotTerminal); }
    NoRecordsIsValid();
    S.SettledHeaders(t);
    var s := if current.Some? then current.value else NoRecords();
    var messages := C.Contribution(t);
    forall m | m in messages ensures UsableMessage(m) { ValidIsUsable(m); }
    AddMessagesKeepsValid(s, messages);
    ValidShape(s);
    var types := new seq<nat>[256](i requires 0 <= i < 256 => s.tables.types[i]);
    var classes := new seq<nat>[256](i requires 0 <= i < 256 => s.tables.classes[i]);
    assert types[..] == s.tables.types && classes[..] == s.tables.classes;
    hide Grid;
    var counts, rdata, added := s.counts, s.tables.rdata, 0;
    for i := 0 to |messages|
      invariant |counts| == 3 && Grid(types[..]) && Grid(classes[..])
      invariant Records(counts, Tables(rdata, types[..], classes[..])) == AddMessages(s, messages[..i])
      invariant added == 0 ==> AddMessages(s, messages[..i]) == s
    {
      assert messages[..i + 1][..i] == messages[..i];
      var n;
      ghost var before := AddMessages(s, messages[..i]);
      counts, rdata, n := CountMessage(counts, rdata, types, classes, messages[i]);
      if n == 0 { NothingAdded(before, messages[i]); }
      added := added + n;
    }
    assert messages[..|messages|] == messages;
    if added == 0 { return Ok(s); }
    r := Ok(Records(counts, Tables(rdata, types[..], classes[..])));
  }

  lemma {:induction false} ValidShape(s: Records)
    requires s.Valid()
    ensures |s.counts| == 3 && |s.tables.types| == 256 && |s.tables.classes| == 256 && Grid(s.tables.types)
            && Grid(s.tables.classes)
  { }

  // ---------------------------------------------------------------- the constructor's check always passes

  lemma {:induction false} AddRecordsHolds(t: Tables, count: nat, entries: seq<D.Entry>)
    requires Grid(t.types) && Grid(t.classes) && AllUsable(entries) && Holds(t, count)
    ensures Holds(AddRecords(t, entries), count + |entries|)
  {
    hide Total, Bounds, Increment, Grid;
    if entries != [] {
      var e := entries[|entries| - 1];
      AddRecordsHolds(t, count, entries[..|entries| - 1]);
      assert Usable(e);
      var before := AddRecords(t, entries[..|entries| - 1]);
      ObserveKeepsBounds(before.rdata, count + |entries| - 1, e.rdlength);
      IncrementTotal(before.types, e.entryType);
      IncrementTotal(before.classes, e.entryClass);
    }
  }

  lemma {:induction false} AddMessageKeepsValid(s: Records, m: D.Message)
    requires s.Valid() && UsableMessage(m)
    ensures AddMessage(s, m).Valid()
  {
    hide Holds, AddRecords, Grid;
    var a := AddSection(s, 0, m.sections[1]);
    AddRecordsHolds(s.tables, s.Count(), m.sections[1]);
    var b := AddSection(a, 1, m.sections[2]);
    AddRecordsHolds(a.tables, a.Count(), m.sections[2]);
    AddRecordsHolds(b.tables, b.Count(), m.sections[3]);
  }

  lemma {:induction false} AddMessagesKeepsValid(s: Records, ms: seq<D.Message>)
    requires s.Valid() && forall m :: m in ms ==> UsableMessage(m)
    ensures AddMessages(s, ms).Valid()
  {
    hide Holds, Grid, AddMessage, UsableMessage;
    if ms != [] {
      AddMessagesKeepsValid(s, ms[..|ms| - 1]);
      AddMessageKeepsValid(AddMessages(s, ms[..|ms| - 1]), ms[|ms| - 1]);
    }
  }

  // ---------------------------------------------------------------- what the numbers are

  ghost function EntryTypeIs(k: nat): D.Entry -> int { (e: D.Entry) => if e.entryType == k then 1 else 0 }

  ghost function EntryClassIs(k: nat): D.Entry -> int { (e: D.Entry) => if e.entryClass == k then 1 else 0 }

  ghost function EntryLength(): D.Entry -> int { (e: D.Entry) => if e.Record? then e.rdlength else 0 }

  /** The sum of `f` over a message's records. */
  ghost function InRecords(f: D.Entry -> int): D.Message -> int
  {
    (m: D.Message) => if |m.sections| == 4
      then SumOver(m.sections[1], f) + SumOver(m.sections[2], f) + SumOver(m.sections[3], f) else 0
  }

  ghost function RecordsIn(): D.Message -> seq<D.Entry>
  {
    (m: D.Message) => if |m.sections| == 4 then m.sections[1] + m.sections[2] + m.sections[3] else []
  }

  /** The total, the shortest and the longest RDATA of all records. */
  ghost predicate Lengths(s: Records, ms: seq<D.Message>)
  {
    SpanOf(s.tables.rdata, Gather(ms, RecordsIn()), EntryLength())
  }

  /** The aggregate of exactly these messages. */
  ghost predicate Summarises(s: Records, ms: seq<D.Message>)
  {
    && s.Valid() && Lengths(s, ms)
    && (forall k :: 0 <= k < 3 ==> s.counts[k] == SumOver(ms, S.DeclaredIn(k + 1)))
    && s.tables.rdata.total == SumOver(ms, InRecords(EntryLength()))
    && (forall k :: 0 <= k < 65536 ==> Bin(s.tables.types, k) == SumOver(ms, InRecords(EntryTypeIs(k))))
    && (forall k :: 0 <= k < 65536 ==> Bin(s.tables.classes, k) == SumOver(ms, InRecords(EntryClassIs(k))))
  }

  lemma {:induction false} RecordBins(t: Tables, entries: seq<D.Entry>, k: nat)
    requires Grid(t.types) && Grid(t.classes) && AllUsable(entries) && k < 65536
    ensures var r := AddRecords(t, entries);
            && Bin(r.types, k) == Bin(t.types, k) + SumOver(entries, EntryTypeIs(k))
            && Bin(r.classes, k) == Bin(t.classes, k) + SumOver(entries, EntryClassIs(k))
            && r.rdata.total == t.rdata.total + SumOver(entries, EntryLength())
  {
    hide Grid, Bin, Increment;
    if entries != [] {
      var init, e := entries[..|entries| - 1], entries[|entries| - 1];
      assert AllUsable(init) && Usable(e);
      RecordBins(t, init, k);
      IncrementBins(AddRecords(t, init).types, e.entryType, k);
      IncrementBins(AddRecords(t, init).classes, e.entryClass, k);
    }
  }

  lemma {:induction false} MessageBins(s: Records, m: D.Message, k: nat)
    requires s.Shaped() && UsableMessage(m) && k < 65536
    ensures var r := AddMessage(s, m);
            && Bin(r.tables.types, k) == Bin(s.tables.types, k) + InRecords(EntryTypeIs(k))(m)
            && Bin(r.tables.classes, k) == Bin(s.tables.classes, k) + InRecords(EntryClassIs(k))(m)
            && r.tables.rdata.total == s.tables.rdata.total + InRecords(EntryLength())(m)
  {
    hide Grid, Bin, AddRecords, SumOver;
    var a := AddSection(s, 0, m.sections[1]);
    var b := AddSection(a, 1, m.sections[2]);
    RecordBins(s.tables, m.sections[1], k);
    RecordBins(a.tables, m.sections[2], k);
    RecordBins(b.tables, m.sections[3], k);
  }

  lemma {:induction false} RecordLengths(t: Tables, seen: seq<D.Entry>, entries: seq<D.Entry>)
    requires Grid(t.types) && Grid(t.classes) && AllUsable(entries) && SpanOf(t.rdata, seen, EntryLength())
    ensures SpanOf(AddRecords(t, entries).rdata, seen + entries, EntryLength())
  {
    hide SpanOf, Grid, Increment;
    if entries == [] {
      assert seen + entries == seen;
    } else {
      var init, e := entries[..|entries| - 1], entries[|entries| - 1];
      assert AllUsable(init) && Usable(e);
      RecordLengths(t, seen, init);
      SpanOfAppend(AddRecords(t, init).rdata, seen + init, e, EntryLength());
      assert seen + entries == seen + init + [e];
    }
  }

  lemma {:induction false} SectionLengths(s: Records, k: nat, seen: seq<D.Entry>, entries: seq<D.Entry>)
    requires s.Shaped() && k < 3 && AllUsable(entries) && SpanOf(s.tables.rdata, seen, EntryLength())
    ensures SpanOf(AddSection(s, k, entries).tables.rdata, seen + entries, EntryLength())
  {
    hide SpanOf, Grid, AddRecords, AllUsable, EntryLength;
    RecordLengths(s.tables, seen, entries);
  }

  lemma {:induction false} RecordsInMore(ms: seq<D.Message>, m: D.Message)
    requires |m.sections| == 4
    ensures Gather(ms + [m], RecordsIn()) == Gather(ms, RecordsIn()) + m.sections[1] + m.sections[2] + m.sections[3]
  {
    hide Gather;
    GatherAppend(ms, m, RecordsIn());
    assert RecordsIn()(m) == m.sections[1] + m.sections[2] + m.sections[3];
  }

  lemma {:induction false} MessageLengths(s: Records, ms: seq<D.Message>, m: D.Message)
    requires s.Shaped() && UsableMessage(m) && Lengths(s, ms)
    ensures Lengths(AddMessage(s, m), ms + [m])
  {
    hide SpanOf, Grid, AddSection, AllUsable, EntryLength, RecordsIn, Gather;
    var a := AddSection(s, 0, m.sections[1]);
    var b := AddSection(a, 1, m.sections[2]);
    var seen := Gather(ms, RecordsIn());
    SectionLengths(s, 0, seen, m.sections[1]);
    SectionLengths(a, 1, seen + m.sections[1], m.sections[2]);
    SectionLengths(b, 2, seen + m.sections[1] + m.sections[2], m.sections[3]);
    RecordsInMore(ms, m);
  }

  lemma {:induction false} MessageSummarises(s: Records, ms: seq<D.Message>, m: D.Message)
    requires Summarises(s, ms) && C.Valid(m)
    ensures UsableMessage(m) && Summarises(AddMessage(s, m), ms + [m])
  {
    hide Grid, Bin, AddRecords, SumOver, Holds, Lengths;
    ValidIsUsable(m);
    MessageLengths(s, ms, m);
    AddMessageKeepsValid(s, m);
    SumOverAppend(ms, m, S.DeclaredIn(1));
    SumOverAppend(ms, m, S.DeclaredIn(2));
    SumOverAppend(ms, m, S.DeclaredIn(3));
    forall k: nat | k < 65536
      ensures SumOver(ms + [m], InRecords(EntryTypeIs(k))) == Bin(AddMessage(s, m).tables.types, k)
      ensures SumOver(ms + [m], InRecords(EntryClassIs(k))) == Bin(AddMessage(s, m).tables.classes, k)
    {
      MessageBins(s, m, k);
      SumOverAppend(ms, m, InRecords(EntryTypeIs(k)));
      SumOverAppend(ms, m, InRecords(EntryClassIs(k)));
    }
    MessageBins(s, m, 0);
    SumOverAppend(ms, m, InRecords(EntryLength()));
  }

  lemma {:induction false} SummaryIsShaped(s: Records, ms: seq<D.Message>)
    requires Summarises(s, ms)
    ensures s.Shaped()
  { }

  /** One more final observation adds the records of the messages it accounts for, and no others. */
  lemma {:induction false} MessagesSummarise(s: Records, before: seq<D.Message>, ms: seq<D.Message>)
    requires Summarises(s, before) && forall m :: m in ms ==> C.Valid(m)
    ensures (forall m :: m in ms ==> UsableMessage(m)) && Summarises(AddMessages(s, ms), before + ms)
  {
    hide UsableMessage, AddMessage, C.Valid, Summarises, Grid;
    SummaryIsShaped(s, before);
    if ms == [] {
      assert before + ms == before;
    } else {
      var init, last := ms[..|ms| - 1], ms[|ms| - 1];
      MessagesSummarise(s, before, init);
      MessageSummarises(AddMessages(s, init), before + init, last);
      assert before + ms == before + init + [last];
    }
  }

  /** The order of the messages does not show. */
  lemma {:induction false} SummarisesPermuted(s: Records, a: seq<D.Message>, b: seq<D.Message>)
    requires Summarises(s, a) && multiset(a) == multiset(b)
    ensures Summarises(s, b)
  {
    hide SumOver, Bin, Grid, Holds, InRecords, SpanOf;
    GatherPermuted(a, b, RecordsIn());
    SpanOfPermuted(s.tables.rdata, Gather(a, RecordsIn()), Gather(b, RecordsIn()), EntryLength());
    forall f: D.Message -> int ensures SumOver(a, f) == SumOver(b, f) { SumOverPermuted(a, b, f); }
  }

  lemma {:induction false} NothingSummarised()
    ensures Summarises(NoRecords(), [])
  {
    hide SumOver, Grid, Holds;
    NoRecordsIsValid();
    SpanOfNothing(EntryLength());
    forall f: D.Message -> int ensures SumOver([], f) == 0 { SumOverNothing(f); }
  }
}
