/**
 * Observation windows of flows: a bounded table of open windows, closed by
 * inactivity, by capacity, on request, or when the capture session ends.
 */
module WindowManager {
  import opened Common

  type Id = nat

  datatype Packet = Packet(identity: Id, at: int, content: nat)

  datatype Key = Key(session: string, sequence: nat)

  datatype Closure = Inactivity | SessionEnd | Segmentation | Capacity

  datatype Window = Window(key: Key, identity: Id, packets: seq<Packet>, closure: Option<Closure>)
  {
    function LastAt(): int requires packets != [] { packets[|packets| - 1].at }

    /** One flow's packets in time order, each less than the timeout after the one before. */
    ghost predicate WellFormed(timeout: int)
    {
      && packets != []
      && (forall i :: 0 <= i < |packets| ==> packets[i].identity == identity)
      && (forall i :: 0 < i < |packets| ==> Follows(packets[i - 1], packets[i], timeout))
    }
  }

  predicate Follows(p: Packet, q: Packet, timeout: int) { p.at <= q.at < p.at + timeout }

  datatype Update = Update(active: Window, closed: seq<Window>)

  datatype WindowError = SessionEnded | TimeWentBack | NoActiveWindow | CoordinatorRefused

  type Table = map<Id, Window>

  /** Every packet of one flow, window after window. */
  ghost function Concat(history: seq<Window>, id: Id): seq<Packet>
  {
    if history == [] then []
    else
      var last := history[|history| - 1];
      Concat(history[..|history| - 1], id) + if last.identity == id then last.packets else []
  }

  ghost function Only(accepted: seq<Packet>, id: Id): seq<Packet>
  {
    if accepted == [] then []
    else
      var last := accepted[|accepted| - 1];
      Only(accepted[..|accepted| - 1], id) + if last.identity == id then [last] else []
  }

  /** `a` is evicted before `b`. */
  predicate Older(a: Window, b: Window)
    requires a.packets != [] && b.packets != []
  {
    a.LastAt() < b.LastAt() || (a.LastAt() == b.LastAt() && a.key.sequence <= b.key.sequence)
  }

  ghost predicate Filled(active: Table) { forall id :: id in active ==> active[id].packets != [] }

  ghost predicate IsOldest(active: Table, victim: Id)
    requires Filled(active)
  {
    victim in active && forall id :: id in active ==> Older(active[victim], active[id])
  }

  /** The `min` over the table, by last capture time, then sequence number. */
  method Oldest(active: Table) returns (victim: Id)
    requires active != map[] && Filled(active)
    ensures IsOldest(active, victim)
  {
    var left := active.Keys;
    victim :| victim in left;
    left := left - {victim};
    while left != {}
      invariant victim in active && left <= active.Keys
      invariant forall id :: id in active && id !in left ==> Older(active[victim], active[id])
      decreases |left|
    {
      var id :| id in left;
      left := left - {id};
      if !Older(active[victim], active[id]) { victim := id; }
    }
  }

  ghost predicate Increasing(ws: seq<Window>)
  {
    forall i, j :: 0 <= i < j < |ws| ==> ws[i].key.sequence < ws[j].key.sequence
  }

  /** Every window of the table is among these. */
  ghost predicate Contains(active: Table, ws: seq<Window>) { forall id :: id in active ==> active[id] in ws }

  ghost predicate Numbered(active: Table)
  {
    forall a, b :: a in active && b in active && active[a].key.sequence == active[b].key.sequence ==> a == b
  }

  /** Which of these flows has the window with the least sequence number. */
  method Earliest(active: Table, left: set<Id>) returns (least: Id)
    requires left != {} && left <= active.Keys
    ensures least in left && forall id :: id in left ==> active[least].key.sequence <= active[id].key.sequence
  {
    least :| least in left;
    var others := left - {least};
    while others != {}
      invariant least in left && others <= left
      invariant forall id :: id in left && id !in others ==> active[least].key.sequence <= active[id].key.sequence
      decreases |others|
    {
      var id :| id in others;
      others := others - {id};
      if active[id].key.sequence < active[least].key.sequence { least := id; }
    }
  }

  /** All flows of the table, each once. */
  ghost predicate Lists(active: Table, ids: seq<Id>)
    decreases |ids|
  {
    if ids == [] then active == map[] else ids[0] in active && Lists(active - {ids[0]}, ids[1..])
  }

  ghost function WindowsOf(active: Table, ids: seq<Id>): seq<Window>
    requires Lists(active, ids)
    decreases |ids|
  {
    if ids == [] then [] else [active[ids[0]]] + WindowsOf(active - {ids[0]}, ids[1..])
  }

  ghost predicate LeastFirst(active: Table, ids: seq<Id>)
    requires Lists(active, ids)
    decreases |ids|
  {
    ids != [] ==>
      && (forall id :: id in active ==> active[ids[0]].key.sequence <= active[id].key.sequence)
      && LeastFirst(active - {ids[0]}, ids[1..])
  }

  lemma {:induction false} WindowsAbove(active: Table, ids: seq<Id>, floor: int)
    requires Lists(active, ids) && forall id :: id in active ==> floor < active[id].key.sequence
    ensures forall w :: w in WindowsOf(active, ids) ==> floor < w.key.sequence
    decreases |ids|
  {
    if ids != [] { WindowsAbove(active - {ids[0]}, ids[1..], floor); }
  }

  lemma {:induction false} WindowsIncrease(active: Table, ids: seq<Id>)
    requires Numbered(active) && Lists(active, ids) && LeastFirst(active, ids)
    ensures Increasing(WindowsOf(active, ids)) && |WindowsOf(active, ids)| == |active|
    decreases |ids|
  {
    if ids != [] {
      var left := active - {ids[0]};
      Smaller(active, ids[0]);
      WindowsIncrease(left, ids[1..]);
      WindowsAbove(left, ids[1..], active[ids[0]].key.sequence);
      hide Lists, LeastFirst, Numbered;
      PrependIncreasing(active[ids[0]], WindowsOf(left, ids[1..]));
    }
  }

  lemma {:induction false} PrependIncreasing(w: Window, ws: seq<Window>)
    requires Increasing(ws) && forall v :: v in ws ==> w.key.sequence < v.key.sequence
    ensures Increasing([w] + ws)
  { }

  lemma {:induction false} WindowsContain(active: Table, ids: seq<Id>, id: Id)
    requires Lists(active, ids) && id in active
    ensures active[id] in WindowsOf(active, ids)
    decreases |ids|
  {
    if id != ids[0] { WindowsContain(active - {ids[0]}, ids[1..], id); }
  }

  /** The sorted windows are those of the table, in order. */
  lemma {:induction false} SortedWindows(active: Table, ids: seq<Id>)
    requires Numbered(active) && Lists(active, ids) && LeastFirst(active, ids)
    ensures var ws := WindowsOf(active, ids);
            Increasing(ws) && |ws| == |active| && Contains(active, ws)
  {
    WindowsIncrease(active, ids);
    forall id | id in active ensures active[id] in WindowsOf(active, ids) { WindowsContain(active, ids, id); }
  }

  /** The `sorted` over the table, by sequence number; `ids` are the flows in that order. */
  method Sorted(active: Table) returns (ws: seq<Window>, ghost ids: seq<Id>)
    requires Numbered(active)
    ensures Increasing(ws) && |ws| == |active| && Contains(active, ws)
    ensures Lists(active, ids) && LeastFirst(active, ids) && ws == WindowsOf(active, ids)
    decreases |active|
  {
    hide Increasing;
    if |active| == 0 {
      assert active == map[];
      SortedWindows(active, []);
      return [], [];
    }
    NonEmpty(active);
    var least := Earliest(active, active.Keys);
    Smaller(active, least);
    var rest;
    ghost var others;
    rest, others := Sorted(active - {least});
    ws, ids := [active[least]] + rest, [least] + others;
    assert ids[1..] == others;
    SortedWindows(active, ids);
  }

  lemma {:induction false} Smaller(active: Table, id: Id)
    requires id in active
    ensures |active - {id}| == |active| - 1
  {
    assert (active - {id}).Keys == active.Keys - {id};
  }

  lemma {:induction false} NonEmpty(active: Table)
    requires |active| > 0
    ensures active.Keys != {} && active != map[]
  {
    assert |active.Keys| == |active|;
  }

  /** A window as it is handed out closed. */
  function Closed(w: Window, reason: Closure): Window { w.(closure := Some(reason)) }

  // ---------------------------------------------------------------- what every run keeps

  /** `history[n]`: the window with sequence number `n` as it is now. */
  ghost predicate Recorded(history: seq<Window>, active: Table, session: string, timeout: int)
  {
    && (forall n :: 0 <= n < |history| ==> history[n].key == Key(session, n) && history[n].WellFormed(timeout))
    && (forall id :: id in active ==>
          && active[id].identity == id && active[id].closure.None?
          && active[id].key.sequence < |history| && history[active[id].key.sequence] == active[id])
    && (forall n :: 0 <= n < |history| && history[n].closure.None?
                    ==> history[n].identity in active && active[history[n].identity] == history[n])
  }

  /** The log of closures: distinct sequence numbers, exactly those of the windows that are closed. */
  ghost predicate Logged(history: seq<Window>, log: seq<nat>)
  {
    && (forall i, j :: 0 <= i < j < |log| ==> log[i] != log[j])
    && (forall n: nat :: n in log <==> n < |history| && history[n].closure.Some?)
  }

  ghost predicate Clocked(accepted: seq<Packet>, active: Table, latest: Option<int>)
  {
    && (forall i, j :: 0 <= i < j < |accepted| ==> accepted[i].at <= accepted[j].at)
    && latest == (if accepted == [] then None else Some(accepted[|accepted| - 1].at))
    && (forall id :: id in active ==> active[id].packets != [] && latest.Some? && active[id].LastAt() <= latest.value)
  }

  /** The windows of each flow, one after the other, hold its accepted packets: all of them, once, in order. */
  ghost predicate Partitioned(history: seq<Window>, accepted: seq<Packet>)
  {
    forall id :: Concat(history, id) == Only(accepted, id)
  }

  lemma {:induction false} ConcatAppend(history: seq<Window>, w: Window, id: Id)
    ensures Concat(history + [w], id) == Concat(history, id) + if w.identity == id then w.packets else []
  {
    assert (history + [w])[..|history|] == history;
  }

  lemma {:induction false} OnlyAppend(accepted: seq<Packet>, p: Packet, id: Id)
    ensures Only(accepted + [p], id) == Only(accepted, id) + if p.identity == id then [p] else []
  {
    assert (accepted + [p])[..|accepted|] == accepted;
  }

  /** A packet added to the last window of its flow comes last in the flow. */
  lemma {:induction false} ConcatExtend(history: seq<Window>, n: nat, p: Packet, id: Id)
    requires n < |history| && history[n].identity == p.identity
    requires forall m :: n < m < |history| ==> history[m].identity != p.identity
    ensures Concat(history[n := history[n].(packets := history[n].packets + [p])], id)
         == Concat(history, id) + if p.identity == id then [p] else []
  {
    var w := history[n].(packets := history[n].packets + [p]);
    var changed, k := history[n := w], |history| - 1;
    if n == k {
      assert changed[..k] == history[..k];
      assert Concat(history[..k], id) + (history[n].packets + [p])
             == Concat(history[..k], id) + history[n].packets + [p];
      assert Concat(history, id) + [] == Concat(history, id);
    } else {
      assert changed[..k] == history[..k][n := w];
      ConcatExtend(history[..k], n, p, id);
      assert p.identity == id ==> history[k].identity != id;
      assert Concat(history[..k], id) + [] == Concat(history[..k], id);
      assert Concat(changed[..k], id) + [] == Concat(changed[..k], id);
    }
  }

  /** Marking a window as closed moves no packet. */
  lemma {:induction false} ConcatClose(history: seq<Window>, n: nat, reason: Closure, id: Id)
    requires n < |history|
    ensures Concat(history[n := Closed(history[n], reason)], id) == Concat(history, id)
  {
    var changed, k := history[n := Closed(history[n], reason)], |history| - 1;
    if n == k {
      assert changed[..k] == history[..k];
    } else {
      assert changed[..k] == history[..k][n := Closed(history[n], reason)];
      ConcatClose(history[..k], n, reason, id);
    }
  }

  /** Only the last window of a flow can be open. */
  ghost predicate OpenIsLast(history: seq<Window>)
  {
    forall m, n :: 0 <= m < n < |history| && history[m].identity == history[n].identity ==> history[m].closure.Some?
  }

  /** Everything that holds between calls. */
  ghost predicate Kept(session: string, timeout: int, history: seq<Window>, active: Table, log: seq<nat>,
          accepted: seq<Packet>, latest: Option<int>)
  {
    && Recorded(history, active, session, timeout) && Logged(history, log) && OpenIsLast(history)
    && Clocked(accepted, active, latest) && Partitioned(history, accepted)
  }

  /** Once closed, a window never changes. */
  ghost predicate Final(before: seq<Window>, after: seq<Window>)
  {
    |before| <= |after| && forall n :: 0 <= n < |before| && before[n].closure.Some? ==> after[n] == before[n]
  }

  lemma {:induction false} FinalSame(history: seq<Window>)
    ensures Final(history, history)
  { }

  function Opened(session: string, sequence: nat, p: Packet): Window
  {
    Window(Key(session, sequence), p.identity, [p], None)
  }

  function Extended(w: Window, p: Packet): Window { w.(packets := w.packets + [p]) }

  /** A new window opens with a packet of a flow that has none. */
  lemma {:induction false} OpenKeeps(session: string, timeout: int, history: seq<Window>, active: Table, log: seq<nat>,
          accepted: seq<Packet>, latest: Option<int>, p: Packet)
    requires Kept(session, timeout, history, active, log, accepted, latest)
    requires p.identity !in active && (latest.Some? ==> latest.value <= p.at)
    ensures var w := Opened(session, |history|, p);
            && Kept(session, timeout, history + [w], active[p.identity := w], log, accepted + [p], Some(p.at))
            && Final(history, history + [w])
  {
    hide Concat, Only;
    var w := Opened(session, |history|, p);
    forall id ensures Concat(history + [w], id) == Only(accepted + [p], id) {
      ConcatAppend(history, w, id);
      OnlyAppend(accepted, p, id);
    }
  }

  /** A packet joins the open window of its flow. */
  lemma {:induction false} ExtendKeeps(session: string, timeout: int, history: seq<Window>, active: Table,
          log: seq<nat>, accepted: seq<Packet>, latest: Option<int>, p: Packet)
    requires Kept(session, timeout, history, active, log, accepted, latest)
    requires p.identity in active && latest.Some? && latest.value <= p.at && active[p.identity].packets != []
    requires p.at - active[p.identity].LastAt() < timeout
    ensures var w := Extended(active[p.identity], p);
            && Kept(session, timeout, history[w.key.sequence := w], active[p.identity := w], log, accepted + [p],
                    Some(p.at))
            && Final(history, history[w.key.sequence := w])
  {
    hide Concat, Only;
    var w := Extended(active[p.identity], p);
    var n := w.key.sequence;
    assert w.WellFormed(timeout);
    forall id ensures Concat(history[n := w], id) == Only(accepted + [p], id) {
      ConcatExtend(history, n, p, id);
      OnlyAppend(accepted, p, id);
    }
  }

  /** An open window closes. */
  lemma {:induction false} CloseKeeps(session: string, timeout: int, history: seq<Window>, active: Table,
          log: seq<nat>, accepted: seq<Packet>, latest: Option<int>, id: Id, reason: Closure)
    requires Kept(session, timeout, history, active, log, accepted, latest) && id in active
    ensures var n := active[id].key.sequence;
            && n < |history| && Kept(session, timeout, history[n := Closed(active[id], reason)], active - {id},
                                     log + [n], accepted, latest)
            && Final(history, history[n := Closed(active[id], reason)])
  {
    hide Concat, Only;
    var n := active[id].key.sequence;
    forall other ensures Concat(history[n := Closed(history[n], reason)], other) == Only(accepted, other) {
      ConcatClose(history, n, reason, other);
    }
  }

  // ---------------------------------------------------------------- inactivity

  /** The flow's next window begins no sooner than the timeout after this one's last packet. */
  ghost predicate FallsSilent(history: seq<Window>, n: nat, timeout: int)
    requires n < |history|
  {
    exists m: nat :: NextOfFlow(history, n, m) && history[m].packets[0].at - history[n].LastAt() >= timeout
  }

  ghost predicate NextOfFlow(history: seq<Window>, n: nat, m: nat)
    requires n < |history|
  {
    && n < m < |history| && history[m].identity == history[n].identity
    && history[n].packets != [] && history[m].packets != []
    && forall k :: n < k < m ==> history[k].identity != history[n].identity
  }

  /** Only a flow that fell silent has its window closed for inactivity. */
  ghost predicate SilencesAreReal(history: seq<Window>, timeout: int)
  {
    forall n: nat :: n < |history| && history[n].closure == Some(Inactivity) ==> FallsSilent(history, n, timeout)
  }

  /** Windows closed for inactivity stay, and all windows still begin with the packet they began with. */
  ghost predicate SameBeginnings(before: seq<Window>, after: seq<Window>)
  {
    && |before| <= |after|
    && forall n :: 0 <= n < |before| ==>
         && before[n].identity == after[n].identity && (before[n].closure == Some(Inactivity) ==> after[n] == before[n])
         && (before[n].packets != [] ==> after[n].packets != [] && after[n].packets[0] == before[n].packets[0])
  }

  lemma {:induction false} SilenceStays(before: seq<Window>, after: seq<Window>, n: nat, timeout: int)
    requires n < |before| && before[n].closure == Some(Inactivity) && SameBeginnings(before, after)
    requires FallsSilent(before, n, timeout)
    ensures FallsSilent(after, n, timeout)
  {
    var m: nat :| NextOfFlow(before, n, m) && before[m].packets[0].at - before[n].LastAt() >= timeout;
    assert after[n] == before[n];
    assert NextOfFlow(after, n, m);
  }

  /** No window is closed for inactivity by this. */
  lemma {:induction false} SilencesStay(before: seq<Window>, after: seq<Window>, timeout: int)
    requires SilencesAreReal(before, timeout) && SameBeginnings(before, after)
    requires forall n :: 0 <= n < |after| && after[n].closure == Some(Inactivity) ==>
               n < |before| && before[n].closure == Some(Inactivity)
    ensures SilencesAreReal(after, timeout)
  {
    hide FallsSilent;
    forall n: nat | n < |after| && after[n].closure == Some(Inactivity) ensures FallsSilent(after, n, timeout) {
      SilenceStays(before, after, n, timeout);
    }
  }

  /** A window closes because the packet that opens the next one came too late for it. */
  lemma {:induction false} SilenceIsReal(session: string, timeout: int, history: seq<Window>, active: Table,
          log: seq<nat>, accepted: seq<Packet>, latest: Option<int>, p: Packet)
    requires Kept(session, timeout, history, active, log, accepted, latest) && SilencesAreReal(history, timeout)
    requires p.identity in active && active[p.identity].packets != []
    requires p.at - active[p.identity].LastAt() >= timeout
    ensures var stale := active[p.identity];
            && stale.key.sequence < |history|
            && SilencesAreReal(history[stale.key.sequence := Closed(stale, Inactivity)]
                               + [Opened(session, |history|, p)], timeout)
  {
    hide Concat, Only, FallsSilent;
    var n := active[p.identity].key.sequence;
    var after := history[n := Closed(history[n], Inactivity)] + [Opened(session, |history|, p)];
    assert SameBeginnings(history, after);
    forall k: nat | k < |after| && after[k].closure == Some(Inactivity) ensures FallsSilent(after, k, timeout) {
      if k == n {
        assert NextOfFlow(after, n, |history|);
        SilenceOf(after, n, |history|, timeout);
      } else {
        SilenceStays(history, after, k, timeout);
      }
    }
  }

  lemma {:induction false} ClosingIsNotSilence(session: string, timeout: int, history: seq<Window>, active: Table,
          log: seq<nat>, accepted: seq<Packet>, latest: Option<int>, id: Id, reason: Closure)
    requires Kept(session, timeout, history, active, log, accepted, latest) && id in active && reason != Inactivity
    ensures var n := active[id].key.sequence;
            && n < |history|
            && (SilencesAreReal(history, timeout)
                ==> SilencesAreReal(history[n := Closed(active[id], reason)], timeout))
  {
    hide Concat, Only, FallsSilent;
    var n := active[id].key.sequence;
    if SilencesAreReal(history, timeout) {
      SilencesStay(history, history[n := Closed(active[id], reason)], timeout);
    }
  }

  lemma {:induction false} OpeningIsNotSilence(session: string, timeout: int, history: seq<Window>, p: Packet)
    requires SilencesAreReal(history, timeout)
    ensures SilencesAreReal(history + [Opened(session, |history|, p)], timeout)
  {
    hide FallsSilent;
    SilencesStay(history, history + [Opened(session, |history|, p)], timeout);
  }

  lemma {:induction false} ExtendingIsNotSilence(session: string, timeout: int, history: seq<Window>, active: Table,
          log: seq<nat>, accepted: seq<Packet>, latest: Option<int>, p: Packet)
    requires Kept(session, timeout, history, active, log, accepted, latest) && SilencesAreReal(history, timeout)
    requires p.identity in active && active[p.identity].packets != []
    ensures var w := Extended(active[p.identity], p);
            && w.key.sequence < |history| && SilencesAreReal(history[w.key.sequence := w], timeout)
  {
    hide Concat, Only, FallsSilent;
    var w := Extended(active[p.identity], p);
    SilencesStay(history, history[w.key.sequence := w], timeout);
  }

  lemma {:induction false} SilenceOf(history: seq<Window>, n: nat, m: nat, timeout: int)
    requires n < |history| && NextOfFlow(history, n, m)
    requires history[m].packets[0].at - history[n].LastAt() >= timeout
    ensures FallsSilent(history, n, timeout)
  { }

  // ---------------------------------------------------------------- what it means for a whole run

  ghost function AllPackets(history: seq<Window>): seq<Packet>
  {
    if history == [] then [] else AllPackets(history[..|history| - 1]) + history[|history| - 1].packets
  }

  lemma {:induction false} OnlyCounts(accepted: seq<Packet>, p: Packet)
    ensures multiset(Only(accepted, p.identity))[p] == multiset(accepted)[p]
  {
    if accepted != [] {
      var init := accepted[..|accepted| - 1];
      OnlyCounts(init, p);
      assert accepted == init + [accepted[|accepted| - 1]];
    }
  }

  lemma {:induction false} ConcatCounts(history: seq<Window>, timeout: int, p: Packet)
    requires forall n :: 0 <= n < |history| ==> history[n].WellFormed(timeout)
    ensures multiset(Concat(history, p.identity))[p] == multiset(AllPackets(history))[p]
  {
    if history != [] {
      ConcatCounts(history[..|history| - 1], timeout, p);
      var last := history[|history| - 1];
      assert last.WellFormed(timeout);
      assert last.identity != p.identity ==> p !in last.packets;
    }
  }

  /** Every accepted packet is in exactly one window. */
  lemma {:induction false} WindowsPartitionPackets(session: string, timeout: int, history: seq<Window>, active: Table,
          log: seq<nat>, accepted: seq<Packet>, latest: Option<int>)
    requires Kept(session, timeout, history, active, log, accepted, latest)
    ensures multiset(AllPackets(history)) == multiset(accepted)
  {
    forall p: Packet ensures multiset(AllPackets(history))[p] == multiset(accepted)[p] {
      ConcatCounts(history, timeout, p);
      OnlyCounts(accepted, p);
      assert Concat(history, p.identity) == Only(accepted, p.identity);
    }
  }

  /** After the session has ended, every sequence number used has been handed out closed exactly once. */
  lemma {:induction false} EveryWindowClosesOnce(session: string, timeout: int, history: seq<Window>, log: seq<nat>,
          accepted: seq<Packet>, latest: Option<int>)
    requires Kept(session, timeout, history, map[], log, accepted, latest)
    ensures forall n: nat :: n < |history| ==> multiset(log)[n] == 1
    ensures forall n: nat :: n >= |history| ==> multiset(log)[n] == 0
  {
    forall n: nat | n < |history| ensures multiset(log)[n] == 1 {
      assert n in log;
      OccursOnce(log, n);
    }
    forall n: nat | n >= |history| ensures multiset(log)[n] == 0 {
      assert n !in log;
    }
  }

  lemma {:induction false} OccursOnce(log: seq<nat>, n: nat)
    requires (forall i, j :: 0 <= i < j < |log| ==> log[i] != log[j]) && n in log
    ensures multiset(log)[n] == 1
  {
    var i :| 0 <= i < |log| && log[i] == n;
    assert log == log[..i] + [n] + log[i + 1..];
    assert n !in log[..i] && n !in log[i + 1..];
  }

  /** Whether a packet continues the open window of its flow. */
  predicate Continues(active: Table, timeout: int, p: Packet)
  {
    p.identity in active && active[p.identity].packets != [] && p.at - active[p.identity].LastAt() < timeout
  }

  function Sequences(ws: seq<Window>): (r: seq<nat>)
    ensures |r| == |ws| && forall i :: 0 <= i < |ws| ==> r[i] == ws[i].key.sequence
  {
    seq(|ws|, i requires 0 <= i < |ws| => ws[i].key.sequence)
  }

  lemma {:induction false} SequencesOfOne(ws: seq<Window>)
    requires |ws| <= 1
    ensures Sequences(ws) == if ws == [] then [] else [ws[0].key.sequence]
  { }

  /**
   * What taking a packet returns and leaves in the table. It closes the stale
   * window of its own flow, or the oldest of all when the table is full.
   */
  ghost predicate Recording(active: Table, limit: nat, timeout: int, session: string, sequence: nat, p: Packet,
          u: Update, active': Table)
    requires Filled(active)
  {
    if Continues(active, timeout, p) then
      u == Update(Extended(active[p.identity], p), []) && active' == active[p.identity := u.active]
    else
      && u.active == Opened(session, sequence, p)
      && if p.identity in active then
           u.closed == [Closed(active[p.identity], Inactivity)] && active' == active[p.identity := u.active]
         else if |active| < limit then u.closed == [] && active' == active[p.identity := u.active]
         else
           exists victim: Id ::
             victim in active && IsOldest(active, victim) && u.closed == [Closed(active[victim], Capacity)]
               && active' == (active - {victim})[p.identity := u.active]
  }

  lemma {:induction false} FilledTable(session: string, timeout: int, history: seq<Window>, active: Table,
          log: seq<nat>, accepted: seq<Packet>, latest: Option<int>)
    requires Kept(session, timeout, history, active, log, accepted, latest)
    ensures Filled(active) && (active != map[] ==> latest.Some?)
  { }

  lemma {:induction false} NumberedTable(session: string, timeout: int, history: seq<Window>, active: Table,
          log: seq<nat>, accepted: seq<Packet>, latest: Option<int>)
    requires Kept(session, timeout, history, active, log, accepted, latest)
    ensures Numbered(active)
  { }

  lemma {:induction false} TableOfKept(session: string, timeout: int, history: seq<Window>, active: Table,
          log: seq<nat>, accepted: seq<Packet>, latest: Option<int>, id: Id)
    requires Kept(session, timeout, history, active, log, accepted, latest) && id in active
    ensures active[id].identity == id && active[id].key.sequence < |history| && active[id].packets != [] && latest.Some?
  { }

  lemma {:induction false} Grows(active: Table, id: Id, w: Window)
    ensures |active[id := w]| == |active| + if id in active then 0 else 1
  {
    assert active[id := w].Keys == active.Keys + {id};
  }

  lemma {:induction false} SequencesConcat(w: Window, ws: seq<Window>, log: seq<nat>)
    ensures log + [w.key.sequence] + Sequences(ws) == log + Sequences([w] + ws)
    ensures log + Sequences([]) == log
  { }

  /** All open windows close, one after the other. */
  lemma {:induction false} CloseAllKeeps(session: string, timeout: int, history: seq<Window>, active: Table,
          log: seq<nat>, accepted: seq<Packet>, latest: Option<int>, ids: seq<Id>)
    returns (history': seq<Window>, log': seq<nat>)
    requires Kept(session, timeout, history, active, log, accepted, latest) && Lists(active, ids)
    ensures Kept(session, timeout, history', map[], log', accepted, latest) && |history'| == |history|
            && Final(history, history')
    ensures SilencesAreReal(history, timeout) ==> SilencesAreReal(history', timeout)
    ensures log' == log + Sequences(WindowsOf(active, ids))
    decreases |ids|
  {
    hide Kept, Sequences, SilencesAreReal;
    if ids == [] {
      history', log' := history, log;
      SequencesConcat(Opened(session, 0, Packet(0, 0, 0)), [], log);
    } else {
      var id, n := ids[0], active[ids[0]].key.sequence;
      CloseKeeps(session, timeout, history, active, log, accepted, latest, id, SessionEnd);
      ClosingIsNotSilence(session, timeout, history, active, log, accepted, latest, id, SessionEnd);
      history', log' := CloseAllKeeps(session, timeout, history[n := Closed(active[id], SessionEnd)], active - {id},
                                      log + [n], accepted, latest, ids[1..]);
      SequencesConcat(active[id], WindowsOf(active - {id}, ids[1..]), log);
    }
  }

  function AllClosed(ws: seq<Window>): (r: seq<Window>)
    ensures |r| == |ws| && forall i :: 0 <= i < |ws| ==> r[i] == Closed(ws[i], SessionEnd)
  {
    seq(|ws|, i requires 0 <= i < |ws| => Closed(ws[i], SessionEnd))
  }

  lemma {:induction false} ClosedSequences(active: Table, ws: seq<Window>)
    requires Increasing(ws) && Contains(active, ws)
    ensures Sequences(AllClosed(ws)) == Sequences(ws) && Increasing(AllClosed(ws))
    ensures forall id :: id in active ==> Closed(active[id], SessionEnd) in AllClosed(ws)
  {
    forall id | id in active ensures Closed(active[id], SessionEnd) in AllClosed(ws) {
      var i :| 0 <= i < |ws| && ws[i] == active[id];
      assert AllClosed(ws)[i] == Closed(active[id], SessionEnd);
    }
  }

  /** The open windows as they are handed out when the session ends. */
  method ClosedWindows(active: Table) returns (closed: seq<Window>, ghost ids: seq<Id>)
    requires Numbered(active)
    ensures Increasing(closed) && |closed| == |active|
    ensures forall id :: id in active ==> Closed(active[id], SessionEnd) in closed
    ensures Lists(active, ids) && Sequences(closed) == Sequences(WindowsOf(active, ids))
  {
    hide Lists, WindowsOf, Sequences, LeastFirst, Increasing, Numbered, AllClosed, Contains;
    var windows;
    windows, ids := Sorted(active);
    ClosedSequences(active, windows);
    closed := AllClosed(windows);
  }

  lemma {:induction false} RecordingOpens(active: Table, limit: nat, timeout: int, session: string, sequence: nat,
          p: Packet, closed: seq<Window>, victim: Id, active': Table)
    requires Filled(active) && !Continues(active, timeout, p)
    requires active' == Replaced(active, closed, victim, Opened(session, sequence, p))
    requires if p.identity in active then victim == p.identity && closed == [Closed(active[victim], Inactivity)]
             else if |active| < limit then closed == []
             else victim in active && IsOldest(active, victim) && closed == [Closed(active[victim], Capacity)]
    ensures Recording(active, limit, timeout, session, sequence, p, Update(Opened(session, sequence, p), closed),
                      active')
  {
    var w := Opened(session, sequence, p);
    if p.identity in active { assert (active - {p.identity})[p.identity := w] == active[p.identity := w]; }
  }

  lemma {:induction false} RecordingExtends(active: Table, limit: nat, timeout: int, session: string, sequence: nat,
          p: Packet)
    requires Filled(active) && Continues(active, timeout, p)
    ensures var w := Extended(active[p.identity], p);
            Recording(active, limit, timeout, session, sequence, p, Update(w, []), active[p.identity := w])
  { }

  /**
   * What has to close for a packet to open a window: nothing, the stale window of its
   * own flow, or one of another flow.
   */
  ghost predicate Displaces(active: Table, limit: nat, timeout: int, p: Packet, closed: seq<Window>, victim: Id)
  {
    if closed == [] then p.identity !in active && |active| < limit
    else
      && victim in active && active[victim].packets != []
      && if closed == [Closed(active[victim], Capacity)] then p.identity !in active
         else closed == [Closed(active[victim], Inactivity)] && victim == p.identity
              && p.at - active[victim].LastAt() >= timeout
  }

  /** The table with a new window in it, and without the one that closed for it. */
  function Replaced(active: Table, closed: seq<Window>, victim: Id, w: Window): Table
  {
    (if closed == [] then active else active - {victim})[w.identity := w]
  }

  /** What making room for a window does to the table. */
  lemma {:induction false} TableShrinks(session: string, limit: nat, timeout: int, history: seq<Window>, active: Table,
          log: seq<nat>, accepted: seq<Packet>, latest: Option<int>, p: Packet, closed: seq<Window>, victim: Id,
          w: Window)
    requires Kept(session, timeout, history, active, log, accepted, latest)
    requires Displaces(active, limit, timeout, p, closed, victim) && |active| <= limit
    requires w.identity == p.identity
    ensures |Replaced(active, closed, victim, w)| <= limit
    ensures Replaced(active, closed, victim, w)
         == if closed != [] && closed[0].closure == Some(Capacity) then (active - {closed[0].identity})[p.identity := w]
            else active[p.identity := w]
  {
    hide Kept;
    if closed != [] {
      TableOfKept(session, timeout, history, active, log, accepted, latest, victim);
      Smaller(active, victim);
      Grows(active - {victim}, p.identity, w);
    } else {
      Grows(active, p.identity, w);
    }
  }

  /** A new window opens, in place of the one that had to close for it if there is one. */
  lemma {:induction false} NewWindowKeeps(session: string, limit: nat, timeout: int, history: seq<Window>,
          active: Table, log: seq<nat>, accepted: seq<Packet>, latest: Option<int>, p: Packet, closed: seq<Window>,
          victim: Id) returns (history': seq<Window>, log': seq<nat>)
    requires Kept(session, timeout, history, active, log, accepted, latest) && SilencesAreReal(history, timeout)
    requires (latest.Some? ==> latest.value <= p.at) && Displaces(active, limit, timeout, p, closed, victim)
    ensures var w := Opened(session, |history|, p);
            && Kept(session, timeout, history', Replaced(active, closed, victim, w), log', accepted + [p], Some(p.at))
            && SilencesAreReal(history', timeout) && Final(history, history') && |history'| == |history| + 1
            && log' == log + Sequences(closed)
  {
    hide Kept, SilencesAreReal, Sequences;
    var w := Opened(session, |history|, p);
    SequencesOfOne(closed);
    if closed == [] {
      history', log' := history + [w], log;
      OpenKeeps(session, timeout, history, active, log, accepted, latest, p);
      OpeningIsNotSilence(session, timeout, history, p);
    } else {
      var n := active[victim].key.sequence;
      TableOfKept(session, timeout, history, active, log, accepted, latest, victim);
      CloseKeeps(session, timeout, history, active, log, accepted, latest, victim, closed[0].closure.value);
      var h := history[n := closed[0]];
      history', log' := h + [w], log + [n];
      OpenKeeps(session, timeout, h, active - {victim}, log', accepted, latest, p);
      if closed[0].closure == Some(Inactivity) {
        SilenceIsReal(session, timeout, history, active, log, accepted, latest, p);
      } else {
        ClosingIsNotSilence(session, timeout, history, active, log, accepted, latest, victim, Capacity);
        OpeningIsNotSilence(session, timeout, h, p);
      }
    }
  }

  class FlowObservationWindowManager {
    const session: string
    const timeout: int
    const limit: nat
    /** Whether the coordinator of a flow with these packets takes one more. */
    const accepts: (seq<Packet>, Packet) -> bool
    var nextSequence: nat
    var active: Table
    var latest: Option<int>
    var ended: bool
    ghost var accepted: seq<Packet>
    ghost var history: seq<Window>
    ghost var log: seq<nat>

    ghost predicate Valid()
      reads this
    {
      && timeout > 0 && limit >= 1 && nextSequence == |history| && |active| <= limit && (ended ==> active == map[])
      && Kept(session, timeout, history, active, log, accepted, latest) && SilencesAreReal(history, timeout)
    }

    constructor (session: string, timeout: int, limit: nat, accepts: (seq<Packet>, Packet) -> bool)
      requires timeout > 0 && limit >= 1
      ensures Valid() && this.session == session && this.timeout == timeout && this.limit == limit
              && this.accepts == accepts
      ensures nextSequence == 0 && active == map[] && accepted == [] && history == [] && log == [] && !ended
    {
      this.session, this.timeout, this.limit, this.accepts := session, timeout, limit, accepts;
      nextSequence, active, latest, ended := 0, map[], None, false;
      accepted, history, log := [], [], [];
    }

    /** A call that raises leaves everything as it was. */
    twostate predicate Untouched()
      reads this
    {
      && nextSequence == old(nextSequence) && active == old(active) && latest == old(latest) && ended == old(ended)
      && accepted == old(accepted) && history == old(history) && log == old(log)
    }

    /** `_record_new`: the first packet of a window, which may displace one. */
    method RecordNew(p: Packet, closed: seq<Window>, victim: Id) returns (r: Result<Update, WindowError>)
      requires Valid() && !ended && (latest.Some? ==> latest.value <= p.at)
      requires Displaces(active, limit, timeout, p, closed, victim)
      modifies this
      ensures Valid() && Final(old(history), history) && ended == old(ended) && (r.Err? <==> !accepts([], p))
      ensures r.Err? ==> Untouched() && r.error == CoordinatorRefused
      ensures r.Ok? ==>
                var w := Opened(session, old(nextSequence), p);
                && r.value == Update(w, closed) && nextSequence == old(nextSequence) + 1
                   && accepted == old(accepted) + [p]
                && active == Replaced(old(active), closed, victim, w)
                && log == old(log) + Sequences(closed)
    {
      hide Kept, SilencesAreReal, Sequences, Final, Displaces, Replaced;
      FinalSame(history);
      if !accepts([], p) { return Err(CoordinatorRefused); }
      var w := Opened(session, nextSequence, p);
      TableShrinks(session, limit, timeout, history, active, log, accepted, latest, p, closed, victim, w);
      ghost var h, l := NewWindowKeeps(session, limit, timeout, history, active, log, accepted, latest, p, closed,
                                       victim);
      var copy := active;
      if closed != [] && closed[0].closure == Some(Capacity) { copy := copy - {closed[0].identity}; }
      copy := copy[p.identity := w];
      assert copy == Replaced(active, closed, victim, w);
      active, nextSequence, latest := copy, nextSequence + 1, Some(p.at);
      history, log, accepted := h, l, accepted + [p];
      r := Ok(Update(w, closed));
    }

    /** `record`: a packet joins the open window of its flow, or opens one. */
    method Record(p: Packet) returns (r: Result<Update, WindowError>)
      requires Valid()
      modifies this
      ensures Valid() && Final(old(history), history) && ended == old(ended) && Filled(old(active))
      ensures var continues := Continues(old(active), timeout, p);
              var late := old(latest).Some? && p.at < old(latest).value;
              var refused := !accepts(if continues then old(active)[p.identity].packets else [], p);
              && (r.Err? <==> old(ended) || late || refused)
              && (r.Err? ==> r.error == if old(ended) then SessionEnded else if late then TimeWentBack
                             else CoordinatorRefused)
      ensures r.Err? ==> Untouched()
      ensures r.Ok? ==>
                && accepted == old(accepted) + [p]
                && Recording(old(active), limit, timeout, session, old(nextSequence), p, r.value, active)
                && nextSequence == old(nextSequence) + (if Continues(old(active), timeout, p) then 0 else 1)
                && log == old(log) + Sequences(r.value.closed)
    {
      hide Kept, SilencesAreReal, Recording, IsOldest, Final, Older, Sequences, Opened;
      SequencesOfOne([]);
      FinalSame(history);
      FilledTable(session, timeout, history, active, log, accepted, latest);
      if ended { return Err(SessionEnded); }
      if latest.Some? && p.at < latest.value { return Err(TimeWentBack); }
      if p.identity !in active {
        if |active| == limit {
          NonEmpty(active);
          var victim := Oldest(active);
          var closed := Closed(active[victim], Capacity);
          r := RecordNew(p, [closed], victim);
          if r.Ok? {
            RecordingOpens(old(active), limit, timeout, session, old(nextSequence), p, [closed], victim, active);
          }
        } else {
          r := RecordNew(p, [], p.identity);
          if r.Ok? {
            RecordingOpens(old(active), limit, timeout, session, old(nextSequence), p, [], p.identity, active);
          }
        }
      } else {
        var state := active[p.identity];
        if p.at - state.LastAt() >= timeout {
          r := RecordNew(p, [Closed(state, Inactivity)], p.identity);
          if r.Ok? {
            RecordingOpens(old(active), limit, timeout, session, old(nextSequence), p, [Closed(state, Inactivity)],
                           p.identity, active);
          }
        } else {
          if !accepts(state.packets, p) { return Err(CoordinatorRefused); }
          ExtendKeeps(session, timeout, history, active, log, accepted, latest, p);
          ExtendingIsNotSilence(session, timeout, history, active, log, accepted, latest, p);
          RecordingExtends(active, limit, timeout, session, nextSequence, p);
          TableOfKept(session, timeout, history, active, log, accepted, latest, p.identity);
          var w := Extended(state, p);
          Grows(active, p.identity, w);
          history, accepted := history[w.key.sequence := w], accepted + [p];
          active := active[p.identity := w];
          latest := Some(p.at);
          r := Ok(Update(w, []));
        }
      }
    }

    /** `close`: the open window of one flow ends on request. */
    method Close(identity: Id) returns (r: Result<Window, WindowError>)
      requires Valid()
      modifies this
      ensures Valid() && Final(old(history), history) && ended == old(ended) && accepted == old(accepted)
              && nextSequence == old(nextSequence)
      ensures r.Err? <==> old(ended) || identity !in old(active)
      ensures r.Err? ==> Untouched() && r.error == if old(ended) then SessionEnded else NoActiveWindow
      ensures r.Ok? ==>
                && r.value == Closed(old(active)[identity], Segmentation) && active == old(active) - {identity}
                && log == old(log) + [r.value.key.sequence]
    {
      hide Kept, SilencesAreReal, Sequences, Final;
      FinalSame(history);
      if ended { return Err(SessionEnded); }
      if identity !in active { return Err(NoActiveWindow); }
      ClosingIsNotSilence(session, timeout, history, active, log, accepted, latest, identity, Segmentation);
      CloseKeeps(session, timeout, history, active, log, accepted, latest, identity, Segmentation);
      Smaller(active, identity);
      var closed := Closed(active[identity], Segmentation);
      history, log := history[closed.key.sequence := closed], log + [closed.key.sequence];
      active := active - {identity};
      r := Ok(closed);
    }

    /** `end_capture_session`: every open window closes, in order of sequence number; a second call returns nothing. */
    method EndCaptureSession() returns (closed: seq<Window>)
      requires Valid()
      modifies this
      ensures Valid() && Final(old(history), history) && ended && accepted == old(accepted)
              && nextSequence == old(nextSequence)
      ensures old(ended) ==> closed == [] && log == old(log) && history == old(history)
      ensures !old(ended) ==> Increasing(closed) && |closed| == |old(active)| && log == old(log) + Sequences(closed)
      ensures !old(ended) ==> forall id :: id in old(active) ==> Closed(old(active)[id], SessionEnd) in closed
    {
      hide Kept, SilencesAreReal;
      if ended { return []; }
      hide Lists, WindowsOf, Sequences, Increasing, Final;
      NumberedTable(session, timeout, history, active, log, accepted, latest);
      ghost var ids;
      closed, ids := ClosedWindows(active);
      history, log := CloseAllKeeps(session, timeout, history, active, log, accepted, latest, ids);
      active := map[];
      ended := true;
    }

    /** `active_windows`: the open windows, in order of sequence number. */
    method ActiveWindows() returns (windows: seq<Window>)
      requires Valid()
      ensures Increasing(windows) && |windows| == |active| && Contains(active, windows)
    {
      NumberedTable(session, timeout, history, active, log, accepted, latest);
      ghost var ids;
      windows, ids := Sorted(active);
    }
  }
}
