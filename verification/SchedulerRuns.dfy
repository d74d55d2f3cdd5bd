/** Whole runs of the scheduler. The four-map service refines a reference scheduler that remembers, per
    item, only its last success and how its latest attempt ended; spacing, rate and lateness are then
    read off the reference. Configurations may change between any two ticks; a batch finishes under the
    configuration it was planned with. */
module SchedulerRuns {
  import opened Domain
  import opened Scheduler

  /** The last item with an id: its interval is the one the maps keep. */
  function LastWith(items: seq<BackupItem>, id: string): (x: BackupItem)
    requires id in IdsOf(items)
    ensures x in items && x.id == id
  {
    var n := |items| - 1;
    AddId(items, n);
    assert items[..n + 1] == items;
    if items[n].id == id then items[n] else LastWith(items[..n], id)
  }

  /** The interval each id is listed with last. */
  function Intervals(items: seq<BackupItem>): (m: map<string, int>)
    ensures m.Keys == IdsOf(items)
  {
    map id | id in IdsOf(items) :: LastWith(items, id).intervalMinutes
  }

  /** No item has a shorter interval than the last item with its id. */
  ghost predicate LastIsShortest(items: seq<BackupItem>) {
    forall x :: x in items ==>
      x.id in Intervals(items) && Interval(Intervals(items)[x.id]) <= Interval(x.intervalMinutes)
  }

  /** Unique ids, which the config store ensures, are a special case. */
  lemma UniqueIsLastShortest(items: seq<BackupItem>)
    requires UniqueIds(items)
    ensures LastIsShortest(items)
  {
    hide Interval;
    forall x | x in items
      ensures x.id in Intervals(items) && LastWith(items, x.id) == x
    {
      var i :| 0 <= i < |items| && items[i] == x;
      var y := LastWith(items, x.id);
      var j :| 0 <= j < |items| && items[j] == y;
      UniqueAt(items, i, j);
    }
  }

  lemma IntervalsGrow(items: seq<BackupItem>, n: nat)
    requires n < |items|
    ensures Intervals(items[..n + 1]) == Intervals(items[..n])[items[n].id := items[n].intervalMinutes]
  {
    AddId(items, n);
    assert items[..n + 1][..n] == items[..n];
  }

  function Select<T>(q: seq<T>, pick: T -> bool): seq<T> {
    if q == [] then [] else Select(q[..|q| - 1], pick) + (if pick(q[|q| - 1]) then [q[|q| - 1]] else [])
  }

  lemma {:induction false} SelectElems<T>(q: seq<T>, pick: T -> bool)
    ensures forall x :: x in Select(q, pick) <==> x in q && pick(x)
  {
    if q == [] {
    } else {
      SelectElems(q[..|q| - 1], pick);
      assert q == q[..|q| - 1] + [q[|q| - 1]];
    }
  }

  // ---------------------------------------------------------------- the cache

  /** The four maps agree: planned ids have an interval, only planned ids have a status, and after a
      success the next run is that success plus the interval in force. */
  ghost predicate Inv(s: Sched) {
    && s.nextRun.Keys == s.lastInterval.Keys
    && s.lastSuccess.Keys <= s.nextRun.Keys
    && s.lastError.Keys <= s.nextRun.Keys
    && forall id :: id in s.lastSuccess ==> s.nextRun[id] == s.lastSuccess[id] + Interval(s.lastInterval[id])
  }

  /** An item without a success is not scheduled past `clock`. */
  ghost predicate NoFuture(s: Sched, clock: int) {
    forall id :: id in s.nextRun && id !in s.lastSuccess ==> s.nextRun[id] <= clock
  }

  /** The rule an item is selected by: no success on record, or one at least an interval old. */
  predicate Ready(lastSuccess: map<string, int>, item: BackupItem, now: int) {
    item.id !in lastSuccess || lastSuccess[item.id] + Interval(item.intervalMinutes) <= now
  }

  function ReadyItems(lastSuccess: map<string, int>, items: seq<BackupItem>, now: int): seq<BackupItem> {
    Select(items, item => Ready(lastSuccess, item, now))
  }

  /** Every planned item so far had the interval already on record, so its next-run time stands. */
  ghost predicate Stands(s: Sched, items: seq<BackupItem>, n: nat, id: string)
    requires n <= |items|
  {
    && id in s.nextRun && id in s.lastInterval
    && forall j :: 0 <= j < n && items[j].id == id ==> items[j].intervalMinutes == s.lastInterval[id]
  }

  /** The maps after planning some items. */
  ghost predicate PlannedMaps(s: Sched, t: Sched, items: seq<BackupItem>, n: nat, now: int)
    requires n <= |items|
  {
    && Inv(t)
    && t.lastSuccess == s.lastSuccess && t.lastError == s.lastError
    && t.lastInterval == s.lastInterval + Intervals(items[..n])
    && (forall id :: id in s.nextRun && id !in IdsOf(items[..n]) ==> id in t.nextRun && t.nextRun[id] == s.nextRun[id])
    && Waiting(s, t, items, n, now)
  }

  /** A planned item without a success keeps the time it has been waiting since, unless its interval changed. */
  ghost predicate Waiting(s: Sched, t: Sched, items: seq<BackupItem>, n: nat, now: int)
    requires n <= |items|
  {
    forall id :: id in IdsOf(items[..n]) && id !in s.lastSuccess ==>
      id in t.nextRun && t.nextRun[id] == if Stands(s, items, n, id) then s.nextRun[id] else now
  }

  /** Nothing the cache holds back: the guard of the one branch where a stale next-run time decides. */
  predicate Unblocked(s: Sched, item: BackupItem, now: int) {
    (item.id in s.nextRun && item.id !in s.lastSuccess && item.id in s.lastInterval &&
      s.lastInterval[item.id] == item.intervalMinutes) ==> s.nextRun[item.id] <= now
  }

  lemma NextForMeaning(s: Sched, item: BackupItem, now: int)
    requires Inv(s)
    ensures NextFor(s, item, now) <= now <==> Ready(s.lastSuccess, item, now) && Unblocked(s, item, now)
  {
  }

  /** Planning one item keeps the cache, whatever was planned before it. */
  lemma PlanItemKeepsInv(s: Sched, item: BackupItem, now: int)
    requires Inv(s)
    ensures Inv(PlanItem(s, item, now))
  {
    hide Interval;
  }

  lemma PlannedMapsStep(s: Sched, t: Sched, items: seq<BackupItem>, n: nat, now: int)
    requires Inv(s) && n < |items| && PlannedMaps(s, t, items, n, now)
    ensures PlannedMaps(s, PlanItem(t, items[n], now), items, n + 1, now)
  {
    hide Interval, Intervals, IdsOf, Waiting, Inv, NextFor;
    PlanItemKeepsInv(t, items[n], now);
    AddId(items, n);
    IntervalsGrow(items, n);
    WaitingStep(s, t, items, n, now);
    assert s.lastInterval + Intervals(items[..n + 1]) ==
      (s.lastInterval + Intervals(items[..n]))[items[n].id := items[n].intervalMinutes];
  }

  lemma WaitingStep(s: Sched, t: Sched, items: seq<BackupItem>, n: nat, now: int)
    requires Inv(s) && n < |items| && PlannedMaps(s, t, items, n, now)
    ensures Waiting(s, PlanItem(t, items[n], now), items, n + 1, now)
  {
    hide Interval, IdsOf, NextFor, Inv, Intervals;
    AddId(items, n);
    if items[n].id !in s.lastSuccess {
      WaitingNext(s, t, items, n, now);
    }
    forall id | id in IdsOf(items[..n]) && id != items[n].id
      ensures Stands(s, items, n + 1, id) <==> Stands(s, items, n, id)
    {
    }
  }

  lemma WaitingNext(s: Sched, t: Sched, items: seq<BackupItem>, n: nat, now: int)
    requires Inv(s) && n < |items| && PlannedMaps(s, t, items, n, now) && items[n].id !in s.lastSuccess
    ensures NextFor(t, items[n], now) ==
            if Stands(s, items, n + 1, items[n].id) then s.nextRun[items[n].id] else now
  {
    hide Interval, LastWith;
    var id := items[n].id;
    if id !in IdsOf(items[..n]) {
      forall j | 0 <= j < n ensures items[j].id != id {
        assert items[..n][j].id in IdsOf(items[..n]);
      }
    } else if Stands(s, items, n, id) {
      var x := LastWith(items[..n], id);
      var j :| 0 <= j < n && items[..n][j] == x;
      assert items[j].intervalMinutes == s.lastInterval[id];
    }
  }

  /** No first item of its id, among the first `n`, is held back. */
  ghost predicate FirstsUnblocked(s: Sched, items: seq<BackupItem>, n: nat, now: int)
    requires n <= |items|
  {
    forall i :: 0 <= i < n && items[i].id !in IdsOf(items[..i]) ==> Unblocked(s, items[i], now)
  }

  /** What the planning loop has done after `n` items of any list: the cache is kept, each id has the
      interval it was listed with last, and what is selected are the ready items, less those held back. */
  lemma {:induction false} PlanItemsShape(s: Sched, items: seq<BackupItem>, n: nat, now: int)
    requires Inv(s) && n <= |items|
    ensures var (t, due) := PlanItems(s, items, n, now);
      var ready := ReadyItems(s.lastSuccess, items[..n], now);
      && PlannedMaps(s, t, items, n, now)
      && (FirstsUnblocked(s, items, n, now) ==>
            due == ready && forall id :: id in IdsOf(items[..n]) && id !in s.lastSuccess ==> t.nextRun[id] <= now)
      && |due| <= |ready|
      && (!FirstsUnblocked(s, items, n, now) ==> |due| < |ready|)
  {
    hide NextFor, PlannedMaps, Unblocked, Interval, Ready, IdsOf;
    if n == 0 {
      assert items[..0] == [];
      NothingPlanned(s, items, now);
    } else {
      var x := items[n - 1];
      var (t, due) := PlanItems(s, items, n - 1, now);
      PlanItemsShape(s, items, n - 1, now);
      PlannedMapsStep(s, t, items, n - 1, now);
      AddId(items, n - 1);
      assert items[..n][..n - 1] == items[..n - 1];
      NextInLoop(s, t, items, n - 1, now);
      assert FirstsUnblocked(s, items, n, now) <==>
             FirstsUnblocked(s, items, n - 1, now) && (x.id !in IdsOf(items[..n - 1]) ==> Unblocked(s, x, now));
    }
  }

  /** When the loop selects an item. */
  lemma NextInLoop(s: Sched, t: Sched, items: seq<BackupItem>, n: nat, now: int)
    requires Inv(s) && n < |items| && PlannedMaps(s, t, items, n, now)
    ensures var x, u := items[n], PlanItem(t, items[n], now);
      && (NextFor(t, x, now) <= now ==> Ready(s.lastSuccess, x, now))
      && (x.id !in IdsOf(items[..n]) ==>
            (NextFor(t, x, now) <= now <==> Ready(s.lastSuccess, x, now) && Unblocked(s, x, now)))
      && (x.id in IdsOf(items[..n]) && (x.id !in s.lastSuccess ==> t.nextRun[x.id] <= now) ==>
            (NextFor(t, x, now) <= now <==> Ready(s.lastSuccess, x, now)))
      && u.nextRun == t.nextRun[x.id := NextFor(t, x, now)]
      && (x.id !in s.lastSuccess || !Unblocked(s, x, now) ==> Ready(s.lastSuccess, x, now))
  {
    hide Interval, LastWith;
    NextForMeaning(t, items[n], now);
  }

  lemma NothingPlanned(s: Sched, items: seq<BackupItem>, now: int)
    requires Inv(s)
    ensures PlannedMaps(s, s, items, 0, now) && IdsOf(items[..0]) == {}
  {
    assert IdsOf(items[..0]) == {};
    assert s.lastInterval + Intervals(items[..0]) == s.lastInterval;
  }

  /** When planning selects exactly the ready items, for every list: if and only if the first item of each
      id is not held back by a next-run time in the future. */
  lemma PlanSelectsExactly(s: Sched, items: seq<BackupItem>, now: int)
    requires Inv(s)
    ensures Plan(s, items, now).1 == ReadyItems(s.lastSuccess, items, now) <==>
            forall i :: 0 <= i < |items| && items[i].id !in IdsOf(items[..i]) ==> Unblocked(s, items[i], now)
  {
    PlanItemsShape(s, items, |items|, now);
    assert items[..|items|] == items;
  }

  lemma StaleIsPast(s: Sched, item: BackupItem, clock: int, now: int)
    requires NoFuture(s, clock) && clock <= now
    ensures Unblocked(s, item, now)
  {
  }

  /** As long as the clock does not go back, planning is exact for every list. */
  lemma PlanIsExact(s: Sched, items: seq<BackupItem>, clock: int, now: int)
    requires Inv(s) && NoFuture(s, clock) && clock <= now
    ensures Plan(s, items, now).1 == ReadyItems(s.lastSuccess, items, now)
  {
    hide NoFuture, Inv;
    PlanSelectsExactly(s, items, now);
    forall i | 0 <= i < |items| ensures Unblocked(s, items[i], now) {
      StaleIsPast(s, items[i], clock, now);
    }
  }

  // ---------------------------------------------------------------- why the hypotheses

  lemma PlanOne(s: Sched, x: BackupItem, now: int)
    ensures PlanItems(s, [x], 1, now) == (PlanItem(s, x, now), if NextFor(s, x, now) <= now then [x] else [])
    ensures IdsOf([x]) == {x.id}
  {
    assert PlanItems(s, [x], 0, now) == (s, []);
    assert [x][0] == x && [] + [x] == [x];
  }

  /** The clock must not go back: an item planned at one instant, whose batch fails, is not selected at
      any earlier instant although it has no success. */
  lemma ClockSetBack(x: BackupItem, now: int, earlier: int, text: string)
    requires earlier < now
    ensures var s := Tick(INITIAL, Some([x]), now, Some(text));
      Plan(s, [x], earlier).1 == [] && ReadyItems(s.lastSuccess, [x], earlier) == [x]
  {
    PlanOne(INITIAL, x, now);
    var s := Tick(INITIAL, Some([x]), now, Some(text));
    assert s.nextRun == map[x.id := now] && s.lastSuccess == map[] && s.lastInterval == map[x.id := x.intervalMinutes];
    assert s.lastError.Keys == {x.id};
    PlanOne(s, x, earlier);
    SelectOne(x, item => Ready(s.lastSuccess, item, earlier));
  }

  lemma SelectOne(x: BackupItem, pick: BackupItem -> bool)
    ensures Select([x], pick) == if pick(x) then [x] else []
  {
    assert [x][..0] == [] && Select([x][..0], pick) == [] && [] + [x] == [x];
  }

  lemma PlanTwo(s: Sched, x: BackupItem, y: BackupItem, now: int)
    ensures var t := PlanItem(s, x, now);
      PlanItems(s, [x, y], 2, now) ==
      (PlanItem(t, y, now),
       if now < NextFor(s, x, now) then (if now < NextFor(t, y, now) then [] else [y])
       else if now < NextFor(t, y, now) then [x] else [x, y])
    ensures IdsOf([x, y]) == {x.id, y.id}
  {
    assert PlanItems(s, [x, y], 0, now) == (s, []);
    assert [x, y][0] == x && [x, y][1] == y && [] + [x] == [x] && [] + [y] == [y] && [x] + [y] == [x, y];
    assert PlanItems(s, [x, y], 1, now) == (PlanItem(s, x, now), if now < NextFor(s, x, now) then [] else [x]);
  }

  /** One id at 30 and at 60 minutes: what the first two ticks of an all-successful run leave. */
  lemma TwoIntervalsFirst(x: BackupItem, y: BackupItem)
    requires x.id == y.id && x.intervalMinutes == 30 && y.intervalMinutes == 60
    ensures Tick(INITIAL, Some([x, y]), 0, None)
         == Sched(map[x.id := 60 * MINUTE], map[x.id := 0], map[], map[x.id := 60])
  {
    var id, t := x.id, PlanItem(PlanItem(INITIAL, x, 0), y, 0);
    IntervalExact(60);
    PlanTwo(INITIAL, x, y, 0);
    assert {x.id, y.id} == {id};
    assert t.nextRun == map[id := 0] && t.lastInterval == map[id := 60];
    CleanupNothing(t, {id});
    SucceedTwo(t, x, y, 0);
  }

  lemma TwoIntervalsSecond(x: BackupItem, y: BackupItem)
    requires x.id == y.id && x.intervalMinutes == 30 && y.intervalMinutes == 60
    ensures Tick(Tick(INITIAL, Some([x, y]), 0, None), Some([x, y]), 30 * MINUTE, None)
         == Sched(map[x.id := 60 * MINUTE], map[x.id := 30 * MINUTE], map[], map[x.id := 60])
  {
    var id := x.id;
    var s := Sched(map[id := 60 * MINUTE], map[id := 0], map[], map[id := 60]);
    TwoIntervalsFirst(x, y);
    IntervalExact(30);
    IntervalExact(60);
    PlanTwo(s, x, y, 30 * MINUTE);
    assert {x.id, y.id} == {id};
    var t := PlanItem(PlanItem(s, x, 30 * MINUTE), y, 30 * MINUTE);
    assert t.nextRun == map[id := 60 * MINUTE] && t.lastInterval == map[id := 60];
    CleanupNothing(t, {id});
    assert Succeed(t, [x], 0, 30 * MINUTE) == t;
  }

  /** The list [30 minutes, 60 minutes] of one id, where the last item is not the shortest: the third tick
      selects the 60-minute item 30 minutes after its last success. */
  lemma DuplicateIds(x: BackupItem, y: BackupItem)
    requires x.id == y.id && x.intervalMinutes == 30 && y.intervalMinutes == 60
    ensures var s1 := Tick(INITIAL, Some([x, y]), 0, None);
      var s2 := Tick(s1, Some([x, y]), 30 * MINUTE, None);
      && Plan(s2, [y], 60 * MINUTE).1 == [y]
      && ReadyItems(s2.lastSuccess, [y], 60 * MINUTE) == []
  {
    hide Tick;
    var s2 := Tick(Tick(INITIAL, Some([x, y]), 0, None), Some([x, y]), 30 * MINUTE, None);
    TwoIntervalsSecond(x, y);
    IntervalExact(60);
    PlanOne(s2, y, 60 * MINUTE);
    SelectOne(y, item => Ready(s2.lastSuccess, item, 60 * MINUTE));
  }

  lemma CleanupNothing(t: Sched, ids: set<string>)
    requires t.nextRun.Keys <= ids
    ensures Cleanup(t, ids) == t
  {
    assert t.nextRun.Keys - ids == {};
    assert t.nextRun - {} == t.nextRun && t.lastSuccess - {} == t.lastSuccess;
    assert t.lastError - {} == t.lastError && t.lastInterval - {} == t.lastInterval;
  }

  lemma SucceedTwo(s: Sched, x: BackupItem, y: BackupItem, at: int)
    ensures Succeed(s, [x, y], 2, at) == Succeed(Succeed(s, [x], 1, at), [y], 1, at)
  {
    assert Succeed(s, [x, y], 0, at) == s && Succeed(s, [x], 0, at) == s;
    assert [x, y][0] == x && [x, y][1] == y;
    assert Succeed(s, [x, y], 1, at) == Succeed(s, [x], 1, at);
    assert Succeed(Succeed(s, [x], 1, at), [y], 0, at) == Succeed(s, [x], 1, at);
  }

  // ---------------------------------------------------------------- runs

  datatype Phase = Idle | Running(due: seq<BackupItem>, at: int)

  datatype Machine = Machine(s: Sched, phase: Phase)

  /** What can happen at a lock-free point. Configurations, clock readings and outcomes are arbitrary. */
  datatype Event = LoadFailed | Planned(items: seq<BackupItem>, now: int) | Finished(end: BatchEnd)

  predicate Enabled(phase: Phase, e: Event) {
    e.Finished? <==> phase.Running?
  }

  function PhaseOf(due: seq<BackupItem>, now: int): Phase {
    if due == [] then Idle else Running(due, now)
  }

  function Step(m: Machine, e: Event): Machine
    requires Enabled(m.phase, e)
  {
    match e
    case LoadFailed => m
    case Planned(items, now) => var (s, due) := Plan(m.s, items, now); Machine(s, PhaseOf(due, now))
    case Finished(end) => Machine(Commit(m.s, m.phase.due, m.phase.at, end), Idle)
  }

  /** A plan and its finish are one tick of the service. */
  lemma TickIsPlanThenFinish(s: Sched, items: seq<BackupItem>, now: int, end: BatchEnd)
    ensures var m := Step(Machine(s, Idle), Planned(items, now));
      Tick(s, Some(items), now, end) == if m.phase.Idle? then m.s else Step(m, Finished(end)).s
  {
  }

  /** The reference scheduler: the ids of the last configuration planned with their intervals, the last
      success of each, and how the latest attempt at each ended. */
  datatype Ref = Ref(
    interval: map<string, int>, lastSuccess: map<string, int>, latest: map<string, BatchEnd>, phase: Phase)

  const REF_INITIAL := Ref(map[], map[], map[], Idle)

  function Only<V>(m: map<string, V>, ids: set<string>): map<string, V> {
    map id | id in m && id in ids :: m[id]
  }

  function All<V>(ids: set<string>, v: V): map<string, V> {
    map id | id in ids :: v
  }

  function RefStep(r: Ref, e: Event): Ref
    requires Enabled(r.phase, e)
  {
    match e
    case LoadFailed => r
    case Planned(items, now) =>
      Ref(Intervals(items), Only(r.lastSuccess, IdsOf(items)), Only(r.latest, IdsOf(items)),
          PhaseOf(ReadyItems(r.lastSuccess, items, now), now))
    case Finished(end) =>
      var ids := IdsOf(r.phase.due);
      Ref(r.interval, if end.None? then r.lastSuccess + All(ids, r.phase.at) else r.lastSuccess,
          r.latest + All(ids, end), Idle)
  }

  function Failures(latest: map<string, BatchEnd>): map<string, string> {
    map id | id in latest && latest[id].Some? :: latest[id].value
  }

  /** The service is at the same point as the reference, and its maps say exactly what the reference knows. */
  ghost predicate Coupled(m: Machine, r: Ref, clock: int) {
    && m.phase == r.phase
    && m.s.lastInterval == r.interval
    && m.s.lastSuccess == r.lastSuccess
    && m.s.lastError == Failures(r.latest)
    && r.latest.Keys <= r.interval.Keys
    && Inv(m.s) && NoFuture(m.s, clock)
    && (m.phase.Running? ==> IdsOf(m.phase.due) <= m.s.nextRun.Keys)
  }

  /** The running batch has, for each of its ids, the duration on record that its last item asks for. */
  ghost predicate BatchKnown(s: Sched, due: seq<BackupItem>) {
    forall id :: id in IdsOf(due) ==>
      id in s.lastInterval && Interval(Intervals(due)[id]) == Interval(s.lastInterval[id])
  }

  /** Nothing is running, or the cache survives the commit. */
  ghost predicate Committable(m: Machine) {
    m.phase.Running? ==> BatchKnown(m.s, m.phase.due)
  }

  lemma CleanupShape(t: Sched, ids: set<string>)
    requires t.lastSuccess.Keys <= t.nextRun.Keys && t.lastError.Keys <= t.nextRun.Keys
    requires t.nextRun.Keys == t.lastInterval.Keys && ids <= t.nextRun.Keys
    ensures var s := Cleanup(t, ids);
      && s.nextRun == Only(t.nextRun, ids) && s.lastInterval == Only(t.lastInterval, ids)
      && s.lastSuccess == Only(t.lastSuccess, ids) && s.lastError == Only(t.lastError, ids)
      && s.nextRun.Keys == ids
  {
  }

  /** Planning keeps service and reference together for every list, in particular selecting what the rule
      says; and the batch is one whose commit the cache survives if the list's last items are shortest. */
  lemma PlanCouples(m: Machine, r: Ref, clock: int, items: seq<BackupItem>, now: int)
    requires Coupled(m, r, clock) && m.phase.Idle? && clock <= now
    ensures Coupled(Step(m, Planned(items, now)), RefStep(r, Planned(items, now)), now)
    ensures LastIsShortest(items) ==> Committable(Step(m, Planned(items, now)))
  {
    hide Inv, NoFuture, Plan, BatchKnown, LastIsShortest, IdsOf;
    PlanKeepsInv(m.s, items, now);
    PlanIsExact(m.s, items, clock, now);
    FailuresOnly(r.latest, IdsOf(items));
    SelectedIds(r.lastSuccess, items, now);
    InvKeys(Plan(m.s, items, now).0);
    BatchIsReady(m.s, items, now);
  }

  lemma InvKeys(s: Sched)
    requires Inv(s)
    ensures s.nextRun.Keys == s.lastInterval.Keys
  {
  }

  lemma SelectedIds(lastSuccess: map<string, int>, items: seq<BackupItem>, now: int)
    ensures IdsOf(ReadyItems(lastSuccess, items, now)) <= IdsOf(items)
  {
    var due := ReadyItems(lastSuccess, items, now);
    SelectElems(items, item => Ready(lastSuccess, item, now));
    forall id | id in IdsOf(due) ensures id in IdsOf(items) {
      var i :| 0 <= i < |due| && due[i].id == id;
      assert due[i] in items;
    }
  }

  lemma FailuresOnly(latest: map<string, BatchEnd>, ids: set<string>)
    ensures Only(Failures(latest), ids) == Failures(Only(latest, ids))
  {
  }

  /** Planning any list keeps the cache, for exactly the ids it planned, whatever the clock does; and no
      next run of an item without a success lies in the future unless one did before. */
  lemma PlanKeepsInv(s: Sched, items: seq<BackupItem>, now: int)
    requires Inv(s)
    ensures var t := Plan(s, items, now).0;
      && Inv(t)
      && t.lastInterval == Intervals(items)
      && t.lastSuccess == Only(s.lastSuccess, IdsOf(items)) && t.lastError == Only(s.lastError, IdsOf(items))
      && forall clock :: NoFuture(s, clock) && clock <= now ==> NoFuture(t, now)
  {
    hide Interval, Intervals, IdsOf, Unblocked, PlanItems, Waiting, NoFuture;
    var ids, u := IdsOf(items), PlanItems(s, items, |items|, now).0;
    PlanItemsShape(s, items, |items|, now);
    assert items[..|items|] == items;
    CleanupKeepsInv(u, ids);
    assert Only(u.lastInterval, ids) == Intervals(items);
    if clock :| NoFuture(s, clock) && clock <= now {
      assert FirstsUnblocked(s, items, |items|, now) by {
        forall i | 0 <= i < |items| ensures Unblocked(s, items[i], now) {
          StaleIsPast(s, items[i], clock, now);
        }
      }
      CleanupKeepsPast(u, ids, now);
    }
  }

  /** Forgetting all but the planned ids keeps the cache. */
  lemma CleanupKeepsInv(u: Sched, ids: set<string>)
    requires Inv(u) && ids <= u.nextRun.Keys
    ensures var t := Cleanup(u, ids);
      && Inv(t)
      && t.lastInterval == Only(u.lastInterval, ids)
      && t.lastSuccess == Only(u.lastSuccess, ids) && t.lastError == Only(u.lastError, ids)
  {
    hide Interval, Cleanup;
    CleanupShape(u, ids);
  }

  lemma CleanupKeepsPast(u: Sched, ids: set<string>, now: int)
    requires Inv(u) && ids <= u.nextRun.Keys
    requires forall id :: id in ids && id !in u.lastSuccess ==> u.nextRun[id] <= now
    ensures NoFuture(Cleanup(u, ids), now)
  {
    hide Interval, Cleanup;
    CleanupShape(u, ids);
  }

  /** What has been selected after part of a list: ready items only; an item without a success is not held
      back once another with its id was selected; and the last item with an id is the last selected one, if
      it is ready or, without a success, if any is. */
  ghost predicate Chosen(s: Sched, t: Sched, due: seq<BackupItem>, items: seq<BackupItem>, now: int) {
    && (forall x :: x in due ==> x in items && Ready(s.lastSuccess, x, now))
    && (forall id :: id in IdsOf(due) && id !in s.lastSuccess ==> id in t.nextRun && t.nextRun[id] <= now)
    && (forall id :: id in IdsOf(items) ==>
          (if id in s.lastSuccess then Ready(s.lastSuccess, LastWith(items, id), now) else id in IdsOf(due)) ==>
            id in IdsOf(due) && LastWith(due, id) == LastWith(items, id))
  }

  lemma ChosenStep(s: Sched, t: Sched, due: seq<BackupItem>, items: seq<BackupItem>, x: BackupItem, now: int)
    requires Inv(t) && t.lastSuccess == s.lastSuccess && Chosen(s, t, due, items, now)
    ensures Chosen(s, PlanItem(t, x, now), if now < NextFor(t, x, now) then due else due + [x], items + [x], now)
  {
    hide Interval, NextFor, Inv, IdsOf, Unblocked;
    NextForMeaning(t, x, now);
    BlockedHasNoSuccess(t, x, now);
    forall id ensures id in IdsOf(items + [x]) <==> id in IdsOf(items) || id == x.id {
      AppendLast(items, x, id);
      AppendLast(due, x, id);
    }
    forall id | id in IdsOf(items + [x])
      ensures LastWith(items + [x], id) == if x.id == id then x else LastWith(items, id)
    {
      AppendLast(items, x, id);
    }
    forall id ensures id in IdsOf(due + [x]) <==> id in IdsOf(due) || id == x.id {
      AppendLast(due, x, id);
    }
    forall id | id in IdsOf(due + [x]) ensures LastWith(due + [x], id) == if x.id == id then x else LastWith(due, id) {
      AppendLast(due, x, id);
    }
  }

  /** Only an item without a success, with a next run ahead, is held back. */
  lemma BlockedHasNoSuccess(s: Sched, x: BackupItem, now: int)
    ensures !Unblocked(s, x, now) ==> x.id !in s.lastSuccess && x.id in s.nextRun && now < s.nextRun[x.id]
    ensures x.id !in s.lastSuccess ==> Ready(s.lastSuccess, x, now)
  {
  }

  lemma LoopKeepsInv(s: Sched, items: seq<BackupItem>, n: nat, now: int)
    requires Inv(s) && n <= |items|
    ensures var t := PlanItems(s, items, n, now).0; Inv(t) && t.lastSuccess == s.lastSuccess
  {
    hide PlanItems, Inv;
    PlanItemsShape(s, items, n, now);
  }

  lemma {:induction false} PlanItemsChoose(s: Sched, items: seq<BackupItem>, n: nat, now: int)
    requires Inv(s) && n <= |items|
    ensures var (t, due) := PlanItems(s, items, n, now); Chosen(s, t, due, items[..n], now)
  {
    hide NextFor, Chosen, Inv, Interval;
    if n == 0 {
      assert items[..0] == [];
      NothingChosen(s, now);
    } else {
      var (t, due) := PlanItems(s, items, n - 1, now);
      PlanItemsChoose(s, items, n - 1, now);
      LoopKeepsInv(s, items, n - 1, now);
      ChosenStep(s, t, due, items[..n - 1], items[n - 1], now);
      assert items[..n] == items[..n - 1] + [items[n - 1]];
    }
  }

  lemma NothingChosen(s: Sched, now: int)
    ensures Chosen(s, s, [], [], now)
  {
  }

  /** The batch a plan selects, for every list and whatever the clock does: items that are ready; and if the
      list's last items are shortest, a batch whose commit the cache survives. */
  lemma BatchIsReady(s: Sched, items: seq<BackupItem>, now: int)
    requires Inv(s)
    ensures var (t, due) := Plan(s, items, now);
      && (forall x :: x in due ==> x in items && Ready(t.lastSuccess, x, now))
      && (LastIsShortest(items) ==> BatchKnown(t, due))
  {
    hide Interval, PlanItems, Inv, Cleanup;
    var (t, due) := Plan(s, items, now);
    PlanItemsChoose(s, items, |items|, now);
    assert items[..|items|] == items;
    PlanKeepsInv(s, items, now);
    if LastIsShortest(items) {
      forall id | id in IdsOf(due)
        ensures id in IdsOf(items) && LastWith(due, id) == LastWith(items, id)
      {
        var i :| 0 <= i < |due| && due[i].id == id;
        assert due[i] in items;
        assert Interval(Intervals(items)[id]) <= Interval(due[i].intervalMinutes);
      }
    }
  }

  lemma AppendLast(q: seq<BackupItem>, x: BackupItem, id: string)
    ensures id in IdsOf(q + [x]) <==> id in IdsOf(q) || id == x.id
    ensures id in IdsOf(q + [x]) ==> LastWith(q + [x], id) == if x.id == id then x else LastWith(q, id)
  {
    var r := q + [x];
    AddId(r, |q|);
    assert r[..|q|] == q && r[..|q| + 1] == r;
  }

  /** The next run of each id of a batch that succeeded at `at`: within one id the last item decides. */
  function NextRuns(due: seq<BackupItem>, at: int): (m: map<string, int>)
    ensures m.Keys == IdsOf(due)
  {
    map id | id in Intervals(due) :: at + Interval(Intervals(due)[id])
  }

  /** The maps once the batch `due` is committed as a success at `at`. */
  ghost predicate Succeeded(s: Sched, t: Sched, due: seq<BackupItem>, at: int) {
    && t.nextRun == s.nextRun + NextRuns(due, at)
    && t.lastSuccess == s.lastSuccess + All(IdsOf(due), at)
    && t.lastError == s.lastError - IdsOf(due)
    && t.lastInterval == s.lastInterval
  }

  lemma NextRunsGrow(due: seq<BackupItem>, n: nat, at: int)
    requires n < |due|
    ensures NextRuns(due[..n + 1], at) == NextRuns(due[..n], at)[due[n].id := at + Interval(due[n].intervalMinutes)]
  {
    hide Interval, Intervals;
    IntervalsGrow(due, n);
  }

  lemma SucceededStep(s: Sched, t: Sched, due: seq<BackupItem>, n: nat, at: int)
    requires n < |due| && Succeeded(s, t, due[..n], at)
    ensures var id := due[n].id;
      Succeeded(s, Sched(t.nextRun[id := at + Interval(due[n].intervalMinutes)], t.lastSuccess[id := at],
                         t.lastError - {id}, t.lastInterval), due[..n + 1], at)
  {
    hide Interval, NextRuns, IdsOf;
    var ids, id := IdsOf(due[..n]), due[n].id;
    AddId(due, n);
    NextRunsGrow(due, n, at);
    assert s.lastSuccess + All(ids + {id}, at) == (s.lastSuccess + All(ids, at))[id := at];
    assert s.lastError - (ids + {id}) == s.lastError - ids - {id};
  }

  /** The commit loop, for every batch. */
  lemma {:induction false} SucceedShape(s: Sched, due: seq<BackupItem>, n: nat, at: int)
    requires n <= |due|
    ensures Succeeded(s, Succeed(s, due, n, at), due[..n], at)
  {
    hide Interval, Succeeded;
    if n == 0 {
      assert due[..0] == [];
      NothingSucceeded(s, at);
    } else {
      SucceedShape(s, due, n - 1, at);
      SucceededStep(s, Succeed(s, due, n - 1, at), due, n - 1, at);
    }
  }

  lemma NothingSucceeded(s: Sched, at: int)
    ensures Succeeded(s, s, [], at)
  {
    assert IdsOf([]) == {};
    assert s.nextRun + NextRuns([], at) == s.nextRun;
    assert s.lastSuccess + All({}, at) == s.lastSuccess && s.lastError - {} == s.lastError;
  }

  /** Only a commit can break the cache, and it does so exactly when some id's last due item asks for
      another duration than the one on record. */
  lemma CommitKeepsCacheExact(s: Sched, due: seq<BackupItem>, at: int)
    requires Inv(s) && IdsOf(due) <= s.nextRun.Keys
    ensures Inv(Succeed(s, due, |due|, at)) <==>
            forall id :: id in IdsOf(due) ==> Interval(Intervals(due)[id]) == Interval(s.lastInterval[id])
  {
    hide Interval, Intervals, IdsOf, Succeed;
    var t := Succeed(s, due, |due|, at);
    SucceedShape(s, due, |due|, at);
    assert due[..|due|] == due;
    assert forall id :: id in IdsOf(due) ==>
      t.lastSuccess[id] == at && t.nextRun[id] == at + Interval(Intervals(due)[id]);
    assert forall id :: id in s.lastSuccess && id !in IdsOf(due) ==>
      t.lastSuccess[id] == s.lastSuccess[id] && t.nextRun[id] == s.nextRun[id];
  }

  /** A failed batch always leaves service and reference together; a successful one does so if and only if
      the durations its last items ask for are those on record. */
  lemma FinishCouples(m: Machine, r: Ref, clock: int, end: BatchEnd)
    requires Coupled(m, r, clock) && m.phase.Running?
    ensures Coupled(Step(m, Finished(end)), RefStep(r, Finished(end)), clock) <==> end.Some? || Committable(m)
  {
    hide Interval, Inv, NoFuture, BatchKnown, Succeed, Failures, IdsOf;
    var due, at := m.phase.due, m.phase.at;
    FailuresAfter(r.latest, IdsOf(due), end);
    InvKeys(m.s);
    if end.None? {
      assert due[..|due|] == due;
      SucceedShape(m.s, due, |due|, at);
      SucceedKeepsInv(m.s, due, at);
    } else {
      FailKeepsInv(m.s, due, end.value);
    }
  }

  lemma SucceedKeepsInv(s: Sched, due: seq<BackupItem>, at: int)
    requires Inv(s) && IdsOf(due) <= s.nextRun.Keys
    ensures Inv(Succeed(s, due, |due|, at)) <==> BatchKnown(s, due)
    ensures forall clock :: NoFuture(s, clock) ==> NoFuture(Succeed(s, due, |due|, at), clock)
  {
    hide Interval, Intervals, IdsOf, Succeed;
    CommitKeepsCacheExact(s, due, at);
    SucceedShape(s, due, |due|, at);
    assert due[..|due|] == due;
  }

  lemma FailKeepsInv(s: Sched, due: seq<BackupItem>, text: string)
    requires Inv(s) && IdsOf(due) <= s.nextRun.Keys
    ensures Inv(Fail(s, due, text))
    ensures forall clock :: NoFuture(s, clock) ==> NoFuture(Fail(s, due, text), clock)
  {
    hide Interval;
  }

  lemma FailuresAfter(latest: map<string, BatchEnd>, ids: set<string>, end: BatchEnd)
    ensures end.None? ==> Failures(latest + All(ids, end)) == Failures(latest) - ids
    ensures end.Some? ==> Failures(latest + All(ids, end)) == Failures(latest) + Marked(ids, end.value)
  {
  }

  // ---------------------------------------------------------------- repeated ids, exactly

  /** The maps after a tick whose batch succeeds, for every list. */
  lemma TickSucceeds(s: Sched, items: seq<BackupItem>, clock: int, now: int)
    requires Inv(s) && NoFuture(s, clock) && clock <= now
    ensures var t, due := Tick(s, Some(items), now, None), ReadyItems(s.lastSuccess, items, now);
      && t.lastInterval == Intervals(items)
      && t.lastSuccess == Only(s.lastSuccess, IdsOf(items)) + All(IdsOf(due), now)
      && (forall id :: id in IdsOf(due) ==> id in t.nextRun && t.nextRun[id] == now + Interval(Intervals(due)[id]))
  {
    hide Inv, NoFuture, Interval, Intervals, Plan, Succeed, ReadyItems;
    var t, due := Plan(s, items, now).0, ReadyItems(s.lastSuccess, items, now);
    PlanKeepsInv(s, items, now);
    PlanIsExact(s, items, clock, now);
    SucceedShape(t, due, |due|, now);
    assert due[..|due|] == due;
    assert due == [] ==> IdsOf(due) == {};
  }

  lemma TickKeepsInv(s: Sched, items: seq<BackupItem>, clock: int, now: int)
    requires Inv(s) && NoFuture(s, clock) && clock <= now && LastIsShortest(items)
    ensures var t := Tick(s, Some(items), now, None); Inv(t) && NoFuture(t, now)
  {
    hide Inv, NoFuture, Interval, Plan, Succeed, ReadyItems, LastIsShortest, BatchKnown;
    var t, due := Plan(s, items, now).0, ReadyItems(s.lastSuccess, items, now);
    PlanKeepsInv(s, items, now);
    PlanIsExact(s, items, clock, now);
    BatchIsReady(s, items, now);
    if due != [] {
      KnownIds(t, due);
      SucceedKeepsInv(t, due, now);
    }
  }

  lemma KnownIds(s: Sched, due: seq<BackupItem>)
    requires Inv(s) && BatchKnown(s, due)
    ensures IdsOf(due) <= s.nextRun.Keys
  {
  }

  /** A fresh service after two successful ticks of one list, at 0 and at `k`. */
  function TwoTicks(items: seq<BackupItem>, k: int): Sched {
    Tick(Tick(INITIAL, Some(items), 0, None), Some(items), k, None)
  }

  /** After the two ticks each item of the list, planned alone `k` later, is selected when it is ready. */
  ghost predicate AnswersExactly(items: seq<BackupItem>) {
    forall k: nat, x :: x in items ==>
      Plan(TwoTicks(items, k), [x], 2 * k).1 == ReadyItems(TwoTicks(items, k).lastSuccess, [x], 2 * k)
  }

  /** What a list that repeats ids must satisfy, exactly: a later plan can be trusted if and only if no
      item has a shorter interval than the last item with its id. */
  lemma LastIsShortestExact(items: seq<BackupItem>)
    requires forall x :: x in items ==> 0 <= Interval(x.intervalMinutes)
    ensures AnswersExactly(items) <==> LastIsShortest(items)
  {
    hide Inv, NoFuture, Interval, Plan, Tick, ReadyItems, LastIsShortest;
    if LastIsShortest(items) {
      FreshInv();
      TickKeepsInv(INITIAL, items, 0, 0);
      forall k: nat, x | x in items
        ensures Plan(TwoTicks(items, k), [x], 2 * k).1 == ReadyItems(TwoTicks(items, k).lastSuccess, [x], 2 * k)
      {
        TickKeepsInv(Tick(INITIAL, Some(items), 0, None), items, 0, k);
        PlanIsExact(TwoTicks(items, k), [x], k, 2 * k);
      }
    } else {
      var y := Shorter(items);
      SelectedTooEarly(items, y);
    }
  }

  lemma FreshInv()
    ensures Inv(INITIAL) && NoFuture(INITIAL, 0)
  {
  }

  lemma Shorter(items: seq<BackupItem>) returns (y: BackupItem)
    requires !LastIsShortest(items)
    ensures y in items && y.id in Intervals(items) && Interval(y.intervalMinutes) < Interval(Intervals(items)[y.id])
  {
    hide Interval;
    y :| y in items && !(y.id in Intervals(items) && Interval(Intervals(items)[y.id]) <= Interval(y.intervalMinutes));
    var i :| 0 <= i < |items| && items[i] == y;
    assert items[i].id in IdsOf(items);
  }

  /** The last item, asked for one shorter interval after the shorter item was backed up again. */
  lemma SelectedTooEarly(items: seq<BackupItem>, y: BackupItem)
    requires y in items && y.id in Intervals(items)
    requires 0 <= Interval(y.intervalMinutes) < Interval(Intervals(items)[y.id])
    ensures var k, x := Interval(y.intervalMinutes), LastWith(items, y.id);
      && Plan(TwoTicks(items, k), [x], 2 * k).1 == [x]
      && ReadyItems(TwoTicks(items, k).lastSuccess, [x], 2 * k) == []
  {
    hide Inv, NoFuture, Interval, Tick;
    var id, k, x := y.id, Interval(y.intervalMinutes), LastWith(items, y.id);
    var s1, s2 := Tick(INITIAL, Some(items), 0, None), TwoTicks(items, k);
    FirstTick(items);
    var due := ReadyItems(s1.lastSuccess, items, k);
    SelectElems(items, item => Ready(s1.lastSuccess, item, k));
    assert y in due;
    var i :| 0 <= i < |due| && due[i] == y;
    assert due[i].id in IdsOf(due);
    var z := LastWith(due, id);
    assert z in due;
    assert Interval(z.intervalMinutes) <= k;
    TickSucceeds(s1, items, 0, k);
    assert s2.lastInterval[id] == x.intervalMinutes && s2.lastSuccess[id] == k && s2.nextRun[id] <= 2 * k;
    PlanOne(s2, x, 2 * k);
    SelectOne(x, item => Ready(s2.lastSuccess, item, 2 * k));
  }

  /** The first tick backs up everything. */
  lemma FirstTick(items: seq<BackupItem>)
    ensures var s := Tick(INITIAL, Some(items), 0, None);
      && Inv(s) && NoFuture(s, 0)
      && s.lastSuccess == All(IdsOf(items), 0)
  {
    hide Interval, Tick;
    SelectAll(items, x => Ready(map[], x, 0));
    TickSucceeds(INITIAL, items, 0, 0);
    FirstTickInv(items);
  }

  lemma FirstTickInv(items: seq<BackupItem>)
    ensures var s := Tick(INITIAL, Some(items), 0, None); Inv(s) && NoFuture(s, 0)
  {
    hide Inv, NoFuture, Interval, Plan, Succeed, BatchKnown, Intervals;
    var t := Plan(INITIAL, items, 0).0;
    FreshInv();
    PlanKeepsInv(INITIAL, items, 0);
    PlanIsExact(INITIAL, items, 0, 0);
    SelectAll(items, x => Ready(map[], x, 0));
    assert BatchKnown(t, items) by { SameIntervals(t, items); }
    KnownIds(t, items);
    SucceedKeepsInv(t, items, 0);
  }

  lemma SameIntervals(t: Sched, items: seq<BackupItem>)
    requires t.lastInterval == Intervals(items)
    ensures BatchKnown(t, items)
  {
  }

  lemma {:induction false} SelectAll<T>(q: seq<T>, pick: T -> bool)
    requires forall x :: x in q ==> pick(x)
    ensures Select(q, pick) == q
  {
    if q == [] {
    } else {
      SelectAll(q[..|q| - 1], pick);
      assert q == q[..|q| - 1] + [q[|q| - 1]];
    }
  }

  // ---------------------------------------------------------------- the refinement

  function Exec(m: Machine, es: seq<Event>): Machine
    requires Possible(m, es)
    decreases es
  {
    if es == [] then m else Exec(Step(m, es[0]), es[1..])
  }

  /** Each event is possible where it occurs. */
  predicate Possible(m: Machine, es: seq<Event>)
    decreases es
  {
    es == [] || (Enabled(m.phase, es[0]) && Possible(Step(m, es[0]), es[1..]))
  }

  /** The clock never goes back, and where a configuration repeats an id its last item has the shortest
      interval. */
  ghost predicate Orderly(es: seq<Event>, clock: int)
    decreases es
  {
    es == [] ||
    match es[0]
    case Planned(items, now) => LastIsShortest(items) && clock <= now && Orderly(es[1..], now)
    case _ => Orderly(es[1..], clock)
  }

  function ClockAfter(es: seq<Event>, clock: int): int
    decreases es
  {
    if es == [] then clock else ClockAfter(es[1..], if es[0].Planned? then es[0].now else clock)
  }

  predicate RefPossible(r: Ref, es: seq<Event>)
    decreases es
  {
    es == [] || (Enabled(r.phase, es[0]) && RefPossible(RefStep(r, es[0]), es[1..]))
  }

  function RefExec(r: Ref, es: seq<Event>): Ref
    requires RefPossible(r, es)
    decreases es
  {
    if es == [] then r else RefExec(RefStep(r, es[0]), es[1..])
  }

  lemma StepCouples(m: Machine, r: Ref, clock: int, e: Event)
    requires Coupled(m, r, clock) && Committable(m) && Enabled(m.phase, e) && Orderly([e], clock)
    ensures Coupled(Step(m, e), RefStep(r, e), if e.Planned? then e.now else clock) && Committable(Step(m, e))
  {
    match e
    case LoadFailed =>
    case Planned(items, now) => PlanCouples(m, r, clock, items, now);
    case Finished(end) => FinishCouples(m, r, clock, end);
  }

  /** Refinement: along every orderly run, at every lock-free point, the service is where the reference
      is. In particular each plan selects the items that have no success since they appeared or whose
      last success is at least their current interval old, in configuration order. */
  lemma {:induction false} ServiceRefinesReference(m: Machine, r: Ref, clock: int, es: seq<Event>)
    requires Coupled(m, r, clock) && Committable(m) && Possible(m, es) && Orderly(es, clock)
    ensures RefPossible(r, es) && Coupled(Exec(m, es), RefExec(r, es), ClockAfter(es, clock))
    ensures Committable(Exec(m, es))
    decreases es
  {
    if es == [] {
    } else {
      assert Orderly([es[0]], clock);
      StepCouples(m, r, clock, es[0]);
      ServiceRefinesReference(Step(m, es[0]), RefStep(r, es[0]), if es[0].Planned? then es[0].now else clock, es[1..]);
    }
  }

  /** The same from the service's first moment. */
  lemma RunsRefineReference(es: seq<Event>, clock: int)
    requires Possible(Machine(INITIAL, Idle), es) && Orderly(es, clock)
    ensures RefPossible(REF_INITIAL, es)
    ensures Coupled(Exec(Machine(INITIAL, Idle), es), RefExec(REF_INITIAL, es), ClockAfter(es, clock))
  {
    assert Coupled(Machine(INITIAL, Idle), REF_INITIAL, clock);
    ServiceRefinesReference(Machine(INITIAL, Idle), REF_INITIAL, clock, es);
  }

  /** What a snapshot taken at any lock-free point of a run shows: one entry per known item, none lost;
      the next run is the last success plus the interval, or not after the last plan for an item without a
      success; and the error text is there exactly for those whose latest attempt failed. */
  lemma SnapshotIsComplete(es: seq<Event>, clock: int)
    requires Possible(Machine(INITIAL, Idle), es) && Orderly(es, clock)
    ensures RefPossible(REF_INITIAL, es)
    ensures var s, r := Exec(Machine(INITIAL, Idle), es).s, RefExec(REF_INITIAL, es);
      && s.nextRun.Keys == r.interval.Keys
      && r.lastSuccess.Keys <= r.interval.Keys && r.latest.Keys <= r.interval.Keys
      && forall id :: id in r.interval ==>
           && (if id in r.lastSuccess
               then StatusOf(s, id).nextRunAt == Shown(r.lastSuccess[id] + Interval(r.interval[id]))
               else exists t :: t <= ClockAfter(es, clock) && StatusOf(s, id).nextRunAt == Shown(t))
           && StatusOf(s, id).lastSuccessAt == (if id in r.lastSuccess then Shown(r.lastSuccess[id]) else None)
           && StatusOf(s, id).lastError == (if id in r.latest && r.latest[id].Some? then r.latest[id].value else "")
  {
    hide Interval, Shown, RefStep, Step;
    RunsRefineReference(es, clock);
    var s, r := Exec(Machine(INITIAL, Idle), es).s, RefExec(REF_INITIAL, es);
    forall id | id in r.interval && id !in r.lastSuccess
      ensures exists t :: t <= ClockAfter(es, clock) && StatusOf(s, id).nextRunAt == Shown(t)
    {
      var t := s.nextRun[id];
      assert t <= ClockAfter(es, clock) && StatusOf(s, id).nextRunAt == Shown(t);
    }
  }

  // ---------------------------------------------------------------- ticks are runs

  /** One call of `runOnce`: what the store loaded, the clock, and how the batch ends if there is one. */
  datatype TickInput = TickInput(config: Option<seq<BackupItem>>, now: int, end: BatchEnd)

  /** A tick whose configuration does not load leaves the four maps alone. */
  lemma LoadFailureKeepsMaps(s: Sched, now: int, end: BatchEnd)
    ensures Tick(s, None, now, end) == s
  {
  }

  /** The maps after some ticks, one after the other. */
  function Ticks(s: Sched, ts: seq<TickInput>): Sched
    decreases ts
  {
    if ts == [] then s else Ticks(Tick(s, ts[0].config, ts[0].now, ts[0].end), ts[1..])
  }

  /** The events of one tick: a load failure; or a plan and, if anything is due, the end of its batch. */
  function EventsOf(s: Sched, t: TickInput): seq<Event> {
    if t.config.None? then [LoadFailed]
    else [Planned(t.config.value, t.now)] + if Plan(s, t.config.value, t.now).1 == [] then [] else [Finished(t.end)]
  }

  function AllEvents(s: Sched, ts: seq<TickInput>): seq<Event>
    decreases ts
  {
    if ts == [] then []
    else EventsOf(s, ts[0]) + AllEvents(Tick(s, ts[0].config, ts[0].now, ts[0].end), ts[1..])
  }

  lemma ExecOne(m: Machine, e: Event)
    requires Enabled(m.phase, e)
    ensures Possible(m, [e]) && Exec(m, [e]) == Step(m, e)
  {
    hide Step;
    assert [e][1..] == [];
  }

  lemma ExecTwo(m: Machine, e: Event, f: Event)
    requires Enabled(m.phase, e) && Enabled(Step(m, e).phase, f)
    ensures Possible(m, [e, f]) && Exec(m, [e, f]) == Step(Step(m, e), f)
  {
    hide Step;
    ExecOne(Step(m, e), f);
    assert [e, f][1..] == [f];
  }

  lemma TickIsRun(s: Sched, t: TickInput)
    ensures Possible(Machine(s, Idle), EventsOf(s, t))
    ensures Exec(Machine(s, Idle), EventsOf(s, t)) == Machine(Tick(s, t.config, t.now, t.end), Idle)
  {
    hide Plan, Commit, Exec, Possible;
    var m := Machine(s, Idle);
    if t.config.None? {
      LoadFailureKeepsMaps(s, t.now, t.end);
      ExecOne(m, LoadFailed);
    } else {
      var plan, finish := Planned(t.config.value, t.now), Finished(t.end);
      TickIsPlanThenFinish(s, t.config.value, t.now, t.end);
      if Step(m, plan).phase.Running? {
        ExecTwo(m, plan, finish);
        assert EventsOf(s, t) == [plan, finish];
      } else {
        ExecOne(m, plan);
        assert EventsOf(s, t) == [plan];
      }
    }
  }

  lemma {:induction false} ExecConcat(m: Machine, es: seq<Event>, fs: seq<Event>)
    requires Possible(m, es) && Possible(Exec(m, es), fs)
    ensures Possible(m, es + fs) && Exec(m, es + fs) == Exec(Exec(m, es), fs)
    decreases es
  {
    hide Step;
    if es == [] {
      assert es + fs == fs;
    } else {
      ExecConcat(Step(m, es[0]), es[1..], fs);
      assert (es + fs)[1..] == es[1..] + fs;
    }
  }

  /** Any number of ticks, load failures included, is the run of their events; so what holds of every run at
      every lock-free point holds between the ticks of the service. */
  lemma {:induction false} TicksAreRuns(s: Sched, ts: seq<TickInput>)
    ensures Possible(Machine(s, Idle), AllEvents(s, ts))
    ensures Exec(Machine(s, Idle), AllEvents(s, ts)) == Machine(Ticks(s, ts), Idle)
    decreases ts
  {
    hide Tick, EventsOf;
    if ts == [] {
    } else {
      var t := ts[0];
      var s' := Tick(s, t.config, t.now, t.end);
      TickIsRun(s, t);
      TicksAreRuns(s', ts[1..]);
      ExecConcat(Machine(s, Idle), EventsOf(s, t), AllEvents(s', ts[1..]));
    }
  }

  // ---------------------------------------------------------------- what needs no clock

  /** The cache is in order, and a running batch was ready when it was planned and can be committed. */
  ghost predicate Steady(m: Machine) {
    && Inv(m.s)
    && (m.phase.Running? ==>
          BatchKnown(m.s, m.phase.due) && forall x :: x in m.phase.due ==> Ready(m.s.lastSuccess, x, m.phase.at))
  }

  /** Where a planned configuration repeats an id its last item has the shortest interval. */
  ghost predicate Listed(es: seq<Event>) {
    forall e :: e in es && e.Planned? ==> LastIsShortest(e.items)
  }

  lemma {:induction false} OrderlyIsListed(es: seq<Event>, clock: int)
    requires Orderly(es, clock)
    ensures Listed(es)
    decreases es
  {
    hide LastIsShortest;
    if es == [] {
    } else {
      OrderlyIsListed(es[1..], if es[0].Planned? then es[0].now else clock);
      assert es == [es[0]] + es[1..];
    }
  }

  lemma ListedSplit(es: seq<Event>)
    requires es != [] && Listed(es)
    ensures es[0].Planned? ==> LastIsShortest(es[0].items)
    ensures Listed(es[1..])
  {
    hide LastIsShortest;
  }

  lemma StepIsSteady(m: Machine, e: Event)
    requires Steady(m) && Enabled(m.phase, e) && (e.Planned? ==> LastIsShortest(e.items))
    ensures Steady(Step(m, e))
  {
    hide Inv, BatchKnown, LastIsShortest, Ready, Plan, Succeed, Fail;
    match e
    case LoadFailed =>
    case Planned(items, now) =>
      PlanKeepsInv(m.s, items, now);
      BatchIsReady(m.s, items, now);
    case Finished(end) =>
      KnownIds(m.s, m.phase.due);
      if end.None? {
        SucceedKeepsInv(m.s, m.phase.due, m.phase.at);
      } else {
        FailKeepsInv(m.s, m.phase.due, end.value);
      }
  }

  lemma {:induction false} RunIsSteady(m: Machine, es: seq<Event>)
    requires Steady(m) && Possible(m, es) && Listed(es)
    ensures Steady(Exec(m, es))
    decreases es
  {
    hide Steady, Step, Listed;
    if es == [] {
    } else {
      ListedSplit(es);
      StepIsSteady(m, es[0]);
      RunIsSteady(Step(m, es[0]), es[1..]);
    }
  }

  /** The cache, at every lock-free point of a run, even if the clock is set back: an item with a success has
      its next run one recorded interval after it. And if the clock is not set back, an item without one is
      due at every instant from the last plan on, whatever interval it is then configured with. */
  lemma CacheInvariant(es: seq<Event>, clock: int)
    requires Possible(Machine(INITIAL, Idle), es) && Listed(es)
    ensures var s := Exec(Machine(INITIAL, Idle), es).s;
      && (forall id :: id in s.lastSuccess ==>
            && id in s.nextRun && id in s.lastInterval
            && s.nextRun[id] == s.lastSuccess[id] + Interval(s.lastInterval[id]))
      && (Orderly(es, clock) ==> forall item: BackupItem, now: int ::
            item.id !in s.lastSuccess && ClockAfter(es, clock) <= now ==> NextFor(s, item, now) <= now)
  {
    RunIsSteady(Machine(INITIAL, Idle), es);
    if Orderly(es, clock) {
      RunsRefineReference(es, clock);
      var s := Exec(Machine(INITIAL, Idle), es).s;
      forall item: BackupItem, now: int | item.id !in s.lastSuccess && ClockAfter(es, clock) <= now
        ensures NextFor(s, item, now) <= now
      {
        StaleIsPast(s, item, ClockAfter(es, clock), now);
        NextForMeaning(s, item, now);
      }
    }
  }

  // ---------------------------------------------------------------- spacing and rate

  /** The last success on record, if any. */
  function Recorded(lastSuccess: map<string, int>, id: string): Option<int> {
    if id in lastSuccess then Some(lastSuccess[id]) else None
  }

  lemma RecordedStep(m: Machine, e: Event, id: string)
    requires Steady(m) && Enabled(m.phase, e)
    ensures Recorded(Step(m, e).s.lastSuccess, id) ==
            match e
            case LoadFailed => Recorded(m.s.lastSuccess, id)
            case Planned(items, _) => if id in IdsOf(items) then Recorded(m.s.lastSuccess, id) else None
            case Finished(end) =>
              if end.None? && id in IdsOf(m.phase.due) then Some(m.phase.at) else Recorded(m.s.lastSuccess, id)
  {
    hide Inv, BatchKnown, Plan, Succeed, IdsOf, NextRuns;
    match e
    case LoadFailed =>
    case Planned(items, now) => PlanKeepsInv(m.s, items, now);
    case Finished(end) =>
      if end.None? {
        SucceedShape(m.s, m.phase.due, |m.phase.due|, m.phase.at);
        assert m.phase.due[..|m.phase.due|] == m.phase.due;
      }
  }

  /** Each scheduled success of the item comes at least its interval after the one before it, whichever
      interval its batch was planned with; the record starts afresh when a plan does not contain the item. */
  ghost predicate EachSpaced(m: Machine, es: seq<Event>, id: string, last: Option<int>)
    requires Possible(m, es)
    decreases es
  {
    if es == [] then true
    else
      var rest := es[1..];
      match es[0]
      case LoadFailed => EachSpaced(m, rest, id, last)
      case Planned(items, _) => EachSpaced(Step(m, es[0]), rest, id, if id in IdsOf(items) then last else None)
      case Finished(end) =>
        if end.Some? || id !in IdsOf(m.phase.due) then EachSpaced(Step(m, es[0]), rest, id, last)
        else
          && (last.Some? ==> forall item :: item in m.phase.due && item.id == id ==>
                last.value + Interval(item.intervalMinutes) <= m.phase.at)
          && EachSpaced(Step(m, es[0]), rest, id, Some(m.phase.at))
  }

  /** Spacing at every success of every run of the service, whatever happens to the intervals and to the
      clock. */
  lemma {:induction false} SuccessesAreSpaced(m: Machine, es: seq<Event>, id: string)
    requires Steady(m) && Possible(m, es) && Listed(es)
    ensures EachSpaced(m, es, id, Recorded(m.s.lastSuccess, id))
    decreases es
  {
    hide Inv, BatchKnown, LastIsShortest, Interval, Step, IdsOf, Listed;
    if es == [] {
    } else {
      ListedSplit(es);
      StepIsSteady(m, es[0]);
      RecordedStep(m, es[0], id);
      SuccessesAreSpaced(Step(m, es[0]), es[1..], id);
      if es[0].LoadFailed? { LoadFailedStep(m); }
    }
  }

  lemma LoadFailedStep(m: Machine)
    requires m.phase.Idle?
    ensures Step(m, LoadFailed) == m
  {
  }

  /** From the service's construction on, for every item id. */
  lemma RunsAreSpaced(es: seq<Event>, id: string)
    requires Possible(Machine(INITIAL, Idle), es) && Listed(es)
    ensures EachSpaced(Machine(INITIAL, Idle), es, id, None)
  {
    assert Steady(Machine(INITIAL, Idle));
    SuccessesAreSpaced(Machine(INITIAL, Idle), es, id);
  }

  /** The item is in every configuration planned, with this interval. */
  ghost predicate Pinned(es: seq<Event>, id: string, minutes: int) {
    forall e :: e in es && e.Planned? ==>
      id in IdsOf(e.items) && forall item :: item in e.items && item.id == id ==> item.intervalMinutes == minutes
  }

  lemma PinnedSplit(es: seq<Event>, id: string, minutes: int)
    requires es != [] && Pinned(es, id, minutes)
    ensures Pinned([es[0]], id, minutes) && Pinned(es[1..], id, minutes)
  {
  }

  /** The instants of the item's scheduled successes, in order. */
  function Successes(m: Machine, es: seq<Event>, id: string): seq<int>
    requires Possible(m, es)
    decreases es
  {
    if es == [] then []
    else
      (if es[0] == Finished(None) && id in IdsOf(m.phase.due) then [m.phase.at] else []) +
      Successes(Step(m, es[0]), es[1..], id)
  }

  /** Neighbours at least `gap` apart. */
  ghost predicate Apart(ts: seq<int>, gap: int) {
    forall k :: 0 <= k < |ts| - 1 ==> ts[k] + gap <= ts[k + 1]
  }

  lemma NoSuccesses(gap: int)
    ensures Apart([], gap)
  {
  }

  lemma ConsApart(t: int, rest: seq<int>, gap: int)
    requires Apart(rest, gap) && (rest != [] ==> t + gap <= rest[0])
    ensures Apart([t] + rest, gap)
  {
    var ts := [t] + rest;
    forall k | 0 <= k < |ts| - 1 ensures ts[k] + gap <= ts[k + 1] {
      assert k > 0 ==> rest[k - 1] + gap <= rest[k];
    }
  }

  /** A running batch that contains a pinned item respects the pinned interval. */
  ghost predicate PinnedBatch(m: Machine, id: string, minutes: int) {
    m.phase.Running? ==> forall item :: item in m.phase.due && item.id == id ==> item.intervalMinutes == minutes
  }

  lemma PinnedStep(m: Machine, e: Event, id: string, minutes: int)
    requires Steady(m) && Enabled(m.phase, e) && Pinned([e], id, minutes)
    ensures PinnedBatch(m, id, minutes) ==> PinnedBatch(Step(m, e), id, minutes)
    ensures !(e == Finished(None) && id in IdsOf(m.phase.due)) ==>
              Recorded(Step(m, e).s.lastSuccess, id) == Recorded(m.s.lastSuccess, id)
  {
    hide Inv, BatchKnown, Ready, Plan, Commit;
    RecordedStep(m, e, id);
    if e.Planned? {
      assert e in [e];
      BatchIsReady(m.s, e.items, e.now);
    }
  }

  /** A success of a pinned item is recorded, and came no earlier than its interval allows. */
  lemma SuccessIsSpaced(m: Machine, id: string, minutes: int)
    requires m.phase.Running? && Steady(m) && PinnedBatch(m, id, minutes) && id in IdsOf(m.phase.due)
    ensures id in m.s.lastSuccess ==> m.s.lastSuccess[id] + Interval(minutes) <= m.phase.at
    ensures Recorded(Step(m, Finished(None)).s.lastSuccess, id) == Some(m.phase.at)
  {
    hide Inv, BatchKnown, Interval, Step;
    RecordedStep(m, Finished(None), id);
    var i :| 0 <= i < |m.phase.due| && m.phase.due[i].id == id;
    assert m.phase.due[i] in m.phase.due;
  }

  lemma {:induction false} PinnedSpacing(m: Machine, es: seq<Event>, id: string, minutes: int)
    requires Steady(m) && Possible(m, es) && Listed(es) && PinnedBatch(m, id, minutes) && Pinned(es, id, minutes)
    ensures var ts := Successes(m, es, id);
      && Apart(ts, Interval(minutes))
      && (ts != [] && id in m.s.lastSuccess ==> m.s.lastSuccess[id] + Interval(minutes) <= ts[0])
    decreases es
  {
    hide Steady, Listed, PinnedBatch, Pinned, Step, Interval, Apart;
    if es == [] {
      NoSuccesses(Interval(minutes));
    } else {
      var e := es[0];
      ListedSplit(es);
      PinnedSplit(es, id, minutes);
      StepIsSteady(m, e);
      PinnedStep(m, e, id, minutes);
      PinnedSpacing(Step(m, e), es[1..], id, minutes);
      var rest := Successes(Step(m, e), es[1..], id);
      if e == Finished(None) && id in IdsOf(m.phase.due) {
        SuccessIsSpaced(m, id, minutes);
        ConsApart(m.phase.at, rest, Interval(minutes));
      } else {
        assert [] + rest == rest;
      }
    }
  }

  function CountIn(ts: seq<int>, lo: int, width: int): nat {
    if ts == [] then 0 else (if lo <= ts[0] <= lo + width then 1 else 0) + CountIn(ts[1..], lo, width)
  }

  /** At most `n` instants `gap` apart fit where `n - 1` gaps fit. */
  lemma {:induction false} CountFrom(ts: seq<int>, lo: int, width: int, gap: int)
    requires gap > 0 && Apart(ts, gap)
    ensures var n := CountIn(ts, lo, width);
      && (ts != [] && n > 0 && lo <= ts[0] ==> (n - 1) * gap <= lo + width - ts[0])
      && (n > 0 ==> (n - 1) * gap <= width)
  {
    if ts == [] {
    } else {
      var rest := ts[1..];
      forall k | 0 <= k < |rest| - 1 ensures rest[k] + gap <= rest[k + 1] {
        assert ts[k + 1] + gap <= ts[k + 1 + 1];
      }
      CountFrom(rest, lo, width, gap);
      var c := CountIn(rest, lo, width);
      if c > 0 {
        assert rest[0] == ts[1] && ts[0] + gap <= ts[1];
        assert c * gap == (c - 1) * gap + gap;
      }
    }
  }

  lemma CountToQuotient(n: nat, width: nat, gap: int)
    requires gap > 0 && (n > 0 ==> (n - 1) * gap <= width)
    ensures n <= width / gap + 1
  {
    var q := width / gap;
    assert width < (q + 1) * gap by {
      assert width == q * gap + width % gap;
      assert (q + 1) * gap == q * gap + gap;
    }
    MulOrder(n - 1, q + 1, gap);
  }

  lemma MulOrder(a: int, b: int, gap: int)
    requires gap > 0
    ensures a * gap < b * gap ==> a < b
  {
  }

  /** Spacing and rate, from any idle moment of the service and for as long as the item stays configured
      with one interval, whatever the clock does: successive successes are at least the interval apart, also
      from the last one before, and no window holds more than its width divided by the interval, plus one. */
  lemma SpacingAndRate(m: Machine, es: seq<Event>, id: string, minutes: int, lo: int, width: nat)
    requires Inv(m.s) && m.phase.Idle? && Possible(m, es) && Listed(es) && Pinned(es, id, minutes)
    requires 0 < minutes <= MAX_INTERVAL_MINUTES
    ensures var ts, gap := Successes(m, es, id), minutes * MINUTE;
      && Apart(ts, gap)
      && (ts != [] && id in m.s.lastSuccess ==> m.s.lastSuccess[id] + gap <= ts[0])
      && CountIn(ts, lo, width) <= width / gap + 1
  {
    hide Successes, CountIn, Possible, Listed, Pinned, Interval, Inv, Apart;
    PinnedSpacing(m, es, id, minutes);
    IntervalExact(minutes);
    CountFrom(Successes(m, es, id), lo, width, minutes * MINUTE);
    CountToQuotient(CountIn(Successes(m, es, id), lo, width), width, minutes * MINUTE);
  }

  // ---------------------------------------------------------------- lateness

  /** Plans follow each other, and `last`, within `d`; every batch succeeds. */
  predicate Prompt(es: seq<Event>, last: int, d: nat)
    decreases es
  {
    es == [] ||
    match es[0]
    case LoadFailed => Prompt(es[1..], last, d)
    case Planned(_, now) => last <= now <= last + d && Prompt(es[1..], now, d)
    case Finished(end) => end.None? && Prompt(es[1..], last, d)
  }

  predicate AnyPlan(es: seq<Event>) {
    es != [] && (es[0].Planned? || AnyPlan(es[1..]))
  }

  /** At the last planning instant the item was in the batch, or it has a success on record and was not yet
      due. If it has succeeded since this is watched, it is in the batch at most `d` late. */
  ghost predicate OnTime(m: Machine, id: string, gap: int, last: int, d: nat, planned: bool, seen: bool) {
    && (seen ==> planned)
    && match m.phase
       case Idle => planned ==> id in m.s.lastSuccess && last < m.s.lastSuccess[id] + gap
       case Running(due, at) =>
         && at == last
         && if id in IdsOf(due) then seen ==> id in m.s.lastSuccess && at < m.s.lastSuccess[id] + gap + d
            else id in m.s.lastSuccess && last < m.s.lastSuccess[id] + gap
  }

  ghost predicate Within(ts: seq<int>, bound: int) {
    forall k :: 0 <= k < |ts| - 1 ==> ts[k + 1] - ts[k] < bound
  }

  lemma ConsWithin(t: int, rest: seq<int>, bound: int)
    requires Within(rest, bound) && (rest != [] ==> rest[0] - t < bound)
    ensures Within([t] + rest, bound)
  {
    var ts := [t] + rest;
    forall k | 0 <= k < |ts| - 1 ensures ts[k + 1] - ts[k] < bound {
      assert k > 0 ==> rest[k] - rest[k - 1] < bound;
    }
  }

  /** An item with a fixed interval is among the ready ones exactly when the rule says so of its id. */
  lemma ReadyById(lastSuccess: map<string, int>, items: seq<BackupItem>, now: int, id: string, minutes: int)
    requires id in IdsOf(items) && forall item :: item in items && item.id == id ==> item.intervalMinutes == minutes
    ensures id in IdsOf(ReadyItems(lastSuccess, items, now))
       <==> id !in lastSuccess || lastSuccess[id] + Interval(minutes) <= now
  {
    hide Interval;
    var due := ReadyItems(lastSuccess, items, now);
    SelectElems(items, item => Ready(lastSuccess, item, now));
    if k :| 0 <= k < |due| && due[k].id == id {
      assert due[k] in items && Ready(lastSuccess, due[k], now);
    }
    if id !in lastSuccess || lastSuccess[id] + Interval(minutes) <= now {
      var i :| 0 <= i < |items| && items[i].id == id;
      assert items[i] in items && Ready(lastSuccess, items[i], now);
      assert items[i] in due;
      var k :| 0 <= k < |due| && due[k] == items[i];
      assert due[k].id in IdsOf(due);
    }
  }

  /** Nothing running or waiting lies past the last plan. */
  lemma PromptStep(m: Machine, e: Event, last: int, d: nat)
    requires Steady(m) && Enabled(m.phase, e) && NoFuture(m.s, last) && Prompt([e], last, d)
    ensures NoFuture(Step(m, e).s, if e.Planned? then e.now else last)
  {
    hide Inv, BatchKnown, NoFuture, Plan, Succeed, Ready;
    match e
    case LoadFailed =>
    case Planned(items, now) => PlanKeepsInv(m.s, items, now);
    case Finished(end) =>
      KnownIds(m.s, m.phase.due);
      SucceedKeepsInv(m.s, m.phase.due, m.phase.at);
  }

  lemma OnTimeStep(
      m: Machine, e: Event, id: string, minutes: int, last: int, d: nat, planned: bool, seen: bool)
    requires Steady(m) && Enabled(m.phase, e) && NoFuture(m.s, last)
    requires Pinned([e], id, minutes) && Prompt([e], last, d) && Interval(minutes) > 0
    requires OnTime(m, id, Interval(minutes), last, d, planned, seen)
    ensures OnTime(Step(m, e), id, Interval(minutes), if e.Planned? then e.now else last, d,
                   planned || !e.LoadFailed?, seen || (e == Finished(None) && id in IdsOf(m.phase.due)))
  {
    hide Inv, BatchKnown, NoFuture, Plan, Commit, Interval;
    RecordedStep(m, e, id);
    if e.Planned? {
      assert e in [e];
      PlanIsExact(m.s, e.items, last, e.now);
      ReadyById(m.s.lastSuccess, e.items, e.now, id, minutes);
    }
  }

  lemma OnTimeLess(
      m: Machine, id: string, gap: int, last: int, d: nat, planned: bool, seen: bool, planned': bool)
    requires OnTime(m, id, gap, last, d, planned, seen) && (planned' ==> planned)
    ensures OnTime(m, id, gap, last, d, planned', false)
  {
  }

  /** A success of an item that has succeeded before while it was watched is less than `d` late. */
  lemma SuccessIsOnTime(m: Machine, id: string, gap: int, last: int, d: nat, planned: bool, seen: bool)
    requires OnTime(m, id, gap, last, d, planned, seen) && m.phase.Running? && id in IdsOf(m.phase.due)
    ensures seen ==> id in m.s.lastSuccess && m.phase.at - m.s.lastSuccess[id] < gap + d
  {
  }

  lemma SeenIsRecorded(m: Machine, id: string, gap: int, last: int, d: nat, planned: bool, seen: bool)
    requires OnTime(m, id, gap, last, d, planned, seen)
    ensures seen ==> id in m.s.lastSuccess
  {
  }

  lemma {:induction false} PinnedLateness(
      m: Machine, es: seq<Event>, id: string, minutes: int, last: int, d: nat, planned: bool, seen: bool)
    requires Steady(m) && Possible(m, es) && Listed(es) && NoFuture(m.s, last)
    requires Pinned(es, id, minutes) && Prompt(es, last, d) && Interval(minutes) > 0
    requires OnTime(m, id, Interval(minutes), last, d, planned, seen)
    ensures var ts := Successes(m, es, id);
      && Within(ts, Interval(minutes) + d)
      && (ts != [] && seen ==> id in m.s.lastSuccess && ts[0] - m.s.lastSuccess[id] < Interval(minutes) + d)
    ensures OnTime(Exec(m, es), id, Interval(minutes), ClockAfter(es, last), d, planned || AnyPlan(es), false)
    decreases es
  {
    hide Steady, Listed, OnTime, NoFuture, Pinned, Step, Interval;
    var gap := Interval(minutes);
    if es == [] {
      OnTimeLess(m, id, gap, last, d, planned, seen, planned);
    } else {
      var e := es[0];
      var last', planned' := if e.Planned? then e.now else last, planned || !e.LoadFailed?;
      var succeeded := e == Finished(None) && id in IdsOf(m.phase.due);
      ListedSplit(es);
      PinnedSplit(es, id, minutes);
      assert Prompt([e], last, d);
      StepIsSteady(m, e);
      PromptStep(m, e, last, d);
      OnTimeStep(m, e, id, minutes, last, d, planned, seen);
      PinnedLateness(Step(m, e), es[1..], id, minutes, last', d, planned', seen || succeeded);
      OnTimeLess(Exec(m, es), id, gap, ClockAfter(es, last), d, planned' || AnyPlan(es[1..]), false,
                 planned || AnyPlan(es));
      PinnedStep(m, e, id, minutes);
      SeenIsRecorded(m, id, gap, last, d, planned, seen);
      var rest := Successes(Step(m, e), es[1..], id);
      if succeeded {
        RecordedStep(m, e, id);
        SuccessIsOnTime(m, id, gap, last, d, planned, seen);
        ConsWithin(m.phase.at, rest, gap + d);
      } else {
        assert [] + rest == rest;
      }
    }
  }

  /** Lateness, from any idle moment of the service and for as long as the item stays configured with one
      interval: when plans are at most `d` apart and every batch succeeds, successive successes are less than
      interval plus `d` apart, also from the last one before if the item was not overdue then; and between
      batches, once there has been a plan, the item has a success on record and is not overdue. */
  lemma LatenessBound(m: Machine, clock: int, es: seq<Event>, id: string, minutes: int, d: nat)
    requires Inv(m.s) && NoFuture(m.s, clock) && m.phase.Idle? && Possible(m, es) && Listed(es)
    requires Pinned(es, id, minutes) && Prompt(es, clock, d) && 0 < minutes <= MAX_INTERVAL_MINUTES
    ensures var ts, gap := Successes(m, es, id), minutes * MINUTE;
      && Within(ts, gap + d)
      && (ts != [] && id in m.s.lastSuccess && clock < m.s.lastSuccess[id] + gap ==>
            ts[0] - m.s.lastSuccess[id] < gap + d)
    ensures var n := Exec(m, es);
      n.phase.Idle? && AnyPlan(es) ==>
        id in n.s.lastSuccess && ClockAfter(es, clock) < n.s.lastSuccess[id] + minutes * MINUTE
  {
    hide Inv, NoFuture, Listed, Pinned, Interval, Within;
    IntervalExact(minutes);
    PinnedLateness(m, es, id, minutes, clock, d, false, false);
    if id in m.s.lastSuccess && clock < m.s.lastSuccess[id] + minutes * MINUTE {
      PinnedLateness(m, es, id, minutes, clock, d, true, true);
    }
  }

  /** The same from the service's construction, together with spacing. */
  lemma LatenessFromStart(es: seq<Event>, clock: int, id: string, minutes: int, d: nat)
    requires Possible(Machine(INITIAL, Idle), es) && Listed(es)
    requires Pinned(es, id, minutes) && Prompt(es, clock, d) && 0 < minutes <= MAX_INTERVAL_MINUTES
    ensures var ts, gap := Successes(Machine(INITIAL, Idle), es, id), minutes * MINUTE;
      Apart(ts, gap) && Within(ts, gap + d)
    ensures var m := Exec(Machine(INITIAL, Idle), es);
      && (m.phase.Idle? && AnyPlan(es) ==> id in m.s.lastSuccess)
      && (m.phase.Idle? && id in m.s.lastSuccess ==> ClockAfter(es, clock) < m.s.lastSuccess[id] + minutes * MINUTE)
  {
    hide Listed, Pinned, Interval;
    var m := Machine(INITIAL, Idle);
    SpacingAndRate(m, es, id, minutes, 0, 0);
    LatenessBound(m, clock, es, id, minutes, d);
    if !AnyPlan(es) {
      NothingHappens(es);
    }
  }

  /** Without a plan the service stays as it was made. */
  lemma {:induction false} NothingHappens(es: seq<Event>)
    requires Possible(Machine(INITIAL, Idle), es) && !AnyPlan(es)
    ensures Exec(Machine(INITIAL, Idle), es) == Machine(INITIAL, Idle)
    decreases es
  {
    if es == [] {
    } else {
      NothingHappens(es[1..]);
    }
  }
}
