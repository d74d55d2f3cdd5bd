/** The backup scheduler (internal/scheduler/scheduler.go): four maps keyed by item id, planned under the
    lock, left alone while a batch runs, and updated under the lock when it ends. Instants are
    nanoseconds since Go's zero time. */
module Scheduler {
  import opened Domain

  const MINUTE: int := 60_000_000_000
  const SECOND: int := 1_000_000_000
  const TWO_64: int := 0x1_0000_0000_0000_0000

  /** Signed 64-bit wrap-around. */
  function Wrap64(x: int): (r: int)
    ensures -TWO_64 / 2 <= r < TWO_64 / 2
  {
    (x + TWO_64 / 2) % TWO_64 - TWO_64 / 2
  }

  /** `time.Duration(minutes) * time.Minute`. */
  function Interval(minutes: int): int { Wrap64(minutes * MINUTE) }

  const MAX_INTERVAL_MINUTES := 153722867

  /** The product is the duration meant exactly for intervals of at most 153722867 minutes; and always the one
      signed 64-bit number that differs from it by a multiple of two to the 64th. */
  lemma IntervalExact(minutes: int)
    requires -TWO_64 / 2 <= minutes < TWO_64 / 2
    ensures Interval(minutes) == minutes * 60_000_000_000 <==> -153722867 <= minutes <= 153722867
    ensures -0x8000_0000_0000_0000 <= Interval(minutes) < 0x8000_0000_0000_0000
    ensures exists k :: Interval(minutes) == minutes * 60_000_000_000 - WholeTurns(k)
  {
    var x := minutes * MINUTE;
    WrapsWhole(x, (x + TWO_64 / 2) / TWO_64);
  }

  function WholeTurns(k: int): int { k * 0x1_0000_0000_0000_0000 }

  lemma WrapsWhole(x: int, k: int)
    requires k == (x + TWO_64 / 2) / TWO_64
    ensures Wrap64(x) == x - WholeTurns(k)
  {
  }

  /** One minute more, which validation accepts, wraps to a negative duration. */
  lemma IntervalWraps()
    ensures Interval(MAX_INTERVAL_MINUTES + 1) < 0
  {
  }

  datatype Sched = Sched(
    nextRun: map<string, int>, lastSuccess: map<string, int>,
    lastError: map<string, string>, lastInterval: map<string, int>)

  const INITIAL := Sched(map[], map[], map[], map[])

  /** The instant an item is due, as the four maps say when the item is planned at `now`. */
  function NextFor(s: Sched, item: BackupItem, now: int): int {
    if item.id !in s.nextRun then now
    else if item.id in s.lastInterval && s.lastInterval[item.id] != item.intervalMinutes then
      if item.id in s.lastSuccess then s.lastSuccess[item.id] + Interval(item.intervalMinutes) else now
    else s.nextRun[item.id]
  }

  function PlanItem(s: Sched, item: BackupItem, now: int): Sched {
    s.(nextRun := s.nextRun[item.id := NextFor(s, item, now)],
       lastInterval := s.lastInterval[item.id := item.intervalMinutes])
  }

  /** The planning loop after `n` items: the maps, and the items selected. */
  function PlanItems(s: Sched, items: seq<BackupItem>, n: nat, now: int): (Sched, seq<BackupItem>)
    requires n <= |items|
  {
    if n == 0 then (s, [])
    else
      var (t, due) := PlanItems(s, items, n - 1, now);
      var next := NextFor(t, items[n - 1], now);
      (PlanItem(t, items[n - 1], now), if now < next then due else due + [items[n - 1]])
  }

  /** Forgets every planned id that is not active. */
  function Cleanup(s: Sched, active: set<string>): Sched {
    var gone := s.nextRun.Keys - active;
    Sched(s.nextRun - gone, s.lastSuccess - gone, s.lastError - gone, s.lastInterval - gone)
  }

  function Plan(s: Sched, items: seq<BackupItem>, now: int): (Sched, seq<BackupItem>) {
    var (t, due) := PlanItems(s, items, |items|, now);
    (Cleanup(t, IdsOf(items)), due)
  }

  function Marked(ids: set<string>, text: string): map<string, string> {
    map id | id in ids :: text
  }

  function Fail(s: Sched, due: seq<BackupItem>, text: string): Sched {
    s.(lastError := s.lastError + Marked(IdsOf(due), text))
  }

  /** The commit loop after a successful batch, in item order. */
  function Succeed(s: Sched, due: seq<BackupItem>, n: nat, at: int): Sched
    requires n <= |due|
  {
    if n == 0 then s
    else
      var t, item := Succeed(s, due, n - 1, at), due[n - 1];
      Sched(t.nextRun[item.id := at + Interval(item.intervalMinutes)], t.lastSuccess[item.id := at],
            t.lastError - {item.id}, t.lastInterval)
  }

  /** How a batch ended: None for success, or the error text. */
  type BatchEnd = Option<string>

  function Commit(s: Sched, due: seq<BackupItem>, at: int, end: BatchEnd): Sched {
    if end.Some? then Fail(s, due, end.value) else Succeed(s, due, |due|, at)
  }

  /** One tick: nothing if the configuration does not load, otherwise plan, and if anything is due, commit. */
  function Tick(s: Sched, config: Option<seq<BackupItem>>, now: int, end: BatchEnd): Sched {
    if config.None? then s
    else
      var (t, due) := Plan(s, config.value, now);
      if due == [] then t else Commit(t, due, now, end)
  }

  // ---------------------------------------------------------------- status snapshot

  /** Times as RFC 3339 prints them, in whole seconds; None where the field stays empty. */
  datatype Status = Status(nextRunAt: Option<int>, lastSuccessAt: Option<int>, lastError: string)

  /** Go's `Time` is zero at the zero instant and then prints nothing. */
  function Shown(t: int): Option<int> {
    if t == 0 then None else Some(t / SECOND)
  }

  /** What is shown of an instant: its whole second, counted down; nothing for the zero instant alone. */
  lemma ShownExact(t: int)
    ensures Shown(t) == None <==> t == 0
    ensures t != 0 ==> Shown(t).value * 1_000_000_000 <= t < (Shown(t).value + 1) * 1_000_000_000
  {
  }

  function StatusOf(s: Sched, id: string): Status
    requires id in s.nextRun
  {
    Status(Shown(s.nextRun[id]),
           if id in s.lastSuccess then Shown(s.lastSuccess[id]) else None,
           if id in s.lastError then s.lastError[id] else "")
  }

  // ---------------------------------------------------------------- the service

  class Service {
    var nextRunByItem: map<string, int>
    var lastSuccess: map<string, int>
    var lastError: map<string, string>
    var lastIntervalByItem: map<string, int>

    constructor ()
      ensures State() == INITIAL
    {
      nextRunByItem, lastSuccess, lastError, lastIntervalByItem := map[], map[], map[], map[];
    }

    function State(): Sched
      reads this
    {
      Sched(nextRunByItem, lastSuccess, lastError, lastIntervalByItem)
    }

    method Snapshot() returns (out: map<string, Status>)
      ensures out.Keys == nextRunByItem.Keys
      ensures forall id :: id in out ==> out[id] == StatusOf(State(), id)
    {
      out := map[];
      var left := nextRunByItem.Keys;
      while left != {}
        invariant left <= nextRunByItem.Keys && out.Keys == nextRunByItem.Keys - left
        invariant forall id :: id in out ==> out[id] == StatusOf(State(), id)
        decreases left
      {
        var itemID :| itemID in left;
        var next := nextRunByItem[itemID];
        var status := Status(None, None, "");
        if next != 0 {
          status := status.(nextRunAt := Some(next / SECOND));
        }
        if itemID in lastSuccess && lastSuccess[itemID] != 0 {
          status := status.(lastSuccessAt := Some(lastSuccess[itemID] / SECOND));
        }
        if itemID in lastError {
          status := status.(lastError := lastError[itemID]);
        }
        out, left := out[itemID := status], left - {itemID};
      }
    }

    /** The locked planning phase of `runOnce`. */
    method PlanPhase(items: seq<BackupItem>, now: int) returns (dueItems: seq<BackupItem>)
      modifies this
      ensures (State(), dueItems) == Plan(old(State()), items, now)
    {
      var activeIDs := {};
      dueItems := [];
      for i := 0 to |items|
        invariant (State(), dueItems) == PlanItems(old(State()), items, i, now)
        invariant activeIDs == IdsOf(items[..i])
      {
        var item := items[i];
        activeIDs := activeIDs + {item.id};
        AddId(items, i);
        var next := now;
        ghost var before := nextRunByItem;
        if item.id !in nextRunByItem {
          nextRunByItem := nextRunByItem[item.id := now];
        } else {
          next := nextRunByItem[item.id];
          if item.id in lastIntervalByItem && lastIntervalByItem[item.id] != item.intervalMinutes {
            if item.id in lastSuccess {
              next := lastSuccess[item.id] + Interval(item.intervalMinutes);
            } else {
              next := now;
            }
            nextRunByItem := nextRunByItem[item.id := next];
          }
        }
        assert nextRunByItem == before[item.id := next];
        lastIntervalByItem := lastIntervalByItem[item.id := item.intervalMinutes];
        if now < next {
          continue;
        }
        dueItems := dueItems + [item];
      }
      assert items[..|items|] == items;
      ForgetInactive(activeIDs);
    }

    method ForgetInactive(active: set<string>)
      modifies this
      ensures State() == Cleanup(old(State()), active)
    {
      ghost var was := State();
      var left := nextRunByItem.Keys;
      ghost var gone: set<string> := {};
      while left != {}
        invariant left <= was.nextRun.Keys && gone == (was.nextRun.Keys - left) - active
        invariant State() ==
                  Sched(was.nextRun - gone, was.lastSuccess - gone, was.lastError - gone, was.lastInterval - gone)
        decreases left
      {
        var itemID :| itemID in left;
        left := left - {itemID};
        if itemID in active {
          continue;
        }
        nextRunByItem := nextRunByItem - {itemID};
        lastSuccess := lastSuccess - {itemID};
        lastError := lastError - {itemID};
        lastIntervalByItem := lastIntervalByItem - {itemID};
        MinusOne(was.nextRun, gone, itemID);
        MinusOne(was.lastSuccess, gone, itemID);
        MinusOne(was.lastError, gone, itemID);
        MinusOne(was.lastInterval, gone, itemID);
        gone := gone + {itemID};
      }
    }

    /** The locked update after a failed batch. */
    method FailPhase(dueItems: seq<BackupItem>, text: string)
      modifies this
      ensures State() == Fail(old(State()), dueItems, text)
    {
      assert State() == Fail(State(), dueItems[..0], text);
      for i := 0 to |dueItems|
        invariant State() == Fail(old(State()), dueItems[..i], text)
      {
        FailOneMore(old(State()), dueItems, i, text);
        lastError := lastError[dueItems[i].id := text];
      }
      assert dueItems[..|dueItems|] == dueItems;
    }

    /** The locked update after a successful batch. */
    method SucceedPhase(dueItems: seq<BackupItem>, at: int)
      modifies this
      ensures State() == Succeed(old(State()), dueItems, |dueItems|, at)
    {
      for i := 0 to |dueItems|
        invariant State() == Succeed(old(State()), dueItems, i, at)
      {
        var item := dueItems[i];
        nextRunByItem := nextRunByItem[item.id := at + Interval(item.intervalMinutes)];
        lastSuccess := lastSuccess[item.id := at];
        lastError := lastError - {item.id};
      }
    }

    /** `runOnce`: `config` is what the store loaded, `end` how the runner finished. */
    method RunOnce(config: Option<seq<BackupItem>>, now: int, end: BatchEnd) returns (batch: seq<BackupItem>)
      modifies this
      ensures State() == Tick(old(State()), config, now, end)
      ensures config.None? ==> State() == old(State()) && batch == []
      ensures batch == if config.None? then [] else Plan(old(State()), config.value, now).1
    {
      if config.None? {
        return [];
      }
      batch := PlanPhase(config.value, now);
      if |batch| == 0 {
        return;
      }
      match end
      case Some(text) => FailPhase(batch, text);
      case None => SucceedPhase(batch, now);
    }
  }

  lemma MinusOne<V>(m: map<string, V>, gone: set<string>, id: string)
    ensures m - gone - {id} == m - (gone + {id})
  {
  }

  lemma FailOneMore(s: Sched, due: seq<BackupItem>, i: nat, text: string)
    requires i < |due|
    ensures Fail(s, due[..i + 1], text) ==
            Fail(s, due[..i], text).(lastError := Fail(s, due[..i], text).lastError[due[i].id := text])
  {
    AddId(due, i);
    MarkedGrows(s.lastError, IdsOf(due[..i]), due[i].id, text);
  }

  lemma MarkedGrows(m: map<string, string>, ids: set<string>, id: string, text: string)
    ensures m + Marked(ids + {id}, text) == (m + Marked(ids, text))[id := text]
  {
  }
}
