/** The components together. A saved configuration meets what the scheduler needs of one. And one failing
    item makes the scheduler mark its whole batch failed and run all of it again; the hashes in the
    archive names make that harmless for the items that had already been backed up. */
module Composition {
  import opened Strings
  import opened Domain
  import opened Naming
  import opened Directory
  import opened Backup
  import BackupLog
  import Config
  import opened Scheduler
  import Runs = SchedulerRuns

  /** What `Save` has stored, and every `Load` returns, is a configuration the scheduler's theorems cover. */
  lemma SavedConfigIsSchedulable(v: Config.ConfigValue, ssh: SSHConfig, before: seq<BackupItem>)
    requires v.backups.Some? && Config.Kept(v, ssh, before)
    ensures Runs.LastIsShortest(v.backups.value) && UniqueIds(v.backups.value)
    ensures Config.Settled(v.ssh, v.backups.value)
    ensures forall x :: x in v.backups.value ==>
              x.id != "" && x.intervalMinutes > 0 && x.containerName != "" && x.containerPath != ""
  {
    Config.ValidationExact(v.ssh, v.backups.value);
    Config.DefaultedIsSettled(ssh, before, v.backups.value);
    Runs.UniqueIsLastShortest(v.backups.value);
  }

  ghost predicate DistinctTargets(items: seq<BackupItem>) {
    forall i, j :: 0 <= i < j < |items| ==> BackupSubdirectoryName(items[i]) != BackupSubdirectoryName(items[j])
  }

  // ---------------------------------------------------------------- batches touch their own directories

  predicate SameAt(dirs: Dirs, dirs': Dirs, t: string) {
    (t in dirs <==> t in dirs') && (t in dirs ==> dirs'[t] == dirs[t])
  }

  lemma OneItemFrame(dirs: Dirs, item: BackupItem, a: Attempt, t: string)
    requires t != BackupSubdirectoryName(item)
    ensures SameAt(dirs, BackupOne(dirs, item, a).0, t)
  {
    hide BackupSubdirectoryName, BackupIn;
  }

  /** A batch leaves every directory alone that is none of its items'. */
  lemma {:induction false} BatchFrame(dirs: Dirs, items: seq<BackupItem>, attempts: seq<Attempt>, n: nat, t: string)
    requires n <= |items| == |attempts|
    requires forall i :: 0 <= i < n ==> BackupSubdirectoryName(items[i]) != t
    ensures SameAt(dirs, RunItems(dirs, items, attempts, n).dirs, t)
  {
    hide BackupOne, BackupSubdirectoryName;
    if n == 0 {
    } else {
      BatchFrame(dirs, items, attempts, n - 1, t);
      OneItemFrame(RunItems(dirs, items, attempts, n - 1).dirs, items[n - 1], attempts[n - 1], t);
    }
  }

  /** From position `from` on, a directory belonging to an earlier item stays as it was. */
  lemma {:induction false} LaterItemsFrame(
      dirs: Dirs, items: seq<BackupItem>, attempts: seq<Attempt>, from: nat, n: nat, t: string)
    requires from <= n <= |items| == |attempts|
    requires forall i :: from <= i < n ==> BackupSubdirectoryName(items[i]) != t
    ensures SameAt(RunItems(dirs, items, attempts, from).dirs, RunItems(dirs, items, attempts, n).dirs, t)
  {
    hide BackupOne, BackupSubdirectoryName;
    if from == n {
    } else {
      LaterItemsFrame(dirs, items, attempts, from, n - 1, t);
      OneItemFrame(RunItems(dirs, items, attempts, n - 1).dirs, items[n - 1], attempts[n - 1], t);
    }
  }

  /** As long as nothing has failed there is one outcome per item. */
  lemma {:induction false} OutcomeCount(dirs: Dirs, items: seq<BackupItem>, attempts: seq<Attempt>, m: nat, n: nat)
    requires m <= n <= |items| == |attempts|
    ensures var b, c := RunItems(dirs, items, attempts, m), RunItems(dirs, items, attempts, n);
      c.error.None? ==> b.error.None? && |c.outcomes| == n && |b.outcomes| == m && c.outcomes[..m] == b.outcomes
  {
    hide BackupOne;
    if n == 0 {
    } else {
      OutcomeCount(dirs, items, attempts, if m < n then m else n - 1, n - 1);
    }
  }

  // ---------------------------------------------------------------- what a success leaves, what a rerun finds

  /** What was shown when each directory was last written. */
  type Clock = string -> BackupLog.Stamp

  /** The directory is what backups up to `t` can have left. */
  ghost predicate Pictured(dir: Dir, t: BackupLog.Stamp) {
    exists log :: BackupLog.Represents(dir, log) && BackupLog.Dated(log, t)
  }

  /** Every directory of the tree is. */
  ghost predicate Tree(dirs: Dirs, clock: Clock) {
    forall t :: t in dirs ==> Pictured(dirs[t], clock(t))
  }

  /** If the attempt writes a file it is later than the last write to its directory. */
  ghost predicate InTimeFor(dirs: Dirs, item: BackupItem, a: Attempt, clock: Clock) {
    var t := BackupSubdirectoryName(item);
    a.mkdirOk ==> BackupLog.InTime(Made(dirs, t)[t], a, clock(t))
  }

  ghost function Advance(dirs: Dirs, item: BackupItem, a: Attempt, clock: Clock): Clock {
    var t := BackupSubdirectoryName(item);
    var now := if a.mkdirOk then BackupLog.Stamped(Made(dirs, t)[t], a, clock(t)) else clock(t);
    u => if u == t then now else clock(u)
  }

  /** The clocks after the items a batch has reached among its first `n`. */
  ghost function ClockAfter(dirs: Dirs, clock: Clock, items: seq<BackupItem>, attempts: seq<Attempt>, n: nat): Clock
    requires n <= |items| == |attempts|
  {
    if n == 0 then clock
    else
      var b, c := RunItems(dirs, items, attempts, n - 1), ClockAfter(dirs, clock, items, attempts, n - 1);
      if b.error.Some? then c else Advance(b.dirs, items[n - 1], attempts[n - 1], c)
  }

  /** Each write of the batch is later than the one before it to the same directory. */
  ghost predicate TimelyBatch(dirs: Dirs, clock: Clock, items: seq<BackupItem>, attempts: seq<Attempt>, n: nat)
    requires n <= |items| == |attempts|
  {
    forall i :: 0 <= i < n && RunItems(dirs, items, attempts, i).error.None? ==>
      InTimeFor(RunItems(dirs, items, attempts, i).dirs, items[i], attempts[i],
                ClockAfter(dirs, clock, items, attempts, i))
  }

  lemma MadePictured(dirs: Dirs, clock: Clock, t: string)
    requires Tree(dirs, clock)
    ensures Pictured(Made(dirs, t)[t], clock(t))
  {
    BackupLog.EmptyDirectory();
    BackupLog.NoneDated(clock(t));
  }

  lemma DirectoryStaysPictured(dir: Dir, item: BackupItem, a: Attempt, t: BackupLog.Stamp)
    requires Pictured(dir, t) && BackupLog.InTime(dir, a, t)
    ensures Pictured(BackupIn(dir, item, a).0, BackupLog.Stamped(dir, a, t))
  {
    hide BackupIn, BackupLog.Represents, BackupLog.Dated, BackupLog.InTime, BackupLog.LogBackup, BackupLog.Stamped;
    var log :| BackupLog.Represents(dir, log) && BackupLog.Dated(log, t);
    BackupLog.BackupRefines(dir, log, item, a, t);
    var log' := BackupLog.LogBackup(log, item, a).0;
    assert BackupLog.Represents(BackupIn(dir, item, a).0, log') && BackupLog.Dated(log', BackupLog.Stamped(dir, a, t));
  }

  lemma OneKeepsTree(dirs: Dirs, item: BackupItem, a: Attempt, clock: Clock)
    requires Tree(dirs, clock) && InTimeFor(dirs, item, a, clock)
    ensures Tree(BackupOne(dirs, item, a).0, Advance(dirs, item, a, clock))
  {
    hide BackupSubdirectoryName, BackupIn, Pictured, BackupLog.InTime, BackupLog.Stamped;
    var t := BackupSubdirectoryName(item);
    if a.mkdirOk {
      MadePictured(dirs, clock, t);
      DirectoryStaysPictured(Made(dirs, t)[t], item, a, clock(t));
    }
  }

  lemma FewerTimely(dirs: Dirs, clock: Clock, items: seq<BackupItem>, attempts: seq<Attempt>, n: nat)
    requires 0 < n <= |items| == |attempts| && TimelyBatch(dirs, clock, items, attempts, n)
    ensures TimelyBatch(dirs, clock, items, attempts, n - 1)
    ensures var b := RunItems(dirs, items, attempts, n - 1);
      b.error.None? ==>
        InTimeFor(b.dirs, items[n - 1], attempts[n - 1], ClockAfter(dirs, clock, items, attempts, n - 1))
  {
    hide RunItems, InTimeFor, ClockAfter, BackupSubdirectoryName;
  }

  /** Whatever happens in a batch, every directory stays one that backups can have left. */
  lemma {:induction false} BatchKeepsTree(
      dirs: Dirs, clock: Clock, items: seq<BackupItem>, attempts: seq<Attempt>, n: nat)
    requires n <= |items| == |attempts| && Tree(dirs, clock) && TimelyBatch(dirs, clock, items, attempts, n)
    ensures Tree(RunItems(dirs, items, attempts, n).dirs, ClockAfter(dirs, clock, items, attempts, n))
  {
    hide BackupOne, BackupSubdirectoryName, Tree, InTimeFor, Advance, TimelyBatch;
    if n == 0 {
    } else {
      FewerTimely(dirs, clock, items, attempts, n);
      BatchKeepsTree(dirs, clock, items, attempts, n - 1);
      var b := RunItems(dirs, items, attempts, n - 1);
      if b.error.None? {
        OneKeepsTree(b.dirs, items[n - 1], attempts[n - 1], ClockAfter(dirs, clock, items, attempts, n - 1));
      }
    }
  }

  /** The attempt stored an archive, complete or partial, or found its hash stored. */
  predicate Answered(r: Attempted, a: Attempt) {
    r.Ok? || r.error.PruneFailed? || (r.error.DownloadFailed? && a.download.Failed? && a.download.left.Some?)
  }

  /** The directory holds an archive, and the one that would be restored carries this hash. */
  ghost predicate Holds(dirs: Dirs, t: string, hash: string) {
    t in dirs && LatestName(dirs[t]) != "" && StoredHash(dirs[t]) == hash
  }

  /** The directory holds an archive, and the one that would be restored has the digest of this payload. */
  ghost predicate Restores(dirs: Dirs, t: string, p: Payload, digest: Payload -> string) {
    t in dirs && LatestName(dirs[t]) != "" && digest(dirs[t][LatestName(dirs[t])].payload) == digest(p)
  }

  lemma LogAnswers(log: BackupLog.Log, item: BackupItem, a: Attempt)
    ensures var (log', r) := BackupLog.LogBackup(log, item, a);
      && (Answered(r, a) ==> a.hash.Some? && log' != [] && log'[|log'| - 1].hash == a.hash.value)
      && (Answered(r, a) && r.Err? ==> log'[|log'| - 1] == BackupLog.NewArchive(a))
      && (!Answered(r, a) ==> log' == log)
  {
    hide BackupLog.NameOf;
  }

  /** One attempt, whatever its outcome: either the directory now answers with its hash, or it is as it was. */
  lemma AttemptAnswers(dirs: Dirs, item: BackupItem, a: Attempt, clock: Clock)
    requires Tree(dirs, clock) && InTimeFor(dirs, item, a, clock)
    ensures var (dirs', r) := BackupOne(dirs, item, a);
      var t := BackupSubdirectoryName(item);
      && (Answered(r, a) ==> a.hash.Some? && Holds(dirs', t, a.hash.value))
      && (forall h :: !Answered(r, a) && Holds(dirs, t, h) ==> Holds(dirs', t, h))
  {
    hide BackupSubdirectoryName, BackupIn, StoredHash, LatestName, ArchiveName;
    hide BackupLog.Represents, BackupLog.Dated, BackupLog.InTime, BackupLog.LogBackup;
    var t := BackupSubdirectoryName(item);
    if a.mkdirOk {
      var dir := Made(dirs, t)[t];
      MadePictured(dirs, clock, t);
      var log :| BackupLog.Represents(dir, log) && BackupLog.Dated(log, clock(t));
      var log' := BackupLog.LogBackup(log, item, a).0;
      BackupLog.BackupRefines(dir, log, item, a, clock(t));
      LogAnswers(log, item, a);
      SameLogSameAnswer(dir, log, BackupIn(dir, item, a).0, log');
      if log' != [] {
        BackupLog.LastEntry(BackupIn(dir, item, a).0, log');
      }
    }
  }

  lemma SameLogSameAnswer(dir: Dir, log: BackupLog.Log, dir': Dir, log': BackupLog.Log)
    requires BackupLog.Represents(dir, log) && BackupLog.Represents(dir', log')
    ensures log == log' ==> LatestName(dir) == LatestName(dir') && StoredHash(dir) == StoredHash(dir')
    ensures log == log' && LatestName(dir) != "" ==>
              LatestName(dir) in dir && dir'.Keys >= {LatestName(dir)} && dir'[LatestName(dir)] == dir[LatestName(dir)]
  {
    hide BackupLog.Represents, StoredHash, LatestName;
    BackupLog.LatestIsLast(dir, log);
    BackupLog.LatestIsLast(dir', log');
    if log == log' && log != [] {
      BackupLog.LastEntry(dir, log);
      BackupLog.LastEntry(dir', log');
    }
  }

  ghost predicate FaithfulTree(dirs: Dirs, digest: Payload -> string) {
    forall t :: t in dirs ==> Faithful(dirs[t], digest)
  }

  /** The content of one attempt: the tree stays faithful, and the directory now restores the payload, or
      what it restored before. */
  lemma AttemptRestores(dirs: Dirs, item: BackupItem, a: Attempt, clock: Clock, digest: Payload -> string)
    requires Tree(dirs, clock) && InTimeFor(dirs, item, a, clock) && FaithfulTree(dirs, digest) && Honest(a, digest)
    ensures var (dirs', r) := BackupOne(dirs, item, a);
      var t := BackupSubdirectoryName(item);
      && FaithfulTree(dirs', digest)
      && (Answered(r, a) ==> Restores(dirs', t, a.payload, digest))
      && (forall p :: !Answered(r, a) && Restores(dirs, t, p, digest) ==> Restores(dirs', t, p, digest))
  {
    hide BackupSubdirectoryName, BackupIn, StoredHash, LatestName, ArchiveName, Faithful;
    hide BackupLog.Represents, BackupLog.Dated, BackupLog.LogBackup, CleanHash, Writes;
    var t := BackupSubdirectoryName(item);
    if a.mkdirOk {
      var dir := Made(dirs, t)[t];
      MadePictured(dirs, clock, t);
      NothingIsFaithful(digest);
      var log :| BackupLog.Represents(dir, log) && BackupLog.Dated(log, clock(t));
      DirectoryRestores(dir, log, item, a, digest, clock(t));
    }
  }

  lemma NothingIsFaithful(digest: Payload -> string)
    ensures Faithful(map[], digest)
  {
  }

  lemma DirectoryRestores(
      dir: Dir, log: BackupLog.Log, item: BackupItem, a: Attempt, digest: Payload -> string, t: BackupLog.Stamp)
    requires BackupLog.Represents(dir, log) && BackupLog.Dated(log, t) && BackupLog.InTime(dir, a, t)
    requires Faithful(dir, digest) && Honest(a, digest)
    ensures var (d, r) := BackupIn(dir, item, a);
      && Faithful(d, digest)
      && (Answered(r, a) ==> LatestName(d) != "" && digest(d[LatestName(d)].payload) == digest(a.payload))
      && (!Answered(r, a) && LatestName(dir) != "" ==>
            LatestName(d) == LatestName(dir) && LatestName(d) in d && d[LatestName(d)] == dir[LatestName(dir)])
  {
    hide BackupLog.Represents, BackupLog.Dated, BackupLog.LogBackup, BackupIn, Faithful, CleanHash, LatestName;
    BackupKeepsFaithful(dir, item, a, digest);
    BackupLog.BackupRefines(dir, log, item, a, t);
    var (d, r) := BackupIn(dir, item, a);
    var log' := BackupLog.LogBackup(log, item, a).0;
    LogAnswers(log, item, a);
    SameLogSameAnswer(dir, log, d, log');
    if r.Ok? {
      BackupLog.FaithfulAgrees(dir, log, item, a, digest, t);
    } else if Answered(r, a) {
      BackupLog.LastEntry(d, log');
    }
  }

  lemma SameAtHolds(dirs: Dirs, dirs': Dirs, t: string)
    requires SameAt(dirs, dirs', t)
    ensures forall h :: Holds(dirs, t, h) <==> Holds(dirs', t, h)
    ensures forall p, digest :: Restores(dirs, t, p, digest) <==> Restores(dirs', t, p, digest)
  {
    hide LatestName, StoredHash;
  }

  /** A later look at a payload whose digest is still `hash`; it gets as far as comparing hashes. */
  ghost predicate Unchanged(a: Attempt, hash: string) {
    a.mkdirOk && BackupLog.Reaches(a) && a.hash == Some(hash) && hash != ""
  }

  lemma RerunSkips(dirs: Dirs, item: BackupItem, a: Attempt, hash: string)
    requires Unchanged(a, hash) && Holds(dirs, BackupSubdirectoryName(item), hash)
    ensures BackupOne(dirs, item, a) == (dirs, Ok(Skipped(item.id)))
  {
    hide BackupSubdirectoryName, StoredHash;
    var t := BackupSubdirectoryName(item);
    assert dirs[t := dirs[t]] == dirs;
  }

  /** The first batch: every item it got past answers with its digest afterwards, whatever comes later. */
  lemma PastItemsAreStored(
      dirs: Dirs, clock: Clock, items: seq<BackupItem>, attempts: seq<Attempt>, j: nat, n: nat)
    requires j < n <= |items| == |attempts| && DistinctTargets(items)
    requires Tree(dirs, clock) && TimelyBatch(dirs, clock, items, attempts, j + 1)
    requires RunItems(dirs, items, attempts, j + 1).error.None?
    ensures attempts[j].hash.Some?
    ensures Holds(RunItems(dirs, items, attempts, n).dirs, BackupSubdirectoryName(items[j]), attempts[j].hash.value)
  {
    hide BackupOne, BackupSubdirectoryName, Holds, Restores, Tree, InTimeFor, TimelyBatch, ClockAfter, DistinctTargets;
    var t, b := BackupSubdirectoryName(items[j]), RunItems(dirs, items, attempts, j);
    FewerTimely(dirs, clock, items, attempts, j + 1);
    BatchKeepsTree(dirs, clock, items, attempts, j);
    AttemptAnswers(b.dirs, items[j], attempts[j], ClockAfter(dirs, clock, items, attempts, j));
    OthersElsewhere(items, j);
    LaterItemsFrame(dirs, items, attempts, j + 1, n, t);
    SameAtHolds(RunItems(dirs, items, attempts, j + 1).dirs, RunItems(dirs, items, attempts, n).dirs, t);
  }

  lemma OthersElsewhere(items: seq<BackupItem>, j: nat)
    requires DistinctTargets(items) && j < |items|
    ensures forall i :: 0 <= i < |items| && i != j ==>
              BackupSubdirectoryName(items[i]) != BackupSubdirectoryName(items[j])
  {
    hide BackupSubdirectoryName;
  }

  /** A later batch: an item whose directory already answers with the current digest is skipped if the
      batch reaches it, and its directory is unchanged at every point of the batch. */
  lemma StoredItemsAreSkipped(
      dirs: Dirs, items: seq<BackupItem>, attempts: seq<Attempt>, p: nat, n: nat, hash: string)
    requires p < |items| == |attempts| && n <= |items| && DistinctTargets(items)
    requires Unchanged(attempts[p], hash) && Holds(dirs, BackupSubdirectoryName(items[p]), hash)
    ensures var b := RunItems(dirs, items, attempts, n);
      && SameAt(dirs, b.dirs, BackupSubdirectoryName(items[p]))
      && (b.error.None? && p < n ==> p < |b.outcomes| && b.outcomes[p] == Skipped(items[p].id))
  {
    hide BackupOne, BackupSubdirectoryName, StoredHash, LatestName, Unchanged;
    var t := BackupSubdirectoryName(items[p]);
    if n <= p {
      BatchFrame(dirs, items, attempts, n, t);
    } else {
      var b := RunItems(dirs, items, attempts, p);
      BatchFrame(dirs, items, attempts, p, t);
      RerunSkips(b.dirs, items[p], attempts[p], hash);
      LaterItemsFrame(dirs, items, attempts, p + 1, n, t);
      OutcomeCount(dirs, items, attempts, p, p + 1);
      OutcomeCount(dirs, items, attempts, p + 1, n);
    }
  }

  // ---------------------------------------------------------------- a failed batch is repeated

  /** What planning and a failed batch leave of the schedule. */
  lemma PlanThenFail(s: Sched, clock: int, items: seq<BackupItem>, now: int, text: string)
    requires Runs.Inv(s) && Runs.NoFuture(s, clock) && clock <= now
    ensures var (t, batch) := Plan(s, items, now);
      var failed := Fail(t, batch, text);
      && batch == Runs.ReadyItems(s.lastSuccess, items, now)
      && Runs.Inv(failed) && Runs.NoFuture(failed, now)
      && failed.lastSuccess == Runs.Only(s.lastSuccess, IdsOf(items))
  {
    hide Runs.Inv, Runs.NoFuture, Plan;
    var (t, batch) := Plan(s, items, now);
    Runs.PlanIsExact(s, items, clock, now);
    Runs.PlanKeepsInv(s, items, now);
    Runs.SelectedIds(s.lastSuccess, items, now);
    Runs.InvKeys(t);
    Runs.FailKeepsInv(t, batch, text);
  }

  /** Every item of a failed batch is selected again at the next plan that still contains it, whatever
      else that plan contains. */
  lemma FailedBatchIsDueAgain(
      s: Sched, clock: int, now: int, later: int,
      items: seq<BackupItem>, next: seq<BackupItem>, text: string, item: BackupItem)
    requires Runs.Inv(s) && Runs.NoFuture(s, clock) && clock <= now <= later
    requires item in Plan(s, items, now).1 && item in next
    ensures var (t, batch) := Plan(s, items, now);
      item in Plan(Fail(t, batch, text), next, later).1
  {
    hide Runs.Inv, Runs.NoFuture, Plan, Fail, Interval;
    var (t, batch) := Plan(s, items, now);
    var failed := Fail(t, batch, text);
    PlanThenFail(s, clock, items, now, text);
    Runs.PlanIsExact(failed, next, now, later);
    Runs.SelectElems(items, x => Runs.Ready(s.lastSuccess, x, now));
    Runs.SelectElems(next, x => Runs.Ready(failed.lastSuccess, x, later));
    assert Runs.Ready(failed.lastSuccess, item, later);
  }

  lemma {:induction false} SelectKeepsTargetsDistinct(q: seq<BackupItem>, pick: BackupItem -> bool)
    requires DistinctTargets(q)
    ensures DistinctTargets(Runs.Select(q, pick))
  {
    hide BackupSubdirectoryName;
    if q == [] {
    } else {
      var front, last := q[..|q| - 1], q[|q| - 1];
      var s := Runs.Select(front, pick);
      SelectKeepsTargetsDistinct(front, pick);
      Runs.SelectElems(front, pick);
      forall i | 0 <= i < |s| ensures BackupSubdirectoryName(s[i]) != BackupSubdirectoryName(last) {
        assert s[i] in front;
        var j :| 0 <= j < |front| && front[j] == s[i];
        assert q[j] == s[i];
      }
    }
  }

  lemma BatchTargetsDistinct(s: Sched, clock: int, items: seq<BackupItem>, now: int)
    requires Runs.Inv(s) && Runs.NoFuture(s, clock) && clock <= now && DistinctTargets(items)
    ensures DistinctTargets(Plan(s, items, now).1)
    ensures forall x :: x in Plan(s, items, now).1 ==> x in items
  {
    hide Runs.Inv, Runs.NoFuture, Plan, DistinctTargets;
    Runs.PlanIsExact(s, items, clock, now);
    SelectKeepsTargetsDistinct(items, x => Runs.Ready(s.lastSuccess, x, now));
    Runs.SelectElems(items, x => Runs.Ready(s.lastSuccess, x, now));
  }

  /** The two components joined. A tick plans a batch; the batch gets past its item `j` and stops at an
      error later; the scheduler marks the whole batch failed; a later tick of the same configuration
      plans again. The item is in the new batch, and wherever it stands there, if its digest is the one
      computed before and not empty, its directory never changes while the new batch runs, and once the
      batch is past it its outcome is Skipped. */
  lemma RetryIsHarmless(
      s: Sched, clock: int, items: seq<BackupItem>, now: int, later: int, text: string,
      dirs: Dirs, times: Clock, first: seq<Attempt>, j: nat, second: seq<Attempt>)
    requires Runs.Inv(s) && Runs.NoFuture(s, clock) && clock <= now <= later && DistinctTargets(items)
    requires var (t, batch) := Plan(s, items, now);
      && |first| == |batch| && j < |batch| && |second| == |Plan(Fail(t, batch, text), items, later).1|
      && Tree(dirs, times) && TimelyBatch(dirs, times, batch, first, j + 1)
      && RunItems(dirs, batch, first, j + 1).error.None?
    ensures first[j].hash.Some?
    ensures var (t, batch) := Plan(s, items, now);
      var rerun := Plan(Fail(t, batch, text), items, later).1;
      var before := RunItems(dirs, batch, first, |batch|).dirs;
      && batch[j] in rerun
      && forall p, n ::
           (0 <= p < |rerun| && 0 <= n <= |rerun| && rerun[p] == batch[j] &&
             Unchanged(second[p], first[j].hash.value)) ==>
             var b := RunItems(before, rerun, second, n);
             && SameAt(before, b.dirs, BackupSubdirectoryName(batch[j]))
             && (b.error.None? && p < n ==> p < |b.outcomes| && b.outcomes[p] == Skipped(batch[j].id))
  {
    hide BackupOne, BackupSubdirectoryName, StoredHash, LatestName, Holds, Tree, TimelyBatch, Unchanged;
    hide Plan, Fail, Runs.Inv, Runs.NoFuture, DistinctTargets;
    var (t, batch) := Plan(s, items, now);
    var failed := Fail(t, batch, text);
    var rerun, before := Plan(failed, items, later).1, RunItems(dirs, batch, first, |batch|).dirs;
    BatchTargetsDistinct(s, clock, items, now);
    PlanThenFail(s, clock, items, now, text);
    BatchTargetsDistinct(failed, now, items, later);
    assert batch[j] in batch;
    FailedBatchIsDueAgain(s, clock, now, later, items, items, text, batch[j]);
    PastItemsAreStored(dirs, times, batch, first, j, |batch|);
    forall p, n | 0 <= p < |rerun| && 0 <= n <= |rerun| && rerun[p] == batch[j] &&
        Unchanged(second[p], first[j].hash.value)
      ensures var b := RunItems(before, rerun, second, n);
        && SameAt(before, b.dirs, BackupSubdirectoryName(batch[j]))
        && (b.error.None? && p < n ==> p < |b.outcomes| && b.outcomes[p] == Skipped(batch[j].id))
    {
      StoredItemsAreSkipped(before, rerun, second, p, n, first[j].hash.value);
    }
  }

  // ---------------------------------------------------------------- schedule and archives over whole runs

  /** What can happen to schedule and tree: a tick whose configuration loads, with what its batch meets (`text`
      is the error recorded if it fails; a tick that loads nothing changes nothing); a backup of some items
      asked for through a handler; and the deletion of one file. */
  datatype Happening =
    | Ticked(items: seq<BackupItem>, now: int, connectOk: bool, attempts: seq<Attempt>, text: string)
    | Asked(items: seq<BackupItem>, connectOk: bool, attempts: seq<Attempt>)
    | Deletion(target: string, name: string, removeOk: bool)

  /** The items an event tries to back up. */
  ghost function Batched(s: Sched, e: Happening): seq<BackupItem> {
    match e
    case Ticked(items, now, connectOk, _, _) => if connectOk then Plan(s, items, now).1 else []
    case Asked(items, connectOk, _) => if connectOk then items else []
    case Deletion(_, _, _) => []
  }

  ghost function AttemptsOf(s: Sched, e: Happening): seq<Attempt> {
    if e.Deletion? || !e.connectOk then [] else e.attempts
  }

  /** There is one attempt per item. */
  ghost predicate Fits(s: Sched, e: Happening) {
    |AttemptsOf(s, e)| == |Batched(s, e)|
  }

  ghost function DirsAfter(s: Sched, dirs: Dirs, e: Happening): Dirs
    requires Fits(s, e)
  {
    if e.Deletion? then
      if e.target in dirs then dirs[e.target := DeleteIn(dirs[e.target], e.name, e.removeOk).0] else dirs
    else RunItems(dirs, Batched(s, e), AttemptsOf(s, e), |Batched(s, e)|).dirs
  }

  /** A batch fails if the connection or one of its items does. */
  ghost function EndOf(s: Sched, dirs: Dirs, e: Happening): BatchEnd
    requires Fits(s, e) && e.Ticked?
  {
    if !e.connectOk || RunItems(dirs, Batched(s, e), AttemptsOf(s, e), |Batched(s, e)|).error.Some? then Some(e.text)
    else None
  }

  ghost function SchedAfter(s: Sched, dirs: Dirs, e: Happening): Sched
    requires Fits(s, e)
  {
    if e.Ticked? then Tick(s, Some(e.items), e.now, EndOf(s, dirs, e)) else s
  }

  /** `runOnce` with the batch in the middle, between the two locked phases: the same schedule and tree. */
  method RunTick(
      service: Service, fs: FileSystem, items: seq<BackupItem>, now: int,
      connectOk: bool, attempts: seq<Attempt>, text: string)
    requires Fits(service.State(), Ticked(items, now, connectOk, attempts, text))
    modifies service, fs
    ensures var s, dirs, e := old(service.State()), old(fs.dirs), Ticked(items, now, connectOk, attempts, text);
      service.State() == SchedAfter(s, dirs, e) && fs.dirs == DirsAfter(s, dirs, e)
  {
    hide Plan, Succeed, Fail;
    var batch := service.PlanPhase(items, now);
    if |batch| == 0 {
      return;
    }
    var r := RunBackup(fs, batch, attempts, connectOk);
    match r
    case Ok(_) => service.SucceedPhase(batch, now);
    case Err(_) => service.FailPhase(batch, text);
  }

  /** A backup asked for by hand. */
  method RunAsked(fs: FileSystem, items: seq<BackupItem>, connectOk: bool, attempts: seq<Attempt>, ghost s: Sched)
    requires Fits(s, Asked(items, connectOk, attempts))
    modifies fs
    ensures fs.dirs == DirsAfter(s, old(fs.dirs), Asked(items, connectOk, attempts))
  {
    var _ := RunBackup(fs, items, attempts, connectOk);
  }

  /** A deletion asked for: a request for a known item is a deletion in its directory, any other does nothing. */
  method RunDeletion(
      fs: FileSystem, items: seq<BackupItem>, itemId: string, fileName: string, removeOk: bool, ghost s: Sched)
    modifies fs
    ensures var id, item := TrimSpace(itemId), Config.ItemByID(items, TrimSpace(itemId));
      fs.dirs ==
        if id == "" || item.None? then old(fs.dirs)
        else
          var target := BackupSubdirectoryName(item.value);
          DirsAfter(s, old(fs.dirs), Deletion(target, TrimSpace(fileName), removeOk))
  {
    hide TrimSpace, BackupSubdirectoryName, BadFileName;
    Config.ItemByIDFinds(items, TrimSpace(itemId));
    assert forall t :: t in fs.dirs ==> fs.dirs[t := fs.dirs[t]] == fs.dirs;
    var _ := DeleteBackupFile(fs, items, itemId, fileName, removeOk);
  }

  ghost function ClocksAfter(s: Sched, dirs: Dirs, times: Clock, e: Happening): Clock
    requires Fits(s, e)
  {
    ClockAfter(dirs, times, Batched(s, e), AttemptsOf(s, e), |Batched(s, e)|)
  }

  /** What is known of one directory: nothing yet; the hash and payload of the last attempt that stored an
      archive there or found its hash stored; or that a file was deleted from it since. */
  datatype Answer = Nothing | Given(hash: string, payload: Payload) | Reduced

  /** The answer of directory `t` after the first `n` items of a batch. */
  ghost function AnswerAfter(
      dirs: Dirs, items: seq<BackupItem>, attempts: seq<Attempt>, n: nat, t: string, h: Answer): Answer
    requires n <= |items| == |attempts|
  {
    if n == 0 then h
    else
      var b, a := RunItems(dirs, items, attempts, n - 1), attempts[n - 1];
      var h' := AnswerAfter(dirs, items, attempts, n - 1, t, h);
      if b.error.Some? || BackupSubdirectoryName(items[n - 1]) != t then h'
      else if a.hash.Some? && Answered(BackupOne(b.dirs, items[n - 1], a).1, a) then Given(a.hash.value, a.payload)
      else h'
  }

  ghost function NextAnswer(s: Sched, dirs: Dirs, e: Happening, t: string, h: Answer): Answer
    requires Fits(s, e)
  {
    if e.Deletion? then
      if e.target == t && t in dirs && DeleteIn(dirs[t], e.name, e.removeOk).1.Deleted? then Reduced else h
    else AnswerAfter(dirs, Batched(s, e), AttemptsOf(s, e), |Batched(s, e)|, t, h)
  }

  /** The directory bears the answer out; `honest` is for what the archives contain. */
  ghost predicate Borne(dirs: Dirs, t: string, h: Answer, honest: bool, digest: Payload -> string) {
    h.Given? ==> Holds(dirs, t, h.hash) && (honest ==> Restores(dirs, t, h.payload, digest))
  }

  ghost predicate HonestBatch(attempts: seq<Attempt>, digest: Payload -> string) {
    forall i :: 0 <= i < |attempts| ==> Honest(attempts[i], digest)
  }

  /** One item of a batch: the directory's answer changes only if the item uses it and gets that far. */
  lemma OneAnswers(
      dirs: Dirs, item: BackupItem, a: Attempt, clock: Clock, t: string, h: Answer,
      honest: bool, digest: Payload -> string)
    requires Tree(dirs, clock) && InTimeFor(dirs, item, a, clock) && Borne(dirs, t, h, honest, digest)
    requires honest ==> FaithfulTree(dirs, digest) && Honest(a, digest)
    ensures var (dirs', r) := BackupOne(dirs, item, a);
      && (Answered(r, a) ==> a.hash.Some?)
      && (honest ==> FaithfulTree(dirs', digest))
      && var h' := if BackupSubdirectoryName(item) == t && Answered(r, a) then Given(a.hash.value, a.payload) else h;
         Borne(dirs', t, h', honest, digest)
  {
    hide BackupOne, BackupSubdirectoryName, Tree, InTimeFor, Holds, Restores, FaithfulTree, Honest, Answered;
    AttemptAnswers(dirs, item, a, clock);
    if honest {
      AttemptRestores(dirs, item, a, clock, digest);
    }
    if BackupSubdirectoryName(item) != t {
      OneItemFrame(dirs, item, a, t);
      SameAtHolds(dirs, BackupOne(dirs, item, a).0, t);
    }
  }

  lemma {:induction false} BatchAnswers(
      dirs: Dirs, clock: Clock, items: seq<BackupItem>, attempts: seq<Attempt>, n: nat, t: string, h: Answer,
      honest: bool, digest: Payload -> string)
    requires n <= |items| == |attempts| && Tree(dirs, clock) && TimelyBatch(dirs, clock, items, attempts, n)
    requires honest ==> FaithfulTree(dirs, digest) && HonestBatch(attempts, digest)
    requires Borne(dirs, t, h, honest, digest)
    ensures var b, h' := RunItems(dirs, items, attempts, n), AnswerAfter(dirs, items, attempts, n, t, h);
      && (honest ==> FaithfulTree(b.dirs, digest))
      && Borne(b.dirs, t, h', honest, digest)
      && (!h.Nothing? ==> !h'.Nothing?)
      && (b.error.None? ==> forall i :: 0 <= i < n && BackupSubdirectoryName(items[i]) == t ==> h'.Given?)
  {
    hide BackupOne, BackupSubdirectoryName, Tree, InTimeFor, ClockAfter, TimelyBatch, Borne, FaithfulTree, Honest;
    if n == 0 {
    } else {
      FewerTimely(dirs, clock, items, attempts, n);
      BatchAnswers(dirs, clock, items, attempts, n - 1, t, h, honest, digest);
      var b := RunItems(dirs, items, attempts, n - 1);
      if b.error.None? {
        var h' := AnswerAfter(dirs, items, attempts, n - 1, t, h);
        BatchKeepsTree(dirs, clock, items, attempts, n - 1);
        OneAnswers(b.dirs, items[n - 1], attempts[n - 1], ClockAfter(dirs, clock, items, attempts, n - 1), t, h',
                   honest, digest);
      }
    }
  }

  // ---------------------------------------------------------------- deletions

  lemma DeletionKeepsTree(dirs: Dirs, clock: Clock, target: string, name: string, removeOk: bool)
    requires Tree(dirs, clock) && target in dirs
    ensures Tree(dirs[target := DeleteIn(dirs[target], name, removeOk).0], clock)
  {
    hide BackupLog.Represents, DeleteIn, BadFileName, BackupLog.RemoveNamed;
    var dir := dirs[target];
    var log :| BackupLog.Represents(dir, log) && BackupLog.Dated(log, clock(target));
    BackupLog.DeleteRefines(dir, log, name, removeOk);
    BackupLog.RemoveNamedElems(log, name);
    var log' := BackupLog.LogAfterDelete(log, name, removeOk);
    assert BackupLog.Represents(DeleteIn(dir, name, removeOk).0, log') && BackupLog.Dated(log', clock(target));
  }

  lemma DeletionAnswers(
      dirs: Dirs, target: string, name: string, removeOk: bool, t: string, h: Answer,
      honest: bool, digest: Payload -> string)
    requires target in dirs && Borne(dirs, t, h, honest, digest) && (honest ==> FaithfulTree(dirs, digest))
    ensures var (d, status) := DeleteIn(dirs[target], name, removeOk);
      var dirs' := dirs[target := d];
      && (honest ==> FaithfulTree(dirs', digest))
      && Borne(dirs', t, if target == t && status.Deleted? then Reduced else h, honest, digest)
  {
    hide Faithful, Holds, Restores, BadFileName;
    FewerKeepsFaithful(dirs[target], DeleteIn(dirs[target], name, removeOk).0, digest);
    SameAtHolds(dirs, if target == t then dirs else dirs[target := DeleteIn(dirs[target], name, removeOk).0], t);
    assert dirs[target := dirs[target]] == dirs;
  }

  // ---------------------------------------------------------------- runs

  /** Events that fit one another, with every write later than the one before it to its directory. */
  ghost predicate TimelyRun(s: Sched, dirs: Dirs, times: Clock, es: seq<Happening>)
    decreases es
  {
    es == [] ||
    (&& Fits(s, es[0])
     && TimelyBatch(dirs, times, Batched(s, es[0]), AttemptsOf(s, es[0]), |Batched(s, es[0])|)
     && TimelyRun(SchedAfter(s, dirs, es[0]), DirsAfter(s, dirs, es[0]), ClocksAfter(s, dirs, times, es[0]), es[1..]))
  }

  /** Schedule, tree and the answer of directory `t` after the events. */
  ghost function Run(
      s: Sched, dirs: Dirs, times: Clock, es: seq<Happening>, t: string, h: Answer): (Sched, Dirs, Answer)
    requires TimelyRun(s, dirs, times, es)
    decreases es
  {
    if es == [] then (s, dirs, h)
    else Run(SchedAfter(s, dirs, es[0]), DirsAfter(s, dirs, es[0]), ClocksAfter(s, dirs, times, es[0]), es[1..],
             t, NextAnswer(s, dirs, es[0], t, h))
  }

  /** In every configuration planned, the item, where present, uses directory `t`. */
  ghost predicate HasTarget(es: seq<Happening>, id: string, t: string) {
    forall e, x :: e in es && e.Ticked? && x in e.items && x.id == id ==> BackupSubdirectoryName(x) == t
  }

  ghost predicate HonestRun(es: seq<Happening>, digest: Payload -> string) {
    forall e :: e in es && !e.Deletion? ==> HonestBatch(e.attempts, digest)
  }

  lemma {:induction false} PlanningKeepsSuccesses(s: Sched, items: seq<BackupItem>, n: nat, now: int)
    requires n <= |items|
    ensures PlanItems(s, items, n, now).0.lastSuccess == s.lastSuccess
    ensures forall x :: x in PlanItems(s, items, n, now).1 ==> x in items
  {
    hide NextFor;
    if n == 0 {
    } else {
      PlanningKeepsSuccesses(s, items, n - 1, now);
    }
  }

  /** A tick records a success for nothing but the items of a batch that succeeded. */
  lemma TickRecords(s: Sched, items: seq<BackupItem>, now: int, end: BatchEnd, id: string)
    requires id in Tick(s, Some(items), now, end).lastSuccess && id !in s.lastSuccess
    ensures end.None? && exists i :: 0 <= i < |Plan(s, items, now).1| && Plan(s, items, now).1[i].id == id
    ensures forall x :: x in Plan(s, items, now).1 ==> x in items
  {
    hide PlanItems, Interval, NextFor;
    PlanningKeepsSuccesses(s, items, |items|, now);
    var (t, due) := Plan(s, items, now);
    if due != [] && end.None? {
      Runs.SucceedShape(t, due, |due|, now);
      assert due[..|due|] == due;
    }
  }

  /** One event keeps everything there is to know. */
  lemma EventKeeps(
      s: Sched, dirs: Dirs, times: Clock, e: Happening, id: string, t: string, h: Answer,
      honest: bool, digest: Payload -> string)
    requires Tree(dirs, times) && Fits(s, e) && HasTarget([e], id, t)
    requires TimelyBatch(dirs, times, Batched(s, e), AttemptsOf(s, e), |Batched(s, e)|)
    requires honest ==> FaithfulTree(dirs, digest) && HonestRun([e], digest)
    requires Borne(dirs, t, h, honest, digest) && (id in s.lastSuccess ==> !h.Nothing?)
    ensures Tree(DirsAfter(s, dirs, e), ClocksAfter(s, dirs, times, e))
    ensures honest ==> FaithfulTree(DirsAfter(s, dirs, e), digest)
    ensures Borne(DirsAfter(s, dirs, e), t, NextAnswer(s, dirs, e, t, h), honest, digest)
    ensures id in SchedAfter(s, dirs, e).lastSuccess ==> !NextAnswer(s, dirs, e, t, h).Nothing?
  {
    hide Plan, Tick, Tree, Borne, RunItems, BackupSubdirectoryName, AnswerAfter, TimelyBatch, FaithfulTree, Honest;
    hide DeleteIn;
    assert e in [e];
    if e.Deletion? {
      NoItemsKeepClock(dirs, times);
      if e.target in dirs {
        DeletionKeepsTree(dirs, times, e.target, e.name, e.removeOk);
        DeletionAnswers(dirs, e.target, e.name, e.removeOk, t, h, honest, digest);
      }
    } else {
      var items, attempts := Batched(s, e), AttemptsOf(s, e);
      BatchKeepsTree(dirs, times, items, attempts, |items|);
      BatchAnswers(dirs, times, items, attempts, |items|, t, h, honest, digest);
      if e.Ticked? && id in SchedAfter(s, dirs, e).lastSuccess && id !in s.lastSuccess {
        TickRecords(s, e.items, e.now, EndOf(s, dirs, e), id);
        var i :| 0 <= i < |items| && items[i].id == id;
        assert items[i] in items && items[i] in e.items;
      }
    }
  }

  lemma NoItemsKeepClock(dirs: Dirs, times: Clock)
    ensures ClockAfter(dirs, times, [], [], 0) == times
  {
  }

  lemma {:induction false} RunKeeps(
      s: Sched, dirs: Dirs, times: Clock, es: seq<Happening>, id: string, t: string, h: Answer,
      honest: bool, digest: Payload -> string)
    requires Tree(dirs, times) && TimelyRun(s, dirs, times, es) && HasTarget(es, id, t)
    requires honest ==> FaithfulTree(dirs, digest) && HonestRun(es, digest)
    requires Borne(dirs, t, h, honest, digest) && (id in s.lastSuccess ==> !h.Nothing?)
    ensures var (s', dirs', h') := Run(s, dirs, times, es, t, h);
      Borne(dirs', t, h', honest, digest) && (id in s'.lastSuccess ==> !h'.Nothing?)
    decreases es
  {
    hide Tree, Borne, SchedAfter, DirsAfter, ClocksAfter, NextAnswer, Fits, TimelyBatch, HasTarget, HonestRun;
    hide FaithfulTree, Batched, AttemptsOf;
    if es == [] {
    } else {
      FirstEvent(es, id, t, digest);
      EventKeeps(s, dirs, times, es[0], id, t, h, honest, digest);
      RunKeeps(SchedAfter(s, dirs, es[0]), DirsAfter(s, dirs, es[0]), ClocksAfter(s, dirs, times, es[0]),
               es[1..], id, t, NextAnswer(s, dirs, es[0], t, h), honest, digest);
    }
  }

  lemma FirstEvent(es: seq<Happening>, id: string, t: string, digest: Payload -> string)
    requires es != [] && HasTarget(es, id, t)
    ensures HasTarget([es[0]], id, t) && HasTarget(es[1..], id, t)
    ensures HonestRun(es, digest) ==> HonestRun([es[0]], digest) && HonestRun(es[1..], digest)
  {
    hide BackupSubdirectoryName, HonestBatch;
  }

  /** Schedule and archives, over any run of ticks, backups asked for and deletions: an item with a success on
      record has an archive to restore, unless a file was deleted from its directory since it last answered.
      The archive carries the hash of the last attempt that stored one or found its hash stored, whatever
      failed since; and where hashes are digests and failed downloads leave nothing else behind, it has the
      digest of the payload that attempt saw. */
  lemma SuccessHasArchive(
      s: Sched, dirs: Dirs, times: Clock, es: seq<Happening>, id: string, t: string, h: Answer,
      digest: Payload -> string)
    requires Tree(dirs, times) && TimelyRun(s, dirs, times, es) && HasTarget(es, id, t)
    requires (h.Given? ==> Holds(dirs, t, h.hash)) && (id in s.lastSuccess ==> !h.Nothing?)
    ensures var (s', dirs', h') := Run(s, dirs, times, es, t, h);
      && (id in s'.lastSuccess ==> h'.Given? || h'.Reduced?)
      && (h'.Given? ==> Holds(dirs', t, h'.hash))
      && (FaithfulTree(dirs, digest) && HonestRun(es, digest) && (h.Given? ==> Restores(dirs, t, h.payload, digest)) ==>
            h'.Given? ==> Restores(dirs', t, h'.payload, digest))
  {
    hide Tree, TimelyRun, Run, HasTarget, HonestRun, FaithfulTree, Holds, Restores;
    RunKeeps(s, dirs, times, es, id, t, h, false, digest);
    var h' := Run(s, dirs, times, es, t, h).2;
    assert h'.Nothing? || h'.Given? || h'.Reduced?;
    if FaithfulTree(dirs, digest) && HonestRun(es, digest) && (h.Given? ==> Restores(dirs, t, h.payload, digest)) {
      RunKeeps(s, dirs, times, es, id, t, h, true, digest);
    }
  }
}
