/** What a backup directory is meant to be: a list of archives in the order they were taken. A backup
    looks at the last one, appends, and drops from the front; nothing is parsed, sorted or compared by
    name. The directory of `Backup`, whose whole memory is its file names, refines this list. */
module BackupLog {
  import opened Strings
  import opened Calendar
  import opened Domain
  import opened Naming
  import opened Directory
  import opened Backup

  /** What a file name says of an archive, with the file's time and content. The content need not have the
      hash or kind in the name: a failed download may leave anything there. */
  datatype Archive = Archive(second: nat, modTime: int, hash: string, compressed: bool, payload: Payload)

  type Log = seq<Archive>

  function NameOf(x: Archive): string { ArchiveName(x.second, x.hash, x.compressed) }

  function FileOf(x: Archive): BackupFile { BackupFile(NameOf(x), x.modTime) }

  function Files(log: Log): (q: seq<BackupFile>)
    ensures |q| == |log| && forall i :: 0 <= i < |log| ==> q[i] == FileOf(log[i])
  {
    seq(|log|, i requires 0 <= i < |log| => FileOf(log[i]))
  }

  function NamesIn(log: Log): set<string> {
    set x | x in log :: NameOf(x)
  }

  ghost predicate InOrder(log: Log) {
    && (forall x :: x in log ==> CleanHash(x.hash) && FourDigitYear(x.second))
    && (forall i, j :: 0 <= i < j < |log| ==> log[i].second < log[j].second && log[i].modTime <= log[j].modTime)
  }

  /** Entries the service never creates and never looks at: the legacy hash file, and subdirectories
      whose names could not be archive names. */
  predicate Inert(n: string, e: Entry) {
    if e.Folder? then n == "" || !IsDigit(n[0]) else n == LAST_HASH_FILE
  }

  ghost predicate Represents(dir: Dir, log: Log) {
    && InOrder(log)
    && (forall x :: x in log ==> NameOf(x) in dir && dir[NameOf(x)] == File(x.modTime, x.payload))
    && (forall n :: n in dir ==> n in NamesIn(log) || Inert(n, dir[n]))
  }

  lemma ArchiveNamesDiffer(x: Archive, e: Entry)
    ensures NameOf(x) != "" && IsDigit(NameOf(x)[0]) && !Inert(NameOf(x), e) && NameOf(x) != LAST_HASH_FILE
  {
    NameAfterTimestamp(x.second, x.hash, x.compressed);
    assert LAST_HASH_FILE[0] == '.';
  }

  lemma NamesAscend(log: Log, i: nat, j: nat)
    requires InOrder(log) && i < j < |log|
    ensures Less(NameOf(log[i]), NameOf(log[j])) && Before(FileOf(log[i]), FileOf(log[j]))
  {
    ArchiveNameOrder(log[i].second, log[i].hash, log[i].compressed, log[j].second, log[j].hash, log[j].compressed);
  }

  // ---------------------------------------------------------------- reading the directory

  lemma CandidatesAreArchives(dir: Dir, log: Log)
    requires Represents(dir, log)
    ensures Candidates(dir) == NamesIn(log)
  {
    forall n ensures n in Candidates(dir) <==> n in NamesIn(log) {
      if n in NamesIn(log) {
        var x :| x in log && NameOf(x) == n;
        ArchiveNamesDiffer(x, dir[n]);
      }
    }
  }

  /** The string maximum is the archive taken last, and parsing its name gives the hash it was taken with. */
  lemma LatestIsLast(dir: Dir, log: Log)
    requires Represents(dir, log)
    ensures log == [] ==> LatestName(dir) == "" && StoredHash(dir) == ""
    ensures log != [] ==> LatestName(dir) == NameOf(log[|log| - 1]) && StoredHash(dir) == log[|log| - 1].hash
  {
    hide ArchiveName, HashInName, HasSuffix, Candidates, Inert;
    CandidatesAreArchives(dir, log);
    if log != [] {
      var last := log[|log| - 1];
      assert last in log && NameOf(last) in NamesIn(log);
      forall n | n in NamesIn(log) ensures n == NameOf(last) || Less(n, NameOf(last)) {
        var i :| 0 <= i < |log| && NameOf(log[i]) == n;
        if i < |log| - 1 { NamesAscend(log, i, |log| - 1); }
      }
      MaxIsLatest(dir, NameOf(last));
      NameDeterminesArchive(last.second, last.hash, last.compressed);
      ArchiveNamesDiffer(last, Folder);
    }
  }

  /** Age order, by modification time and then name, is the order of the log. */
  lemma AgeIsLogOrder(dir: Dir, log: Log)
    requires Represents(dir, log)
    ensures ByAge(dir) == Files(log)
  {
    hide ArchiveName, Before, Visible;
    forall i, j | 0 <= i < j < |log| ensures Before(Files(log)[i], Files(log)[j]) {
      NamesAscend(log, i, j);
    }
    forall f ensures f in Visible(dir) <==> f in Files(log) {
      VisibleIsLogged(dir, log, f);
    }
    AscendingUnique(ByAge(dir), Files(log));
  }

  lemma VisibleIsLogged(dir: Dir, log: Log, f: BackupFile)
    requires Represents(dir, log)
    ensures f in Visible(dir) <==> f in Files(log)
  {
    hide ArchiveName, InOrder;
    VisibleByName(dir, f);
    if f in Files(log) {
      var i :| 0 <= i < |log| && Files(log)[i] == f;
      assert log[i] in log;
      ArchiveNamesDiffer(log[i], Folder);
    }
    forall x | x in log ensures FileOf(x) in Files(log) {
      var i :| 0 <= i < |log| && log[i] == x;
      assert Files(log)[i] == FileOf(x);
    }
  }

  // ---------------------------------------------------------------- changing the directory

  lemma SuffixInOrder(log: Log, k: nat)
    requires InOrder(log) && k <= |log|
    ensures InOrder(log[k..])
  {
    forall x | x in log[k..] ensures x in log {
    }
  }

  /** Removing the `k` oldest files drops the first `k` archives. */
  lemma DropOldest(dir: Dir, log: Log, k: nat)
    requires Represents(dir, log) && k <= |log|
    ensures k <= |ByAge(dir)| && Represents(WithoutOldest(dir, k), log[k..])
  {
    hide NameOf, InOrder, ByAge, Inert, WithoutOldest, NamesIn;
    SuffixInOrder(log, k);
    NewerStay(dir, log, k);
    OlderGo(dir, log, k);
  }

  lemma NewerStay(dir: Dir, log: Log, k: nat)
    requires Represents(dir, log) && k <= |log|
    ensures k <= |ByAge(dir)|
    ensures var d := WithoutOldest(dir, k);
            forall x :: x in log[k..] ==> NameOf(x) in d && d[NameOf(x)] == File(x.modTime, x.payload)
  {
    hide NameOf, InOrder, ByAge;
    AgeIsLogOrder(dir, log);
    forall x | x in log[k..] ensures x in log && NameOf(x) in WithoutOldest(dir, k) {
      var i :| 0 <= i < |log[k..]| && log[k..][i] == x;
      NewerStays(dir, log, k, k + i);
    }
  }

  lemma OlderGo(dir: Dir, log: Log, k: nat)
    requires Represents(dir, log) && k <= |log|
    ensures k <= |ByAge(dir)|
    ensures var d := WithoutOldest(dir, k); forall n :: n in d ==> n in NamesIn(log[k..]) || Inert(n, d[n])
  {
    hide NameOf, InOrder, ByAge, Inert;
    AgeIsLogOrder(dir, log);
    forall i | 0 <= i < k ensures NameOf(log[i]) !in WithoutOldest(dir, k) {
      OlderGoes(dir, log, k, i);
    }
    forall n | n in WithoutOldest(dir, k) && n in NamesIn(log) ensures n in NamesIn(log[k..]) {
      var i :| 0 <= i < |log| && NameOf(log[i]) == n;
      assert log[k..][i - k] == log[i];
    }
  }

  lemma NewerStays(dir: Dir, log: Log, k: nat, i: nat)
    requires Represents(dir, log) && k <= i < |log|
    ensures k <= |ByAge(dir)| && NameOf(log[i]) in WithoutOldest(dir, k)
  {
    hide ArchiveName, Represents, Visible, NameOf;
    AgeIsLogOrder(dir, log);
    WithoutOldestShape(dir, k);
    var d, f := WithoutOldest(dir, k), FileOf(log[i]);
    assert Files(log)[k..][i - k] == f;
    InByAge(d, f);
    VisibleByName(d, f);
  }

  lemma OlderGoes(dir: Dir, log: Log, k: nat, i: nat)
    requires Represents(dir, log) && i < k <= |log|
    ensures k <= |ByAge(dir)| && NameOf(log[i]) !in WithoutOldest(dir, k)
  {
    hide ArchiveName, Represents, Visible, NameOf;
    AgeIsLogOrder(dir, log);
    assert ByAge(dir)[..k][i] == FileOf(log[i]);
  }

  ghost predicate After(x: Archive, log: Log) {
    && CleanHash(x.hash) && FourDigitYear(x.second)
    && forall y :: y in log ==> y.second < x.second && y.modTime <= x.modTime
  }

  lemma NewerName(y: Archive, x: Archive)
    requires y.second < x.second && FourDigitYear(x.second)
    ensures NameOf(y) != NameOf(x)
  {
    ArchiveNameOrder(y.second, y.hash, y.compressed, x.second, x.hash, x.compressed);
    LessIrreflexive(NameOf(x));
  }

  /** Writing a new archive appends it. */
  lemma AppendNewest(dir: Dir, log: Log, x: Archive)
    requires Represents(dir, log) && After(x, log)
    ensures Represents(dir[NameOf(x) := File(x.modTime, x.payload)], log + [x])
    ensures NameOf(x) in dir ==> !dir[NameOf(x)].Folder?
  {
    hide ArchiveName, CleanHash, FourDigitYear;
    var log', d := log + [x], dir[NameOf(x) := File(x.modTime, x.payload)];
    forall y | y in log' ensures y in log || y == x {
    }
    assert x in log';
    forall y | y in log ensures y in log' && NameOf(y) != NameOf(x) {
      NewerName(y, x);
    }
    forall n | n in d ensures n in NamesIn(log') || Inert(n, d[n]) {
      if n in NamesIn(log) {
        var y :| y in log && NameOf(y) == n;
      }
    }
    if NameOf(x) in dir { ArchiveNamesDiffer(x, dir[NameOf(x)]); }
  }

  // ---------------------------------------------------------------- the log machine

  function LastHashOf(log: Log): string {
    if log == [] then "" else log[|log| - 1].hash
  }

  function Keep(log: Log, maxBackups: int, faults: Faults): (Log, bool) {
    if maxBackups <= 0 then (log, true)
    else if faults.readDir || exists x :: x in log && NameOf(x) in faults.stat then (log, false)
    else if |log| <= maxBackups then (log, true)
    else
      var k := Removable(Files(log)[..|log| - maxBackups], faults.remove);
      (log[k..], k == |log| - maxBackups)
  }

  /** One attempt, as the list sees it. A partial file left by a failed download is an archive too. */
  function LogBackup(log: Log, item: BackupItem, a: Attempt): (Log, Attempted) {
    if !a.stagingOk then (log, Err(StagingFailed))
    else if !a.copyOk then (log, Err(CopyFailed))
    else if !a.probeOk then (log, Err(ProbeFailed))
    else if a.hash.None? then (log, Err(HashFailed))
    else if a.listOk && LastHashOf(log) != "" && LastHashOf(log) == a.hash.value then (log, Ok(Skipped(item.id)))
    else if a.payload.isDir && !a.archiveOk then (log, Err(ArchiveFailed))
    else
      var x := Archive(a.second, a.modTime, a.hash.value, a.payload.isDir, a.payload);
      match a.download
      case Failed(None) => (log, Err(DownloadFailed))
      case Failed(Some(q)) => (log + [x.(payload := q)], Err(DownloadFailed))
      case Complete =>
        var (kept, ok) := Keep(log + [x], item.maxBackups, a.faults);
        (kept, if ok then Ok(Archived(item.id, NameOf(x), a.payload.isDir)) else Err(PruneFailed))
  }

  lemma PruneRefines(dir: Dir, log: Log, maxBackups: int, faults: Faults)
    requires Represents(dir, log)
    ensures var (d, ok), (kept, fine) := Prune(dir, maxBackups, faults), Keep(log, maxBackups, faults);
      Represents(d, kept) && ok == fine
  {
    hide ArchiveName, Represents, Visible;
    AgeIsLogOrder(dir, log);
    StatAgrees(dir, log, faults.stat);
    if 0 < maxBackups < |log| {
      DropOldest(dir, log, Removable(Files(log)[..|log| - maxBackups], faults.remove));
    }
  }

  lemma StatAgrees(dir: Dir, log: Log, stat: set<string>)
    requires Represents(dir, log)
    ensures (exists f :: f in Visible(dir) && f.name in stat) <==> (exists x :: x in log && NameOf(x) in stat)
  {
    hide ArchiveName, Represents, Visible;
    AgeIsLogOrder(dir, log);
    if x :| x in log && NameOf(x) in stat {
      var i :| 0 <= i < |log| && log[i] == x;
      assert Files(log)[i] == FileOf(x);
      InByAge(dir, FileOf(x));
    }
    if f :| f in Visible(dir) && f.name in stat {
      InByAge(dir, f);
      var i :| 0 <= i < |log| && Files(log)[i] == f;
      assert log[i] in log;
    }
  }

  /** What the clock and the newest file showed when a file was last written. */
  datatype Stamp = Stamp(sec: int, mt: int)

  /** What the refinement needs of an attempt that writes a file: its clock reading is later than the one
      before and in a four-digit year, its file is no older, and its digest can stand in a file name. */
  ghost predicate Timely(a: Attempt, t: Stamp) {
    && t.sec < a.second && FourDigitYear(a.second) && t.mt <= a.modTime
    && (a.hash.Some? ==> CleanHash(a.hash.value))
  }

  /** The attempt is timely if it writes a file; otherwise nothing is asked of its clock. */
  ghost predicate InTime(dir: Dir, a: Attempt, t: Stamp) {
    Writes(a, StoredHash(dir)) ==> Timely(a, t)
  }

  ghost function Stamped(dir: Dir, a: Attempt, t: Stamp): Stamp {
    if Writes(a, StoredHash(dir)) then Stamp(a.second, a.modTime) else t
  }

  /** No archive is newer than the last write. */
  ghost predicate Dated(log: Log, t: Stamp) {
    forall x :: x in log ==> x.second <= t.sec && x.modTime <= t.mt
  }

  lemma NoneDated(t: Stamp)
    ensures Dated([], t)
  {
  }

  /** One backup step of the directory is the step of the list: same outcome, related results. */
  lemma BackupRefines(dir: Dir, log: Log, item: BackupItem, a: Attempt, t: Stamp)
    requires Represents(dir, log) && Dated(log, t) && InTime(dir, a, t)
    ensures var (d, r), (log', r') := BackupIn(dir, item, a), LogBackup(log, item, a);
      Represents(d, log') && r == r' && Dated(log', Stamped(dir, a, t))
  {
    hide ArchiveName, Represents, Dated, Keep, Prune, HashInName, CleanHash, FourDigitYear;
    LatestIsLast(dir, log);
    if Writes(a, StoredHash(dir)) {
      var x := NewArchive(a);
      AfterAll(log, x, a, t);
      AppendNewest(dir, log, x);
      PruneRefines(dir[NameOf(x) := File(x.modTime, x.payload)], log + [x], item.maxBackups, a.faults);
      BackupDates(log, item, a, t);
    } else if a.hash.Some? {
      NameIsNoFolder(dir, log, NewArchive(a));
    }
  }

  lemma NameIsNoFolder(dir: Dir, log: Log, x: Archive)
    requires Represents(dir, log)
    ensures NameOf(x) in dir ==> !dir[NameOf(x)].Folder?
  {
    hide ArchiveName, InOrder;
    if NameOf(x) in dir { ArchiveNamesDiffer(x, dir[NameOf(x)]); }
  }

  /** The archive a download step leaves behind, complete or partial. */
  function NewArchive(a: Attempt): (x: Archive)
    requires a.hash.Some?
  {
    Archive(a.second, a.modTime, a.hash.value, a.payload.isDir,
            if a.download.Failed? && a.download.left.Some? then a.download.left.value else a.payload)
  }

  lemma AfterAll(log: Log, x: Archive, a: Attempt, t: Stamp)
    requires Dated(log, t) && Timely(a, t) && a.hash.Some? && x == NewArchive(a)
    ensures After(x, log) && NameOf(x) == ArchiveName(a.second, a.hash.value, a.payload.isDir)
  {
  }

  lemma BackupDates(log: Log, item: BackupItem, a: Attempt, t: Stamp)
    requires Dated(log, t) && Timely(a, t)
    ensures Dated(LogBackup(log, item, a).0, Stamp(a.second, a.modTime))
  {
    hide ArchiveName, CleanHash, FourDigitYear;
    KeepIsSuffix(log, item, a);
  }

  /** Nothing enters the list but the new archive. */
  lemma KeepIsSuffix(log: Log, item: BackupItem, a: Attempt)
    ensures a.hash.Some? ==> forall x :: x in LogBackup(log, item, a).0 ==> x in log || x == NewArchive(a)
    ensures a.hash.None? ==> LogBackup(log, item, a).0 == log
  {
  }

  // ---------------------------------------------------------------- deleting one archive

  function RemoveNamed(log: Log, name: string): Log {
    if log == [] then [] else (if NameOf(log[0]) == name then [] else [log[0]]) + RemoveNamed(log[1..], name)
  }

  lemma {:induction false} RemoveNamedElems(log: Log, name: string)
    ensures forall x :: x in RemoveNamed(log, name) <==> x in log && NameOf(x) != name
  {
    hide NameOf;
    if log == [] {
    } else {
      RemoveNamedElems(log[1..], name);
      assert forall x :: x in log <==> x == log[0] || x in log[1..];
    }
  }

  lemma ConsInOrder(x: Archive, rest: Log)
    requires InOrder(rest) && CleanHash(x.hash) && FourDigitYear(x.second)
    requires forall y :: y in rest ==> x.second < y.second && x.modTime <= y.modTime
    ensures InOrder([x] + rest)
  {
    hide CleanHash, FourDigitYear;
    var log := [x] + rest;
    forall i, j | 0 <= i < j < |log| ensures log[i].second < log[j].second && log[i].modTime <= log[j].modTime {
      assert log[j] == rest[j - 1] && rest[j - 1] in rest;
    }
  }

  lemma {:induction false} RemoveNamedInOrder(log: Log, name: string)
    requires InOrder(log)
    ensures InOrder(RemoveNamed(log, name))
  {
    hide NameOf, InOrder;
    if log == [] {
    } else {
      var rest := RemoveNamed(log[1..], name);
      SuffixInOrder(log, 1);
      RemoveNamedInOrder(log[1..], name);
      RemoveNamedElems(log[1..], name);
      HeadIsOldest(log);
      ConsInOrder(log[0], rest);
      assert [] + rest == rest;
    }
  }

  lemma HeadIsOldest(log: Log)
    requires log != [] && InOrder(log)
    ensures CleanHash(log[0].hash) && FourDigitYear(log[0].second)
    ensures forall y :: y in log[1..] ==> log[0].second < y.second && log[0].modTime <= y.modTime
  {
    hide CleanHash, FourDigitYear;
    assert log[0] in log;
    forall y | y in log[1..] ensures log[0].second < y.second && log[0].modTime <= y.modTime {
      var i :| 0 <= i < |log[1..]| && log[1..][i] == y;
      assert log[i + 1] == y;
    }
  }

  lemma DeleteRefines(dir: Dir, log: Log, name: string, removeOk: bool)
    requires Represents(dir, log)
    ensures Represents(DeleteIn(dir, name, removeOk).0,
                       if BadFileName(name) || !removeOk then log else RemoveNamed(log, name))
  {
    hide ArchiveName, InOrder, BadFileName;
    var log', d := RemoveNamed(log, name), DeleteIn(dir, name, removeOk).0;
    RemoveNamedElems(log, name);
    RemoveNamedInOrder(log, name);
    if !BadFileName(name) && removeOk {
      forall n | n in d ensures n in NamesIn(log') || Inert(n, d[n]) {
        if n in NamesIn(log) {
          var x :| x in log && NameOf(x) == n;
          assert x in log';
        }
      }
    }
  }

  // ---------------------------------------------------------------- whole histories

  datatype Event = Backup(item: BackupItem, a: Attempt) | Delete(name: string, removeOk: bool)

  /** A directory after a history, with the outcome of every backup in it. */
  ghost function RunDir(dir: Dir, es: seq<Event>): (Dir, seq<Attempted>)
    decreases es
  {
    if es == [] then (dir, [])
    else
      match es[0]
      case Backup(item, a) =>
        var (d, r) := BackupIn(dir, item, a);
        var (d', rs) := RunDir(d, es[1..]);
        (d', [r] + rs)
      case Delete(name, removeOk) => RunDir(DeleteIn(dir, name, removeOk).0, es[1..])
  }

  function RunLog(log: Log, es: seq<Event>): (Log, seq<Attempted>)
    decreases es
  {
    if es == [] then (log, [])
    else
      match es[0]
      case Backup(item, a) =>
        var (log', r) := LogBackup(log, item, a);
        var (log'', rs) := RunLog(log', es[1..]);
        (log'', [r] + rs)
      case Delete(name, removeOk) =>
        RunLog(if BadFileName(name) || !removeOk then log else RemoveNamed(log, name), es[1..])
  }

  /** Every backup of the history that writes a file is later than the write before it. */
  ghost predicate TimelyHistory(dir: Dir, es: seq<Event>, t: Stamp)
    decreases es
  {
    es == [] ||
    match es[0]
    case Backup(item, a) =>
      InTime(dir, a, t) && TimelyHistory(BackupIn(dir, item, a).0, es[1..], Stamped(dir, a, t))
    case Delete(name, removeOk) => TimelyHistory(DeleteIn(dir, name, removeOk).0, es[1..], t)
  }

  /** The last write after a history. */
  ghost function StampAfter(dir: Dir, es: seq<Event>, t: Stamp): Stamp
    decreases es
  {
    if es == [] then t
    else
      match es[0]
      case Backup(item, a) => StampAfter(BackupIn(dir, item, a).0, es[1..], Stamped(dir, a, t))
      case Delete(name, removeOk) => StampAfter(DeleteIn(dir, name, removeOk).0, es[1..], t)
  }

  function LogAfterDelete(log: Log, name: string, removeOk: bool): Log {
    if BadFileName(name) || !removeOk then log else RemoveNamed(log, name)
  }

  /** The refinement, over every history of backups, failures and deletions: the directory stays a
      picture of the list, and every backup has the outcome the list gives it. */
  lemma {:induction false} HistoryRefines(dir: Dir, log: Log, es: seq<Event>, t: Stamp)
    requires Represents(dir, log) && Dated(log, t) && TimelyHistory(dir, es, t)
    ensures Represents(RunDir(dir, es).0, RunLog(log, es).0)
    ensures RunDir(dir, es).1 == RunLog(log, es).1
    ensures Dated(RunLog(log, es).0, StampAfter(dir, es, t))
    decreases es
  {
    hide Represents, InTime, Stamped, LogBackup, BackupIn, DeleteIn, RemoveNamed, BadFileName;
    if es == [] {
    } else {
      match es[0]
      case Backup(item, a) =>
        BackupRefines(dir, log, item, a, t);
        HistoryRefines(BackupIn(dir, item, a).0, LogBackup(log, item, a).0, es[1..], Stamped(dir, a, t));
      case Delete(name, removeOk) =>
        DeleteRefines(dir, log, name, removeOk);
        RemoveNamedElems(log, name);
        HistoryRefines(DeleteIn(dir, name, removeOk).0, LogAfterDelete(log, name, removeOk), es[1..], t);
    }
  }

  // ---------------------------------------------------------------- agreement of backup and restore

  lemma LastEntry(dir: Dir, log: Log)
    requires Represents(dir, log) && log != []
    ensures var x := log[|log| - 1];
      && LatestName(dir) == NameOf(x) && NameOf(x) != "" && NameOf(x) in dir
      && dir[NameOf(x)] == File(x.modTime, x.payload)
      && StoredHash(dir) == x.hash && (HasSuffix(NameOf(x), ARCHIVE_SUFFIX) <==> x.compressed)
  {
    hide ArchiveName, HashInName, StoredHash, HasSuffix;
    var x := log[|log| - 1];
    LatestIsLast(dir, log);
    ArchiveNamesDiffer(x, Folder);
    assert x in log;
    NameDeterminesArchive(x.second, x.hash, x.compressed);
  }

  /** After a success the list ends with the archive just stored, or with the one whose hash was found. */
  lemma LastAfterSuccess(log: Log, item: BackupItem, a: Attempt)
    requires LogBackup(log, item, a).1.Ok?
    ensures var log' := LogBackup(log, item, a).0;
      && a.hash.Some? && log' != [] && log'[|log'| - 1].hash == a.hash.value
      && if a.listOk && LastHashOf(log) == a.hash.value && a.hash.value != "" then log' == log
         else log'[|log'| - 1] == NewArchive(a) && NewArchive(a).payload == a.payload
  {
    hide NameOf;
    var log' := LogBackup(log, item, a).0;
    if !LogBackup(log, item, a).1.value.Skipped? {
      assert log'[|log'| - 1] == (log + [NewArchive(a)])[|log|];
    }
  }

  /** Restoring gives back what the last successful backup saw, exactly when: at every directory backups can
      have made, after a backup that succeeds, the file picked for restoring has the digest of the payload if
      and only if the hash computed was not found stored (or is empty), or the archive it was found on has it. */
  lemma AgreementExact(dir: Dir, log: Log, item: BackupItem, a: Attempt, digest: Payload -> string, t: Stamp)
    requires Represents(dir, log) && Dated(log, t) && InTime(dir, a, t) && BackupIn(dir, item, a).1.Ok?
    ensures var d := BackupIn(dir, item, a).0;
      var name := LatestName(d);
      && name != "" && name in d && d[name].File? && a.hash == Some(StoredHash(d))
      && (digest(d[name].payload) == digest(a.payload) <==>
            LastHash(StoredHash(dir), a) != a.hash.value || a.hash.value == "" ||
            digest(dir[LatestName(dir)].payload) == digest(a.payload))
  {
    hide ArchiveName, HashInName, StoredHash, HasSuffix, Represents, Dated, InTime, BackupIn, LogBackup, LatestName;
    var log' := LogBackup(log, item, a).0;
    BackupRefines(dir, log, item, a, t);
    LastAfterSuccess(log, item, a);
    LastEntry(BackupIn(dir, item, a).0, log');
    LatestIsLast(dir, log);
    if log != [] {
      LastEntry(dir, log);
    }
  }

  /** The same after every history from a directory without archives. */
  lemma HistoryAgreesExact(
      dir: Dir, es: seq<Event>, item: BackupItem, a: Attempt, digest: Payload -> string, t: Stamp)
    requires Represents(dir, []) && TimelyHistory(dir, es, t)
    requires InTime(RunDir(dir, es).0, a, StampAfter(dir, es, t)) && BackupIn(RunDir(dir, es).0, item, a).1.Ok?
    ensures var before, d := RunDir(dir, es).0, BackupIn(RunDir(dir, es).0, item, a).0;
      var name := LatestName(d);
      && name != "" && name in d && d[name].File? && a.hash == Some(StoredHash(d))
      && (digest(d[name].payload) == digest(a.payload) <==>
            LastHash(StoredHash(before), a) != a.hash.value || a.hash.value == "" ||
            (LatestName(before) in before && before[LatestName(before)].File? &&
              digest(before[LatestName(before)].payload) == digest(a.payload)))
  {
    hide Represents, Dated, InTime, TimelyHistory, StampAfter, BackupIn, RunDir, RunLog, LogBackup;
    hide HashInName, LatestName;
    NoneDated(t);
    HistoryRefines(dir, [], es, t);
    var before, log := RunDir(dir, es).0, RunLog([], es).0;
    AgreementExact(before, log, item, a, digest, StampAfter(dir, es, t));
    LatestIsLast(before, log);
    if log != [] {
      LastEntry(before, log);
    }
  }

  /** The digest tells files from directories. */
  ghost predicate SeparatesKinds(digest: Payload -> string) {
    forall p, q :: digest(p) == digest(q) && digest(p) != "" ==> p.isDir == q.isDir
  }

  ghost predicate HonestHistory(es: seq<Event>, digest: Payload -> string) {
    forall e :: e in es && e.Backup? ==> Honest(e.a, digest)
  }

  lemma {:induction false} HistoryIsFaithful(dir: Dir, es: seq<Event>, digest: Payload -> string, t: Stamp)
    requires Faithful(dir, digest) && HonestHistory(es, digest) && TimelyHistory(dir, es, t)
    ensures Faithful(RunDir(dir, es).0, digest)
    decreases es
  {
    hide BackupIn, BadFileName, Faithful, Honest, CleanHash, FourDigitYear, StoredHash;
    if es == [] {
    } else {
      assert es[0] in es;
      match es[0]
      case Backup(item, a) =>
        BackupKeepsFaithful(dir, item, a, digest);
        HistoryIsFaithful(BackupIn(dir, item, a).0, es[1..], digest, Stamped(dir, a, t));
      case Delete(name, removeOk) =>
        FewerKeepsFaithful(dir, DeleteIn(dir, name, removeOk).0, digest);
        HistoryIsFaithful(DeleteIn(dir, name, removeOk).0, es[1..], digest, t);
    }
  }

  lemma EmptyIsFaithful(dir: Dir, digest: Payload -> string)
    requires Represents(dir, [])
    ensures Faithful(dir, digest)
  {
    CandidatesAreArchives(dir, []);
  }

  /** What a faithful directory holds after a success: the restore source has the digest of the payload, and
      its name says the payload's kind. */
  lemma FaithfulAgrees(
      dir: Dir, log: Log, item: BackupItem, a: Attempt, digest: Payload -> string, t: Stamp)
    requires Represents(dir, log) && Dated(log, t) && InTime(dir, a, t) && BackupIn(dir, item, a).1.Ok?
    requires Faithful(dir, digest) && Honest(a, digest)
    ensures var d := BackupIn(dir, item, a).0;
      var name := LatestName(d);
      && name != "" && name in d && d[name].File? && a.hash == Some(StoredHash(d))
      && digest(d[name].payload) == digest(a.payload)
      && (SeparatesKinds(digest) ==> (HasSuffix(name, ARCHIVE_SUFFIX) <==> a.payload.isDir))
  {
    hide ArchiveName, HashInName, HasSuffix, Represents, Dated, InTime, BackupIn, LogBackup, LatestName;
    AgreementExact(dir, log, item, a, digest, t);
    BackupRefines(dir, log, item, a, t);
    LastAfterSuccess(log, item, a);
    LastEntry(BackupIn(dir, item, a).0, LogBackup(log, item, a).0);
    LatestIsLast(dir, log);
    if log != [] {
      LastEntry(dir, log);
      assert LatestName(dir) in Candidates(dir);
    }
  }

  /** When failed downloads leave nothing else behind the condition always holds: after any such history, with
      attempts whose hash command printed nothing among them, and a further backup that reports success,
      skipped or not, the restore source has the digest of the payload just backed up, and it is treated as a
      directory exactly when the payload was one. */
  lemma RestoreAgreesWithBackup(
      dir: Dir, es: seq<Event>, item: BackupItem, a: Attempt, digest: Payload -> string, t: Stamp)
    requires Represents(dir, [])
    requires TimelyHistory(dir, es, t) && HonestHistory(es, digest)
    requires InTime(RunDir(dir, es).0, a, StampAfter(dir, es, t)) && Honest(a, digest)
    requires BackupIn(RunDir(dir, es).0, item, a).1.Ok?
    ensures var d := BackupIn(RunDir(dir, es).0, item, a).0;
      var name := LatestName(d);
      && name != "" && name in d && d[name].File?
      && a.hash == Some(StoredHash(d))
      && digest(d[name].payload) == digest(a.payload)
      && (SeparatesKinds(digest) ==> (HasSuffix(name, ARCHIVE_SUFFIX) <==> a.payload.isDir))
  {
    hide Represents, Dated, InTime, TimelyHistory, StampAfter, BackupIn, RunDir, RunLog, HashInName, LatestName;
    hide HonestHistory, Honest, HasSuffix, StoredHash, SeparatesKinds, Faithful;
    NoneDated(t);
    EmptyIsFaithful(dir, digest);
    HistoryRefines(dir, [], es, t);
    HistoryIsFaithful(dir, es, digest, t);
    FaithfulAgrees(RunDir(dir, es).0, RunLog([], es).0, item, a, digest, StampAfter(dir, es, t));
  }

  /** Why seconds must increase: of two archives taken in one second the restore source is the one with the
      larger hash and suffix, here the older one. */
  lemma SameSecondRestoresOlder(item: BackupItem, a1: Attempt, a2: Attempt, t: Stamp)
    requires Succeeds(a1) && Succeeds(a2) && item.maxBackups >= 2
    requires Timely(a1, t) && a2.second == a1.second && a1.hash != a2.hash
    requires Less(a2.hash.value + KindSuffix(a2.payload.isDir), a1.hash.value + KindSuffix(a1.payload.isDir))
    ensures var (d, rs) := RunDir(map[], [Backup(item, a1), Backup(item, a2)]);
      && |rs| == 2 && rs[0].Ok? && rs[1].Ok? && rs[1].value.Archived?
      && LatestName(d) in d && d[LatestName(d)] == File(a1.modTime, a1.payload)
      && StoredHash(d) == a1.hash.value
  {
    hide RunDir, Represents, Timely, ArchiveName, BackupIn, LogBackup, HashInName;
    var x1 := NewArchive(a1);
    var d1 := BackupIn(map[], item, a1).0;
    FirstStored(item, a1, t);
    SecondStored(d1, x1, item, a2);
    RunTwo(map[], Backup(item, a1), Backup(item, a2));
  }

  lemma RunTwo(dir: Dir, e1: Event, e2: Event)
    requires e1.Backup? && e2.Backup?
    ensures var (d1, r1) := BackupIn(dir, e1.item, e1.a);
      var (d2, r2) := BackupIn(d1, e2.item, e2.a);
      RunDir(dir, [e1, e2]) == (d2, [r1, r2])
  {
    hide BackupIn;
    var (d1, r1) := BackupIn(dir, e1.item, e1.a);
    var (d2, r2) := BackupIn(d1, e2.item, e2.a);
    assert [e1, e2][1..] == [e2] && [e2][1..] == [];
    assert RunDir(d2, []) == (d2, []) && [r2] + [] == [r2] && [r1] + [r2] == [r1, r2];
    assert RunDir(d1, [e2]) == (d2, [r2]);
  }

  lemma FirstStored(item: BackupItem, a: Attempt, t: Stamp)
    requires Succeeds(a) && Timely(a, t) && item.maxBackups >= 1
    ensures var (d, r) := BackupIn(map[], item, a);
      && r.Ok? && Represents(d, [NewArchive(a)])
  {
    hide Represents, Timely, BackupIn, NameOf;
    EmptyDirectory();
    NoneDated(t);
    BackupRefines(map[], [], item, a, t);
    StoreUnderLimit([], item, a);
    assert [] + [NewArchive(a)] == [NewArchive(a)];
  }

  /** A second archive with a smaller name, under a limit of two or more, leaves the first as the source. */
  lemma SecondStored(dir: Dir, x: Archive, item: BackupItem, a: Attempt)
    requires Represents(dir, [x]) && Succeeds(a) && item.maxBackups >= 2
    requires a.second == x.second && a.hash != Some(x.hash)
    requires Less(a.hash.value + KindSuffix(a.payload.isDir), x.hash + KindSuffix(x.compressed))
    ensures var (d, r) := BackupIn(dir, item, a);
      && r.Ok? && r.value.Archived?
      && LatestName(d) == NameOf(x) && NameOf(x) in d && d[NameOf(x)] == File(x.modTime, x.payload)
      && StoredHash(d) == x.hash
  {
    hide Represents, ArchiveName, HashInName, StoredHash, Files;
    var name := ArchiveName(a.second, a.hash.value, a.payload.isDir);
    var stored := dir[name := File(a.modTime, a.payload)];
    LastEntry(dir, [x]);
    AgeIsLogOrder(dir, [x]);
    NameIsNoFolder(dir, [x], NewArchive(a));
    OneMoreVisible(dir, name, File(a.modTime, a.payload));
    SameSecondOrder(a.second, a.hash.value, a.payload.isDir, x.hash, x.compressed);
    NoPrune(stored, item.maxBackups);
    assert BackupIn(dir, item, a) == (stored, Ok(Archived(item.id, name, a.payload.isDir)));
    LargestStays(dir, name, NameOf(x), stored);
    assert StoredHash(stored) == StoredHash(dir) by { SameLatest(dir, stored); }
  }

  lemma NoPrune(dir: Dir, maxBackups: int)
    requires |ByAge(dir)| <= maxBackups
    ensures Prune(dir, maxBackups, NO_FAULTS) == (dir, true)
  {
    hide ByAge, Visible;
  }

  lemma SameLatest(dir: Dir, d: Dir)
    requires LatestName(dir) == LatestName(d)
    ensures StoredHash(dir) == StoredHash(d)
  {
  }

  lemma LargestStays(dir: Dir, name: string, top: string, stored: Dir)
    requires stored.Keys == dir.Keys + {name} && (forall n :: n in dir && n != name ==> stored[n] == dir[n])
    requires LatestName(dir) == top && top != "" && Less(name, top)
    ensures name != top && LatestName(stored) == top
  {
    LessIrreflexive(top);
    assert top in Candidates(dir);
    assert top in stored && stored[top] == dir[top];
    assert IsMax(top, Candidates(stored)) by {
      forall n | n in Candidates(stored) ensures n == top || Less(n, top) {
        if n != name { assert n in Candidates(dir); }
      }
    }
    MaxUnique(top, LatestName(stored), Candidates(stored));
  }

  /** Reaches the download step. */
  predicate Reaches(a: Attempt) {
    a.stagingOk && a.copyOk && a.probeOk && a.hash.Some? && a.listOk && (a.payload.isDir ==> a.archiveOk)
  }

  /** Gets all the way to a stored archive, if it is not skipped. */
  predicate Succeeds(a: Attempt) {
    Reaches(a) && a.download.Complete? && a.faults == NO_FAULTS
  }

  lemma EmptyDirectory()
    ensures Represents(map[], [])
  {
  }

  lemma StoreUnderLimit(log: Log, item: BackupItem, a: Attempt)
    requires Succeeds(a) && (LastHashOf(log) == "" || Some(LastHashOf(log)) != a.hash) && |log| < item.maxBackups
    ensures LogBackup(log, item, a).0 == log + [NewArchive(a)] && LogBackup(log, item, a).1.Ok?
  {
    hide NameOf;
  }

  // ---------------------------------------------------------------- retention

  ghost predicate Healthy(e: Event, maxBackups: nat) {
    && e.Backup? && e.item.maxBackups == maxBackups && e.a.listOk && e.a.faults == NO_FAULTS
    && (e.a.download.Failed? ==> e.a.download.left.None?)
  }

  ghost predicate Retained(log: Log, maxBackups: nat) {
    && |log| <= maxBackups
    && forall i :: 0 <= i < |log| - 1 ==> log[i].hash == "" || log[i].hash != log[i + 1].hash
  }

  lemma BackupRetains(log: Log, item: BackupItem, a: Attempt, maxBackups: nat)
    requires maxBackups > 0 && Retained(log, maxBackups) && Healthy(Backup(item, a), maxBackups)
    ensures Retained(LogBackup(log, item, a).0, maxBackups)
  {
    hide NameOf, LastHashOf, Keep;
    if LogBackup(log, item, a).0 != log {
      var x := NewArchive(a);
      LastDiffers(log, item, a);
      KeepWithoutFaults(log + [x], maxBackups);
      AppendRetains(log, x, maxBackups);
    }
  }

  lemma KeepWithoutFaults(log: Log, maxBackups: nat)
    requires maxBackups > 0
    ensures Keep(log, maxBackups, NO_FAULTS) == (if |log| <= maxBackups then log else log[|log| - maxBackups..], true)
  {
    if |log| > maxBackups {
      RemovableIs(Files(log)[..|log| - maxBackups], {}, |log| - maxBackups);
    }
  }

  /** What is not skipped is not the hash stored last. */
  lemma LastDiffers(log: Log, item: BackupItem, a: Attempt)
    requires a.listOk && a.hash.Some? && LogBackup(log, item, a).0 != log
    ensures log != [] ==> log[|log| - 1].hash == "" || log[|log| - 1].hash != a.hash.value
  {
    hide NameOf, Keep;
  }

  lemma AppendRetains(log: Log, x: Archive, maxBackups: nat)
    requires maxBackups > 0 && Retained(log, maxBackups)
    requires log != [] ==> log[|log| - 1].hash == "" || log[|log| - 1].hash != x.hash
    ensures Retained(if |log| + 1 <= maxBackups then log + [x] else (log + [x])[|log| + 1 - maxBackups..], maxBackups)
  {
    var all := log + [x];
    forall i | 0 <= i < |log| ensures all[i].hash == "" || all[i].hash != all[i + 1].hash {
    }
  }

  lemma {:induction false} HistoryRetains(log: Log, es: seq<Event>, maxBackups: nat)
    requires maxBackups > 0 && Retained(log, maxBackups)
    requires forall e :: e in es ==> Healthy(e, maxBackups)
    ensures Retained(RunLog(log, es).0, maxBackups)
    decreases es
  {
    if es == [] {
    } else {
      assert Healthy(es[0], maxBackups);
      BackupRetains(log, es[0].item, es[0].a, maxBackups);
      HistoryRetains(LogBackup(log, es[0].item, es[0].a).0, es[1..], maxBackups);
    }
  }

  lemma InOrderAt(dir: Dir, log: Log, i: nat)
    requires Represents(dir, log) && i < |log|
    ensures InOrder(log) && CleanHash(log[i].hash)
  {
    assert log[i] in log;
  }

  /** With a fixed positive limit and working local files, the directory never holds more archives than
      the limit, and no two neighbours in age (or name) carry the same non-empty hash. */
  lemma RetentionAndNoDuplicates(dir: Dir, es: seq<Event>, maxBackups: nat, t: Stamp)
    requires Represents(dir, []) && maxBackups > 0
    requires TimelyHistory(dir, es, t) && forall e :: e in es ==> Healthy(e, maxBackups)
    ensures var q := ByAge(RunDir(dir, es).0);
      && |q| <= maxBackups
      && (forall i :: 0 <= i < |q| - 1 ==> Less(q[i].name, q[i + 1].name))
      && (forall i :: 0 <= i < |q| - 1 ==>
            HashInName(q[i].name) == "" || HashInName(q[i].name) != HashInName(q[i + 1].name))
  {
    hide ArchiveName, HashInName, Healthy, TimelyHistory, RunDir, RunLog, Represents, Dated, InOrder, CleanHash, ByAge;
    NoneDated(t);
    HistoryRefines(dir, [], es, t);
    HistoryRetains([], es, maxBackups);
    var log, q := RunLog([], es).0, ByAge(RunDir(dir, es).0);
    AgeIsLogOrder(RunDir(dir, es).0, log);
    forall i | 0 <= i < |q| - 1
      ensures Less(q[i].name, q[i + 1].name)
      ensures HashInName(q[i].name) == "" || HashInName(q[i].name) != HashInName(q[i + 1].name)
    {
      var x, y := log[i], log[i + 1];
      InOrderAt(RunDir(dir, es).0, log, i);
      InOrderAt(RunDir(dir, es).0, log, i + 1);
      NamesAscend(log, i, i + 1);
      NameDeterminesArchive(x.second, x.hash, x.compressed);
      NameDeterminesArchive(y.second, y.hash, y.compressed);
    }
  }

  /** How many files were left by failed attempts since the last one that stored an archive, when there were
      `n` before: partial downloads, and archives whose prune failed. */
  ghost function Leftovers(dir: Dir, es: seq<Event>, n: nat): nat
    decreases es
  {
    if es == [] then n
    else
      match es[0]
      case Backup(item, a) =>
        var (d, r) := BackupIn(dir, item, a);
        Leftovers(d, es[1..], if r.Ok? && r.value.Archived? then 0 else if Writes(a, StoredHash(dir)) then n + 1 else n)
      case Delete(name, removeOk) => Leftovers(DeleteIn(dir, name, removeOk).0, es[1..], n)
  }

  lemma BackupBound(dir: Dir, item: BackupItem, a: Attempt, maxBackups: nat, n: nat)
    requires 0 < item.maxBackups <= maxBackups && |ByAge(dir)| <= maxBackups + n
    ensures var (d, r) := BackupIn(dir, item, a);
      |ByAge(d)| <= maxBackups +
        if r.Ok? && r.value.Archived? then 0 else if Writes(a, StoredHash(dir)) then n + 1 else n
  {
    hide ArchiveName, StoredHash, Prune, ByAge;
    if Writes(a, StoredHash(dir)) {
      var name := ArchiveName(a.second, a.hash.value, a.payload.isDir);
      var p := if a.download.Failed? then a.download.left.value else a.payload;
      var stored := dir[name := File(a.modTime, p)];
      OneMoreVisible(dir, name, File(a.modTime, p));
      PruneBound(stored, item.maxBackups, a.faults);
      if a.download.Complete? && Prune(stored, item.maxBackups, a.faults).1 {
        PruneSuccessMeetsLimit(stored, item.maxBackups, a.faults);
      }
    }
  }

  lemma PruneBound(dir: Dir, maxBackups: int, faults: Faults)
    ensures |ByAge(Prune(dir, maxBackups, faults).0)| <= |ByAge(dir)|
  {
    hide ByAge, Gone, Prune;
    PruneRemovesOldest(dir, maxBackups, faults);
    NoMoreVisible(dir, NamesOf(ByAge(dir)[..Gone(dir, maxBackups, faults)]));
  }

  /** Retention, whatever fails: in every directory and after every history of backups, failures and deletions
      under one positive limit, the archives are never more than the limit and the leftovers since the last
      archive was stored with success. */
  lemma {:induction false} RetentionBound(dir: Dir, es: seq<Event>, maxBackups: nat, n: nat)
    requires |ByAge(dir)| <= maxBackups + n
    requires forall e :: e in es && e.Backup? ==> 0 < e.item.maxBackups <= maxBackups
    ensures |ByAge(RunDir(dir, es).0)| <= maxBackups + Leftovers(dir, es, n)
    decreases es
  {
    hide ByAge, BackupIn, BadFileName, Writes, StoredHash;
    if es == [] {
    } else {
      assert es[0] in es;
      match es[0]
      case Backup(item, a) =>
        var (d, r) := BackupIn(dir, item, a);
        BackupBound(dir, item, a, maxBackups, n);
        RetentionBound(d, es[1..], maxBackups,
                       if r.Ok? && r.value.Archived? then 0 else if Writes(a, StoredHash(dir)) then n + 1 else n);
      case Delete(name, removeOk) =>
        NoMoreVisible(dir, {name});
        RetentionBound(DeleteIn(dir, name, removeOk).0, es[1..], maxBackups, n);
    }
  }

  /** Where the limit fails after a success: two archives under a limit of two, the limit lowered to one, and
      a third backup finding the payload unchanged. It is a success, and both archives remain. */
  lemma LimitLowered(item: BackupItem, a1: Attempt, a2: Attempt, a3: Attempt, t: Stamp)
    requires item.maxBackups == 2 && Succeeds(a1) && Succeeds(a2) && Succeeds(a3)
    requires Timely(a1, t) && Timely(a2, Stamp(a1.second, a1.modTime))
    requires a1.hash != a2.hash && a2.hash != Some("") && a3.hash == a2.hash
    ensures var (d, rs) := RunDir(map[], [Backup(item, a1), Backup(item, a2), Backup(item.(maxBackups := 1), a3)]);
      |ByAge(d)| == 2 && |rs| == 3 && rs[2] == Ok(Skipped(item.id))
  {
    hide Represents, Timely, BackupIn, NameOf, RunDir, ByAge, Dated, Stamped, LogBackup;
    var x1, x2, lowered := NewArchive(a1), NewArchive(a2), item.(maxBackups := 1);
    FirstStored(item, a1, t);
    var d1 := BackupIn(map[], item, a1).0;
    OneDated(x1);
    BackupRefines(d1, [x1], item, a2, Stamp(a1.second, a1.modTime));
    StoreUnderLimit([x1], item, a2);
    assert [x1] + [x2] == [x1, x2];
    var d2 := BackupIn(d1, item, a2).0;
    SkipCurrent(d2, [x1, x2], lowered, a3);
    AgeIsLogOrder(d2, [x1, x2]);
    RunThree(map[], Backup(item, a1), Backup(item, a2), Backup(lowered, a3));
  }

  lemma OneDated(x: Archive)
    ensures Dated([x], Stamp(x.second, x.modTime))
  {
  }

  lemma SkipCurrent(dir: Dir, log: Log, item: BackupItem, a: Attempt)
    requires Represents(dir, log) && Succeeds(a) && LastHashOf(log) != "" && Some(LastHashOf(log)) == a.hash
    ensures BackupIn(dir, item, a) == (dir, Ok(Skipped(item.id)))
  {
    hide Represents, StoredHash;
    LatestIsLast(dir, log);
  }

  lemma RunThree(dir: Dir, e1: Event, e2: Event, e3: Event)
    requires e1.Backup? && e2.Backup? && e3.Backup?
    ensures var (d1, r1) := BackupIn(dir, e1.item, e1.a);
      var (d2, r2) := BackupIn(d1, e2.item, e2.a);
      var (d3, r3) := BackupIn(d2, e3.item, e3.a);
      RunDir(dir, [e1, e2, e3]) == (d3, [r1, r2, r3])
  {
    hide BackupIn;
    var (d1, r1) := BackupIn(dir, e1.item, e1.a);
    RunTwo(d1, e2, e3);
    var rs := RunDir(d1, [e2, e3]).1;
    assert [e1, e2, e3][1..] == [e2, e3];
    assert [r1] + rs == [r1, rs[0], rs[1]];
  }

  // ---------------------------------------------------------------- partial downloads

  /** A later look at an unchanged payload: it fails earlier, or the digest it computes is `hash`. */
  ghost predicate Unchanged(e: Event, hash: Option<string>) {
    e.Backup? && e.a.listOk && (e.a.hash.None? || e.a.hash == hash)
  }

  /** Why the agreement has a condition. A download that fails after creating its file leaves `q`, whatever
      that is, under a name that already carries the new hash. From then on, however often the unchanged
      payload is backed up, every attempt that gets through is skipped and the directory stays as it is:
      `q` is what would be restored, under the hash of the payload. */
  lemma PartialDownloadStays(
      dir: Dir, log: Log, item: BackupItem, a: Attempt, q: Payload, es: seq<Event>, t: Stamp)
    requires Represents(dir, log) && Dated(log, t) && Timely(a, t)
    requires Reaches(a) && a.download == Failed(Some(q)) && a.hash.value != "" && LastHashOf(log) != a.hash.value
    requires forall e :: e in es ==> Unchanged(e, a.hash)
    ensures var d := BackupIn(dir, item, a).0;
      && BackupIn(dir, item, a).1 == Err(DownloadFailed)
      && RunDir(d, es).0 == d && (forall r :: r in RunDir(d, es).1 ==> r.Err? || r.value.Skipped?)
      && LatestName(d) in d && d[LatestName(d)] == File(a.modTime, q)
      && StoredHash(d) == a.hash.value
  {
    hide Represents, Dated, Timely, RunDir, HashInName, LatestName, StoredHash, ArchiveName, BackupIn, Unchanged;
    BackupRefines(dir, log, item, a, t);
    var log' := LogBackup(log, item, a).0;
    assert log' == log + [NewArchive(a)] && log'[|log'| - 1] == NewArchive(a);
    LastEntry(BackupIn(dir, item, a).0, log');
    UnchangedSkips(BackupIn(dir, item, a).0, es, a.hash);
  }

  lemma {:induction false} UnchangedSkips(dir: Dir, es: seq<Event>, hash: Option<string>)
    requires hash == Some(StoredHash(dir)) && StoredHash(dir) != "" && forall e :: e in es ==> Unchanged(e, hash)
    ensures RunDir(dir, es).0 == dir && forall r :: r in RunDir(dir, es).1 ==> r.Err? || r.value.Skipped?
    decreases es
  {
    hide StoredHash, Store;
    if es == [] {
    } else {
      assert Unchanged(es[0], hash);
      UnchangedSkips(dir, es[1..], hash);
    }
  }
}
