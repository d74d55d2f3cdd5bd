/** The backup service over the local backup tree (internal/backup/service.go), with the listing and
    deletion endpoints that work on the same tree (internal/httpapi/server.go). Everything the remote
    host, the clock and the local file system decide arrives in an `Attempt`. */
module Backup {
  import opened Strings
  import opened Domain
  import opened Naming
  import opened Directory
  import Config

  /** A download copies the whole payload, or fails leaving nothing or leaving a partial file: the local
      file is created before the first byte is copied. */
  datatype Download = Complete | Failed(left: Option<Payload>)

  /** What the world answers during one attempt at one item. `hash` is the trimmed digest, None when the
      hash command fails; `second` is the clock when the name is made, `modTime` the new file's time. */
  datatype Attempt = Attempt(
    mkdirOk: bool, stagingOk: bool, copyOk: bool, probeOk: bool, payload: Payload, hash: Option<string>,
    listOk: bool, archiveOk: bool, second: nat, modTime: int, download: Download, faults: Faults)

  datatype BackupError =
    | ConnectFailed | TargetFailed | StagingFailed | CopyFailed | ProbeFailed | HashFailed
    | ArchiveFailed | DownloadFailed | PruneFailed

  datatype Outcome = Skipped(itemId: string) | Archived(itemId: string, name: string, compressed: bool)

  type Attempted = Result<Outcome, BackupError>

  type Dirs = map<string, Dir>

  function LastHash(stored: string, a: Attempt): string {
    if a.listOk then stored else ""
  }

  /** What one attempt does to an existing target directory. */
  ghost function BackupIn(dir: Dir, item: BackupItem, a: Attempt): (Dir, Attempted) {
    if !a.stagingOk then (dir, Err(StagingFailed))
    else if !a.copyOk then (dir, Err(CopyFailed))
    else if !a.probeOk then (dir, Err(ProbeFailed))
    else if a.hash.None? then (dir, Err(HashFailed))
    else if LastHash(StoredHash(dir), a) != "" && LastHash(StoredHash(dir), a) == a.hash.value then
      (dir, Ok(Skipped(item.id)))
    else if a.payload.isDir && !a.archiveOk then (dir, Err(ArchiveFailed))
    else Store(dir, item, a, ArchiveName(a.second, a.hash.value, a.payload.isDir))
  }

  /** Download to `name`, then prune. */
  ghost function Store(dir: Dir, item: BackupItem, a: Attempt, name: string): (Dir, Attempted) {
    if name in dir && dir[name].Folder? then (dir, Err(DownloadFailed))
    else
      match a.download
      case Failed(None) => (dir, Err(DownloadFailed))
      case Failed(Some(q)) => (dir[name := File(a.modTime, q)], Err(DownloadFailed))
      case Complete =>
        var (pruned, ok) := Prune(dir[name := File(a.modTime, a.payload)], item.maxBackups, a.faults);
        (pruned, if ok then Ok(Archived(item.id, name, a.payload.isDir)) else Err(PruneFailed))
  }

  /** `os.MkdirAll` on the target. */
  function Made(dirs: Dirs, target: string): Dirs {
    if target in dirs then dirs else dirs[target := map[]]
  }

  ghost function BackupOne(dirs: Dirs, item: BackupItem, a: Attempt): (Dirs, Attempted) {
    if !a.mkdirOk then (dirs, Err(TargetFailed))
    else
      var made := Made(dirs, BackupSubdirectoryName(item));
      var (dir, r) := BackupIn(made[BackupSubdirectoryName(item)], item, a);
      (made[BackupSubdirectoryName(item) := dir], r)
  }

  /** A batch after its first `n` items: the tree, the outcomes so far, and the error that stopped it. */
  datatype Batch = Batch(dirs: Dirs, outcomes: seq<Outcome>, error: Option<BackupError>)

  ghost function RunItems(dirs: Dirs, items: seq<BackupItem>, attempts: seq<Attempt>, n: nat): Batch
    requires n <= |items| == |attempts|
  {
    if n == 0 then Batch(dirs, [], None)
    else
      var b := RunItems(dirs, items, attempts, n - 1);
      if b.error.Some? then b
      else
        var (dirs', r) := BackupOne(b.dirs, items[n - 1], attempts[n - 1]);
        match r
        case Ok(o) => Batch(dirs', b.outcomes + [o], None)
        case Err(e) => Batch(dirs', b.outcomes, Some(e))
  }

  // ---------------------------------------------------------------- outcomes, exactly

  /** The stored hash is the current one. */
  ghost predicate FoundCurrent(dir: Dir, a: Attempt) {
    a.listOk && StoredHash(dir) != "" && a.hash == Some(StoredHash(dir))
  }

  /** When an attempt on an existing directory ends how: each error if and only if its step is the first to
      fail, a skip if and only if the hash was found, and an archive with its name and kind otherwise. */
  lemma AttemptExact(dir: Dir, item: BackupItem, a: Attempt)
    ensures var r := BackupIn(dir, item, a).1;
      && (r == Err(StagingFailed) <==> !a.stagingOk)
      && (r == Err(CopyFailed) <==> a.stagingOk && !a.copyOk)
      && (r == Err(ProbeFailed) <==> a.stagingOk && a.copyOk && !a.probeOk)
      && (r == Err(HashFailed) <==> a.stagingOk && a.copyOk && a.probeOk && a.hash.None?)
      && var hashed := a.stagingOk && a.copyOk && a.probeOk && a.hash.Some?;
         var goesOn := hashed && !FoundCurrent(dir, a);
         && (r == Ok(Skipped(item.id)) <==> hashed && FoundCurrent(dir, a))
         && (r == Err(ArchiveFailed) <==> goesOn && a.payload.isDir && !a.archiveOk)
         && (goesOn && !(a.payload.isDir && !a.archiveOk) ==>
               var name := ArchiveName(a.second, a.hash.value, a.payload.isDir);
               var blocked := name in dir && dir[name].Folder?;
               && (r == Err(DownloadFailed) <==> blocked || a.download.Failed?)
               && (!blocked && a.download.Complete? ==>
                     var pruned := Prune(dir[name := File(a.modTime, a.payload)], item.maxBackups, a.faults).1;
                     r == if pruned then Ok(Archived(item.id, name, a.payload.isDir)) else Err(PruneFailed)))
  {
    hide ArchiveName, StoredHash, Prune;
  }

  /** What an attempt writes: nothing unless it gets to the download and creates its file; then that file, with
      what the download brought; and after a whole download the directory is pruned. */
  lemma AttemptEffect(dir: Dir, item: BackupItem, a: Attempt)
    ensures var d := BackupIn(dir, item, a).0;
      var hashed := a.stagingOk && a.copyOk && a.probeOk && a.hash.Some?;
      if !hashed || FoundCurrent(dir, a) || (a.payload.isDir && !a.archiveOk) then d == dir
      else
        var name := ArchiveName(a.second, a.hash.value, a.payload.isDir);
        && ((name in dir && dir[name].Folder?) || a.download == Failed(None) ==> d == dir)
        && (!(name in dir && dir[name].Folder?) ==>
              && (a.download.Failed? && a.download.left.Some? ==>
                    d == dir[name := File(a.modTime, a.download.left.value)])
              && (a.download.Complete? ==>
                    d == Prune(dir[name := File(a.modTime, a.payload)], item.maxBackups, a.faults).0))
  {
    hide ArchiveName, StoredHash, Prune;
  }

  /** An attempt within the tree: it makes the item's directory if it can, works in it, and leaves every other
      directory alone. */
  lemma OneItemExact(dirs: Dirs, item: BackupItem, a: Attempt)
    ensures var (dirs', r) := BackupOne(dirs, item, a);
      var t := BackupSubdirectoryName(item);
      && (!a.mkdirOk ==> dirs' == dirs && r == Err(TargetFailed))
      && (a.mkdirOk ==>
            && dirs'.Keys == dirs.Keys + {t}
            && (forall u :: u in dirs && u != t ==> dirs'[u] == dirs[u])
            && (dirs'[t], r) == BackupIn(if t in dirs then dirs[t] else map[], item, a))
  {
    hide BackupSubdirectoryName, BackupIn;
  }

  /** A batch, exactly: as long as nothing fails, the tree and the outcome after each item are what the attempt
      at it gives on the tree before it; the error is that of the first item that fails, and nothing happens
      after it. */
  lemma {:induction false} BatchExact(dirs: Dirs, items: seq<BackupItem>, attempts: seq<Attempt>, n: nat)
    requires n <= |items| == |attempts|
    ensures var b := RunItems(dirs, items, attempts, n);
      && RunItems(dirs, items, attempts, 0) == Batch(dirs, [], None)
      && |b.outcomes| <= n
      && (b.error.None? <==> |b.outcomes| == n)
      && (forall i :: 0 <= i < |b.outcomes| ==>
            BackupOne(RunItems(dirs, items, attempts, i).dirs, items[i], attempts[i]) ==
            (RunItems(dirs, items, attempts, i + 1).dirs, Ok(b.outcomes[i])))
      && (b.error.Some? ==>
            var i := |b.outcomes|;
            BackupOne(RunItems(dirs, items, attempts, i).dirs, items[i], attempts[i]) == (b.dirs, Err(b.error.value)))
  {
    hide BackupOne;
    if n == 0 {
    } else {
      BatchExact(dirs, items, attempts, n - 1);
    }
  }

  // ---------------------------------------------------------------- limit and restore source

  lemma PruneSuccessMeetsLimit(dir: Dir, maxBackups: nat, faults: Faults)
    requires maxBackups > 0 && Prune(dir, maxBackups, faults).1
    ensures |ByAge(Prune(dir, maxBackups, faults).0)| <= maxBackups
  {
    var n := |ByAge(dir)|;
    if n > maxBackups {
      WithoutOldestShape(dir, n - maxBackups);
    }
  }

  /** The limit after a backup that reports success, exactly: it holds unless the stored hash was found
      current, so that the backup was skipped, and there were too many archives already; the skip path
      does not prune. */
  lemma LimitAfterSuccessExact(dir: Dir, item: BackupItem, a: Attempt)
    requires item.maxBackups > 0 && BackupIn(dir, item, a).1.Ok?
    ensures |ByAge(BackupIn(dir, item, a).0)| <= item.maxBackups <==>
            !(LastHash(StoredHash(dir), a) != "" && Some(LastHash(StoredHash(dir), a)) == a.hash) ||
            |ByAge(dir)| <= item.maxBackups
  {
    hide ArchiveName, StoredHash, Prune, ByAge;
    if BackupIn(dir, item, a).1.value.Archived? {
      var name := ArchiveName(a.second, a.hash.value, a.payload.isDir);
      PruneSuccessMeetsLimit(dir[name := File(a.modTime, a.payload)], item.maxBackups, a.faults);
    }
  }

  /** The attempt gets as far as writing a local file, whole or in part. */
  predicate Writes(a: Attempt, stored: string) {
    && a.stagingOk && a.copyOk && a.probeOk && a.hash.Some?
    && !(LastHash(stored, a) != "" && LastHash(stored, a) == a.hash.value)
    && (a.payload.isDir ==> a.archiveOk)
    && a.download != Failed(None)
  }

  /** The largest of the candidates that a successful prune leaves. */
  ghost predicate TopSurvivor(dir: Dir, n: string, maxBackups: int) {
    n in dir && IsMax(n, Survivors(dir, maxBackups))
  }

  /** Which archive a backup that reports success leaves as the restore source, for every directory, clock and
      file times. If the hash was found stored it is the one there was. Otherwise it is the largest candidate
      that survives the prune, and so the new archive exactly if that survives and no larger name does. */
  lemma RestoreSourceExact(dir: Dir, item: BackupItem, a: Attempt)
    requires BackupIn(dir, item, a).1.Ok?
    ensures var d := BackupIn(dir, item, a).0;
      if LastHash(StoredHash(dir), a) != "" && Some(LastHash(StoredHash(dir), a)) == a.hash then d == dir
      else
        var name := ArchiveName(a.second, a.hash.value, a.payload.isDir);
        var stored := dir[name := File(a.modTime, a.payload)];
        && Candidates(d) == Survivors(stored, item.maxBackups)
        && (forall n :: n in d ==> n in stored && d[n] == stored[n])
        && (forall n :: n != "" ==> (LatestName(d) == n <==> TopSurvivor(stored, n, item.maxBackups)))
        && (LatestName(d) == name <==>
              Survives(stored, name, item.maxBackups) &&
              forall n :: n in Candidates(stored) && Less(name, n) ==> !Survives(stored, n, item.maxBackups))
  {
    hide ArchiveName, StoredHash, Prune, Survives, LatestName;
    if BackupIn(dir, item, a).1.value.Archived? {
      var name := ArchiveName(a.second, a.hash.value, a.payload.isDir);
      var stored, d := dir[name := File(a.modTime, a.payload)], BackupIn(dir, item, a).0;
      NameAfterTimestamp(a.second, a.hash.value, a.payload.isDir);
      assert name != LAST_HASH_FILE by { assert LAST_HASH_FILE[0] == '.'; }
      assert name in Candidates(stored);
      PruneSurvivors(stored, item.maxBackups, a.faults);
      PruneShrinks(stored, item.maxBackups, a.faults);
      LatestOfSurvivors(stored, d, item.maxBackups);
      TopExact(stored, name, item.maxBackups);
    }
  }

  /** Agreement of backup and restore after a success, for every directory, clock and file times: the payload
      that would be restored has the digest of the one just backed up if and only if the archive its hash was
      found on has it, or else the largest candidate that survives the prune has it. */
  lemma AgreementAnywhere(dir: Dir, item: BackupItem, a: Attempt, digest: Payload -> string)
    requires BackupIn(dir, item, a).1.Ok?
    ensures var d := BackupIn(dir, item, a).0;
      (LatestName(d) != "" && digest(d[LatestName(d)].payload) == digest(a.payload)) <==>
      if LastHash(StoredHash(dir), a) != "" && Some(LastHash(StoredHash(dir), a)) == a.hash
      then digest(dir[LatestName(dir)].payload) == digest(a.payload)
      else
        var stored := dir[ArchiveName(a.second, a.hash.value, a.payload.isDir) := File(a.modTime, a.payload)];
        exists n :: TopSurvivor(stored, n, item.maxBackups) && digest(stored[n].payload) == digest(a.payload)
  {
    hide ArchiveName, HashInName, Prune, Survives, LatestName, BackupIn;
    RestoreSourceExact(dir, item, a);
    var d := BackupIn(dir, item, a).0;
    if LatestName(d) != "" {
      assert LatestName(d) in Candidates(d);
    }
  }

  lemma PruneShrinks(dir: Dir, maxBackups: int, faults: Faults)
    ensures var d := Prune(dir, maxBackups, faults).0; forall n :: n in d ==> n in dir && d[n] == dir[n]
  {
    hide ByAge, Removable;
  }

  lemma LatestOfSurvivors(stored: Dir, d: Dir, maxBackups: int)
    requires Candidates(d) == Survivors(stored, maxBackups)
    ensures forall n :: n != "" ==> (LatestName(d) == n <==> TopSurvivor(stored, n, maxBackups))
  {
    hide Survives, Candidates;
    var L := LatestName(d);
    forall n | n != "" && TopSurvivor(stored, n, maxBackups) ensures LatestName(d) == n {
      MaxUnique(n, L, Candidates(d));
    }
    assert Survivors(stored, maxBackups) <= Candidates(stored);
    InCandidates(stored);
  }

  lemma InCandidates(dir: Dir)
    ensures forall n :: n in Candidates(dir) ==> n in dir
  {
  }

  lemma TopExact(stored: Dir, name: string, maxBackups: int)
    requires name in Candidates(stored)
    ensures TopSurvivor(stored, name, maxBackups) <==>
            Survives(stored, name, maxBackups) &&
            forall n :: n in Candidates(stored) && Less(name, n) ==> !Survives(stored, n, maxBackups)
  {
    hide Survives;
    forall n ensures !(Less(n, name) && Less(name, n)) && !Less(name, name) {
      LessIrreflexive(name);
      if Less(n, name) && Less(name, n) { LessTransitive(name, n, name); }
    }
    forall n ensures Less(n, name) || n == name || Less(name, n) {
      LessTotal(n, name);
    }
  }

  // ---------------------------------------------------------------- what the archives hold

  /** Each candidate has the digest and kind its name says, where its name says a digest. */
  ghost predicate Faithful(dir: Dir, digest: Payload -> string) {
    forall n :: n in Candidates(dir) ==>
      && (HashInName(n) == "" || HashInName(n) == digest(dir[n].payload))
      && (HasSuffix(n, ARCHIVE_SUFFIX) <==> dir[n].payload.isDir)
  }

  /** The hash is the digest of the payload, or empty where the remote command printed nothing; and what a
      failed download leaves, if anything, has that digest and kind as well. */
  ghost predicate Honest(a: Attempt, digest: Payload -> string) {
    && (a.hash.Some? ==> a.hash.value == "" || a.hash.value == digest(a.payload))
    && (a.download.Failed? && a.download.left.Some? ==>
          digest(a.download.left.value) == digest(a.payload) && a.download.left.value.isDir == a.payload.isDir)
  }

  lemma WriteKeepsFaithful(dir: Dir, a: Attempt, p: Payload, digest: Payload -> string)
    requires Faithful(dir, digest) && a.hash.Some? && CleanHash(a.hash.value)
    requires a.hash.value == "" || a.hash.value == digest(p)
    requires p.isDir == a.payload.isDir
    ensures Faithful(dir[ArchiveName(a.second, a.hash.value, a.payload.isDir) := File(a.modTime, p)], digest)
  {
    hide ArchiveName, HashInName, HasSuffix;
    NameDeterminesArchive(a.second, a.hash.value, a.payload.isDir);
  }

  lemma FewerKeepsFaithful(dir: Dir, d: Dir, digest: Payload -> string)
    requires forall n :: n in d ==> n in dir && d[n] == dir[n]
    ensures Faithful(dir, digest) ==> Faithful(d, digest)
  {
    hide HashInName, HasSuffix;
  }

  /** Backups keep the directory faithful, whatever fails. */
  lemma BackupKeepsFaithful(dir: Dir, item: BackupItem, a: Attempt, digest: Payload -> string)
    requires Faithful(dir, digest) && Honest(a, digest)
    requires Writes(a, StoredHash(dir)) ==> CleanHash(a.hash.value)
    ensures Faithful(BackupIn(dir, item, a).0, digest)
  {
    hide Faithful, ArchiveName, StoredHash, Prune, CleanHash;
    if Writes(a, StoredHash(dir)) {
      WriteKeepsFaithful(dir, a, if a.download.Failed? then a.download.left.value else a.payload, digest);
      var stored := dir[ArchiveName(a.second, a.hash.value, a.payload.isDir) := File(a.modTime, a.payload)];
      PruneShrinks(stored, item.maxBackups, a.faults);
      if a.download.Complete? {
        FewerKeepsFaithful(stored, Prune(stored, item.maxBackups, a.faults).0, digest);
      }
    }
  }

  // ---------------------------------------------------------------- the local file system

  class FileSystem {
    var dirs: Dirs

    constructor ()
      ensures dirs == map[]
    {
      dirs := map[];
    }

    /** `os.ReadDir`, in some order. */
    method ReadDir(target: string) returns (names: seq<string>)
      requires target in dirs
      ensures Elems(names) == dirs[target].Keys
      ensures forall i, j :: 0 <= i < j < |names| ==> names[i] != names[j]
    {
      names := [];
      var left := dirs[target].Keys;
      while left != {}
        invariant left <= dirs[target].Keys && Elems(names) == dirs[target].Keys - left
        invariant forall i, j :: 0 <= i < j < |names| ==> names[i] != names[j]
        decreases left
      {
        var n :| n in left;
        assert n !in Elems(names);
        assert forall x :: x in names + [n] <==> x in names || x == n;
        assert Elems(names + [n]) == Elems(names) + {n};
        names, left := names + [n], left - {n};
      }
    }

    method MkdirAll(target: string)
      modifies this
      ensures dirs == Made(old(dirs), target)
    {
      if target !in dirs {
        dirs := dirs[target := map[]];
      }
    }

    method Write(target: string, name: string, e: Entry)
      requires target in dirs
      modifies this
      ensures dirs == old(dirs)[target := old(dirs)[target][name := e]]
    {
      dirs := dirs[target := dirs[target][name := e]];
    }

    method Remove(target: string, name: string)
      requires target in dirs
      modifies this
      ensures dirs == old(dirs)[target := old(dirs)[target] - {name}]
    {
      dirs := dirs[target := dirs[target] - {name}];
    }
  }

  // ---------------------------------------------------------------- latestBackupForItem, readStoredHash

  ghost predicate MaxOrNone(m: string, s: set<string>) {
    if s == {} then m == "" else IsMax(m, s)
  }

  /** One turn of the search for the largest name. */
  lemma MaxStep(m: string, s: set<string>, n: string)
    requires MaxOrNone(m, s) && n !in s && n != "" && "" !in s
    ensures MaxOrNone(if Less(m, n) then n else m, s + {n})
  {
    LessTotal(m, n);
    if s != {} && Less(m, n) {
      forall x | x in s ensures Less(x, n) {
        if x != m { LessTransitive(x, m, n); }
      }
    }
  }

  ghost function Seen(dir: Dir, names: seq<string>): set<string> {
    set n | n in names && n in dir && IsCandidate(dir, n)
  }

  lemma SeenGrows(dir: Dir, names: seq<string>, i: nat)
    requires i < |names| && names[i] in dir
    ensures Seen(dir, names[..i + 1]) ==
            Seen(dir, names[..i]) + (if IsCandidate(dir, names[i]) then {names[i]} else {})
  {
    assert names[..i + 1] == names[..i] + [names[i]];
  }

  datatype LatestError = Unreadable | NoBackup

  /** The restore source: the latest name and whether it is a compressed directory. */
  method LatestBackupForItem(fs: FileSystem, target: string, listOk: bool)
    returns (r: Result<(string, bool), LatestError>)
    ensures target !in fs.dirs || !listOk ==> r == Err(Unreadable)
    ensures target in fs.dirs && listOk ==>
              var name := LatestName(fs.dirs[target]);
              r == if name == "" then Err(NoBackup) else Ok((name, HasSuffix(name, ARCHIVE_SUFFIX)))
  {
    if target !in fs.dirs || !listOk {
      return Err(Unreadable);
    }
    var entries := fs.ReadDir(target);
    ghost var dir := fs.dirs[target];
    var latest := "";
    var i := 0;
    while i < |entries|
      invariant 0 <= i <= |entries|
      invariant MaxOrNone(latest, Seen(dir, entries[..i]))
    {
      var name := entries[i];
      assert name in Elems(entries);
      SeenGrows(dir, entries, i);
      if fs.dirs[target][name].File? && name != LAST_HASH_FILE {
        if name != "" { MaxStep(latest, Seen(dir, entries[..i]), name); }
        if Less(latest, name) {
          latest := name;
        }
      }
      i := i + 1;
    }
    SeenAll(dir, entries);
    MaxIsLatest(dir, latest);
    if latest == "" {
      return Err(NoBackup);
    }
    return Ok((latest, HasSuffix(latest, ARCHIVE_SUFFIX)));
  }

  lemma SeenAll(dir: Dir, names: seq<string>)
    requires Elems(names) == dir.Keys
    ensures Seen(dir, names[..|names|]) == Candidates(dir)
  {
    assert names[..|names|] == names;
    forall n | n in Candidates(dir) ensures n in names {
      assert n in Elems(names);
    }
  }

  lemma MaxIsLatest(dir: Dir, m: string)
    requires MaxOrNone(m, Candidates(dir))
    ensures m == LatestName(dir)
  {
    if Candidates(dir) != {} {
      MaxUnique(m, LatestName(dir), Candidates(dir));
    }
  }

  method ReadStoredHash(fs: FileSystem, target: string, listOk: bool) returns (h: string)
    ensures h == if target in fs.dirs && listOk then StoredHash(fs.dirs[target]) else ""
  {
    if target !in fs.dirs || !listOk {
      return "";
    }
    var entries := fs.ReadDir(target);
    ghost var dir := fs.dirs[target];
    var latest := "";
    for i := 0 to |entries|
      invariant MaxOrNone(latest, Seen(dir, entries[..i]))
    {
      var name := entries[i];
      assert name in Elems(entries);
      SeenGrows(dir, entries, i);
      if fs.dirs[target][name].Folder? || name == LAST_HASH_FILE {
        continue;
      }
      if name != "" { MaxStep(latest, Seen(dir, entries[..i]), name); }
      if Less(latest, name) {
        latest := name;
      }
    }
    SeenAll(dir, entries);
    MaxIsLatest(dir, latest);
    if latest == "" {
      return "";
    }
    var parts := Split(latest, '-');
    if |parts| >= 3 {
      return TrimSuffix(parts[2], ARCHIVE_SUFFIX);
    }
    return "";
  }

  // ---------------------------------------------------------------- sorting

  ghost predicate StrictTotal(less: (BackupFile, BackupFile) -> bool) {
    forall f, g, h ::
      && !less(f, f)
      && (less(f, g) && less(g, h) ==> less(f, h))
      && (less(f, g) || f == g || less(g, f))
  }

  lemma AgeOrdersAreStrictTotal()
    ensures StrictTotal(Before)
    ensures StrictTotal((f, g) => Before(g, f))
  {
    forall f, g, h
      ensures !Before(f, f) && (Before(f, g) && Before(g, h) ==> Before(f, h))
      ensures Before(f, g) || f == g || Before(g, f)
      ensures Before(g, f) && Before(h, g) ==> Before(h, f)
    {
      BeforeIsStrictOrder(f, g, h);
      BeforeIsStrictOrder(h, g, f);
    }
  }

  ghost predicate Distinct<T>(q: seq<T>) {
    forall i, j :: 0 <= i < j < |q| ==> q[i] != q[j]
  }

  /** The array part of keeping elements apart. */
  ghost predicate AllDifferent(a: array<BackupFile>)
    reads a
  {
    forall p, q :: 0 <= p < q < a.Length ==> a[p] != a[q]
  }

  /** Moves the element at `i` down to its place in the sorted part before it. */
  method Insert(a: array<BackupFile>, i: nat, less: (BackupFile, BackupFile) -> bool)
    requires StrictTotal(less) && AllDifferent(a) && i < a.Length
    requires forall p, q :: 0 <= p < q < i ==> less(a[p], a[q])
    modifies a
    ensures forall p, q :: 0 <= p < q <= i ==> less(a[p], a[q])
    ensures AllDifferent(a) && multiset(a[..]) == old(multiset(a[..]))
  {
    hide StrictTotal;
    var j := i;
    while j > 0 && less(a[j], a[j - 1])
      invariant 0 <= j <= i
      invariant forall p, q :: 0 <= p < q <= i && q != j ==> less(a[p], a[q])
      invariant AllDifferent(a) && multiset(a[..]) == old(multiset(a[..]))
    {
      a[j], a[j - 1] := a[j - 1], a[j];
      j := j - 1;
    }
    if j > 0 {
      OrderAt(less, a[j - 1], a[j], a[j]);
      forall p | 0 <= p < j - 1 ensures less(a[p], a[j]) {
        OrderAt(less, a[p], a[j - 1], a[j]);
      }
    }
  }

  lemma OrderAt(less: (BackupFile, BackupFile) -> bool, f: BackupFile, g: BackupFile, h: BackupFile)
    requires StrictTotal(less)
    ensures less(f, g) && less(g, h) ==> less(f, h)
    ensures less(f, g) || f == g || less(g, f)
  {
  }

  /** `sort.Slice`, in place. */
  method SortSlice(a: array<BackupFile>, less: (BackupFile, BackupFile) -> bool)
    requires StrictTotal(less) && Distinct(a[..])
    modifies a
    ensures SortedBy(a[..], less)
    ensures Elems(a[..]) == old(Elems(a[..]))
  {
    hide StrictTotal;
    ghost var was := a[..];
    forall p, q | 0 <= p < q < a.Length ensures a[p] != a[q] {
      assert was[p] != was[q];
    }
    for i := 0 to a.Length
      invariant forall p, q :: 0 <= p < q < i ==> less(a[p], a[q])
      invariant AllDifferent(a) && multiset(a[..]) == multiset(was)
    {
      Insert(a, i, less);
    }
    SameElems(a[..], was);
  }

  lemma SameElems(p: seq<BackupFile>, q: seq<BackupFile>)
    requires multiset(p) == multiset(q)
    ensures Elems(p) == Elems(q)
  {
    forall x ensures x in p <==> x in q {
      assert x in multiset(p) <==> x in p;
      assert x in multiset(q) <==> x in q;
    }
  }

  /** The visible files of a directory, in the order the directory was read. */
  method VisibleFiles(fs: FileSystem, target: string, stat: set<string>) returns (r: Option<seq<BackupFile>>)
    requires target in fs.dirs
    ensures r.None? <==> exists f :: f in Visible(fs.dirs[target]) && f.name in stat
    ensures r.Some? ==> Distinct(r.value) && Elems(r.value) == Visible(fs.dirs[target])
    ensures r.Some? ==>
              forall f :: f in r.value <==>
                f.name in fs.dirs[target] && fs.dirs[target][f.name].File? &&
                fs.dirs[target][f.name].modTime == f.modTime && (f.name == "" || f.name[0] != '.')
  {
    var entries := fs.ReadDir(target);
    var dir := fs.dirs[target];
    var files := [];
    for i := 0 to |entries|
      invariant forall f :: f in files <==> f in Visible(dir) && f.name in entries[..i]
      invariant forall f :: f in files ==> f.name !in stat
      invariant Distinct(files)
    {
      var name := entries[i];
      assert name in Elems(entries);
      assert entries[..i + 1] == entries[..i] + [name];
      if dir[name].Folder? || (name != "" && name[0] == '.') {
        forall f | f in Visible(dir) ensures f.name != name { VisibleByName(dir, f); }
        continue;
      }
      var f := BackupFile(name, dir[name].modTime);
      VisibleByName(dir, f);
      if name in stat {
        return None;
      }
      forall g | g in Visible(dir) && g.name == name ensures g == f { VisibleByName(dir, g); }
      assert name !in entries[..i];
      files := files + [f];
    }
    forall f | f in Visible(dir) ensures f in files {
      VisibleByName(dir, f);
      assert f.name in Elems(entries);
      assert entries[..|entries|] == entries;
    }
    forall f
      ensures f in files <==>
              f.name in dir && dir[f.name].File? && dir[f.name].modTime == f.modTime &&
              (f.name == "" || f.name[0] != '.')
    {
      VisibleByName(dir, f);
    }
    return Some(files);
  }

  /** The slice, sorted by `less`. */
  method Sorted(files: seq<BackupFile>, less: (BackupFile, BackupFile) -> bool) returns (q: seq<BackupFile>)
    requires StrictTotal(less) && Distinct(files)
    ensures SortedBy(q, less) && Elems(q) == Elems(files)
  {
    var a := new BackupFile[|files|](i requires 0 <= i < |files| => files[i]);
    assert a[..] == files;
    SortSlice(a, less);
    q := a[..];
  }

  // ---------------------------------------------------------------- pruneBackups, listBackupArtifacts

  method PruneBackups(fs: FileSystem, target: string, maxBackups: int, faults: Faults) returns (ok: bool)
    requires target in fs.dirs
    modifies fs
    ensures var (d, success) := Prune(old(fs.dirs)[target], maxBackups, faults);
      fs.dirs == old(fs.dirs)[target := d] && ok == success
    ensures var was, now := old(fs.dirs)[target], fs.dirs[target];
      forall n :: n in was && (was[n].Folder? || (n != "" && n[0] == '.')) ==> n in now && now[n] == was[n]
  {
    hide Visible, IsVisible, ByAge, WithoutOldest;
    ghost var dir := fs.dirs[target];
    HiddenStay(dir, maxBackups, faults);
    assert fs.dirs == fs.dirs[target := dir];
    if maxBackups <= 0 {
      return true;
    }
    if faults.readDir {
      return false;
    }
    var files := VisibleFiles(fs, target, faults.stat);
    if files.None? {
      return false;
    }
    AgeOrdersAreStrictTotal();
    var sorted := Sorted(files.value, Before);
    SortedIsByAge(dir, sorted);
    if |sorted| <= maxBackups {
      return true;
    }
    ok := RemoveOldest(fs, target, sorted, |sorted| - maxBackups, faults.remove);
  }

  /** Removes the first `toDelete` files, stopping at the first that cannot be removed. */
  method RemoveOldest(fs: FileSystem, target: string, sorted: seq<BackupFile>, toDelete: nat, stuck: set<string>)
    returns (ok: bool)
    requires target in fs.dirs && sorted == ByAge(fs.dirs[target]) && toDelete <= |sorted|
    modifies fs
    ensures var k := Removable(sorted[..toDelete], stuck);
      fs.dirs == old(fs.dirs)[target := WithoutOldest(old(fs.dirs)[target], k)] && ok == (k == toDelete)
  {
    ghost var dir, victims := fs.dirs[target], sorted[..toDelete];
    assert WithoutOldest(dir, 0) == dir && fs.dirs == fs.dirs[target := dir];
    for i := 0 to toDelete
      invariant fs.dirs == old(fs.dirs)[target := WithoutOldest(dir, i)]
      invariant forall j :: 0 <= j < i ==> victims[j].name !in stuck
    {
      if sorted[i].name in stuck {
        RemovableIs(victims, stuck, i);
        return false;
      }
      fs.Remove(target, sorted[i].name);
      OneMoreGone(dir, i);
    }
    RemovableIs(victims, stuck, toDelete);
    return true;
  }

  lemma SortedIsByAge(dir: Dir, q: seq<BackupFile>)
    requires SortedBy(q, Before) && Elems(q) == Visible(dir)
    ensures q == ByAge(dir)
  {
    AscendingUnique(q, ByAge(dir));
  }

  lemma OneMoreGone(dir: Dir, i: nat)
    requires i < |ByAge(dir)|
    ensures WithoutOldest(dir, i + 1) == WithoutOldest(dir, i) - {ByAge(dir)[i].name}
  {
    var q := ByAge(dir);
    assert q[..i + 1] == q[..i] + [q[i]];
    assert NamesOf(q[..i + 1]) == NamesOf(q[..i]) + {q[i].name};
  }

  lemma {:induction false} RemovableIs(victims: seq<BackupFile>, stuck: set<string>, k: nat)
    requires k <= |victims| && forall j :: 0 <= j < k ==> victims[j].name !in stuck
    requires k < |victims| ==> victims[k].name in stuck
    ensures Removable(victims, stuck) == k
  {
    if k == 0 {
    } else {
      assert victims[0].name !in stuck;
      RemovableIs(victims[1..], stuck, k - 1);
    }
  }

  /** The artifact listing: empty for a directory that does not exist yet. */
  method ListBackupArtifacts(fs: FileSystem, target: string, faults: Faults) returns (r: Option<seq<BackupFile>>)
    ensures target !in fs.dirs ==> r == if faults.readDir then None else Some([])
    ensures target in fs.dirs ==>
              var visible := Visible(fs.dirs[target]);
              r == if faults.readDir || exists f :: f in visible && f.name in faults.stat then None
                   else Some(Listing(fs.dirs[target]))
    ensures r.Some? && target in fs.dirs ==>
              forall f :: f in r.value <==>
                f.name in fs.dirs[target] && fs.dirs[target][f.name].File? &&
                fs.dirs[target][f.name].modTime == f.modTime && (f.name == "" || f.name[0] != '.')
  {
    if faults.readDir {
      return None;
    }
    if target !in fs.dirs {
      return Some([]);
    }
    var files := VisibleFiles(fs, target, faults.stat);
    if files.None? {
      return None;
    }
    AgeOrdersAreStrictTotal();
    var newestFirst := Sorted(files.value, (f, g) => Before(g, f));
    SortedIsListing(fs.dirs[target], newestFirst);
    forall f
      ensures f in newestFirst <==>
              f.name in fs.dirs[target] && fs.dirs[target][f.name].File? &&
              fs.dirs[target][f.name].modTime == f.modTime && (f.name == "" || f.name[0] != '.')
    {
      ListingExact(fs.dirs[target], f);
    }
    return Some(newestFirst);
  }

  lemma SortedIsListing(dir: Dir, q: seq<BackupFile>)
    requires SortedBy(q, (f, g) => Before(g, f)) && Elems(q) == Visible(dir)
    ensures q == Listing(dir)
  {
    var p := Reverse(q);
    forall f ensures f in p <==> f in q { ReverseElems(q, f); }
    assert Elems(p) == Visible(dir);
    AscendingUnique(p, ByAge(dir));
    assert q == Reverse(p);
  }

  // ---------------------------------------------------------------- runSingleBackup, RunBackup

  method RunSingleBackup(fs: FileSystem, item: BackupItem, a: Attempt) returns (r: Attempted)
    modifies fs
    ensures (fs.dirs, r) == BackupOne(old(fs.dirs), item, a)
  {
    hide BackupSubdirectoryName, ArchiveName, Prune, StoredHash;
    var target := BackupSubdirectoryName(item);
    if !a.mkdirOk {
      return Err(TargetFailed);
    }
    fs.MkdirAll(target);
    ghost var made := fs.dirs;
    assert made == made[target := made[target]];
    if !a.stagingOk {
      return Err(StagingFailed);
    }
    if !a.copyOk {
      return Err(CopyFailed);
    }
    if !a.probeOk {
      return Err(ProbeFailed);
    }
    if a.hash.None? {
      return Err(HashFailed);
    }
    var currentHash := a.hash.value;
    var lastHash := ReadStoredHash(fs, target, a.listOk);
    if lastHash != "" && lastHash == currentHash {
      return Ok(Skipped(item.id));
    }
    if a.payload.isDir && !a.archiveOk {
      return Err(ArchiveFailed);
    }
    var name := ArchiveName(a.second, currentHash, a.payload.isDir);
    if name in fs.dirs[target] && fs.dirs[target][name].Folder? {
      return Err(DownloadFailed);
    }
    match a.download {
      case Failed(None) =>
        return Err(DownloadFailed);
      case Failed(Some(q)) =>
        fs.Write(target, name, File(a.modTime, q));
        return Err(DownloadFailed);
      case Complete =>
        fs.Write(target, name, File(a.modTime, a.payload));
    }
    ghost var stored := fs.dirs[target];
    var pruned := PruneBackups(fs, target, item.maxBackups, a.faults);
    assert fs.dirs == made[target := Prune(stored, item.maxBackups, a.faults).0];
    if !pruned {
      return Err(PruneFailed);
    }
    return Ok(Archived(item.id, name, a.payload.isDir));
  }

  /** The whole batch: outcomes in item order, or the first error and no outcomes at all. */
  method RunBackup(fs: FileSystem, items: seq<BackupItem>, attempts: seq<Attempt>, connectOk: bool)
    returns (r: Result<seq<Outcome>, BackupError>)
    requires connectOk ==> |attempts| == |items|
    modifies fs
    ensures !connectOk ==> fs.dirs == old(fs.dirs) && r == Err(ConnectFailed)
    ensures connectOk ==>
              var b := RunItems(old(fs.dirs), items, attempts, |items|);
              fs.dirs == b.dirs && r == if b.error.Some? then Err(b.error.value) else Ok(b.outcomes)
    ensures r.Ok? ==> |r.value| == |items| && forall i :: 0 <= i < |items| ==>
              BackupOne(RunItems(old(fs.dirs), items, attempts, i).dirs, items[i], attempts[i]).1 == Ok(r.value[i])
  {
    hide BackupOne;
    if !connectOk {
      return Err(ConnectFailed);
    }
    var outcomes := [];
    for i := 0 to |items|
      invariant RunItems(old(fs.dirs), items, attempts, i) == Batch(fs.dirs, outcomes, None)
    {
      var o := RunSingleBackup(fs, items[i], attempts[i]);
      if o.Err? {
        StoppedBatch(old(fs.dirs), items, attempts, i + 1, |items|);
        return Err(o.error);
      }
      outcomes := outcomes + [o.value];
    }
    BatchOutcomes(old(fs.dirs), items, attempts);
    return Ok(outcomes);
  }

  lemma BatchOutcomes(dirs: Dirs, items: seq<BackupItem>, attempts: seq<Attempt>)
    requires |attempts| == |items| && RunItems(dirs, items, attempts, |items|).error.None?
    ensures var outcomes := RunItems(dirs, items, attempts, |items|).outcomes;
      |outcomes| == |items| && forall i :: 0 <= i < |items| ==>
        BackupOne(RunItems(dirs, items, attempts, i).dirs, items[i], attempts[i]).1 == Ok(outcomes[i])
  {
    hide BackupOne, RunItems;
    BatchExact(dirs, items, attempts, |items|);
    var outcomes := RunItems(dirs, items, attempts, |items|).outcomes;
    forall i | 0 <= i < |items|
      ensures BackupOne(RunItems(dirs, items, attempts, i).dirs, items[i], attempts[i]).1 == Ok(outcomes[i])
    {
      var before, after := RunItems(dirs, items, attempts, i).dirs, RunItems(dirs, items, attempts, i + 1).dirs;
      assert BackupOne(before, items[i], attempts[i]) == (after, Ok(outcomes[i]));
    }
  }

  /** A batch that has failed does nothing more. */
  lemma {:induction false} StoppedBatch(dirs: Dirs, items: seq<BackupItem>, attempts: seq<Attempt>, n: nat, m: nat)
    requires n <= m <= |items| == |attempts| && RunItems(dirs, items, attempts, n).error.Some?
    ensures RunItems(dirs, items, attempts, m) == RunItems(dirs, items, attempts, n)
  {
    hide BackupOne;
    if n == m {
    } else {
      StoppedBatch(dirs, items, attempts, n, m - 1);
    }
  }

  // ---------------------------------------------------------------- deleting one archive

  datatype DeleteStatus = Deleted | BadRequest | NotFound | DeleteFailed

  /** Names the endpoint turns away before touching the tree. */
  predicate BadFileName(name: string) {
    name == "" || '/' in name || '\\' in name || name == ".." || name == "."
  }

  function DeleteIn(dir: Dir, name: string, removeOk: bool): (Dir, DeleteStatus) {
    if BadFileName(name) then (dir, BadRequest)
    else if name !in dir then (dir, NotFound)
    else if !removeOk then (dir, DeleteFailed)
    else (dir - {name}, Deleted)
  }

  /** The names refused, and the answers for the others. */
  lemma DeleteExact(dir: Dir, name: string, removeOk: bool)
    ensures var (d, status) := DeleteIn(dir, name, removeOk);
      var bad := name == "" || name == "." || name == ".." || '/' in name || '\\' in name;
      && (status == BadRequest <==> bad)
      && (status == NotFound <==> !bad && name !in dir)
      && (status == DeleteFailed <==> !bad && name in dir && !removeOk)
      && (status == Deleted <==> !bad && name in dir && removeOk)
      && (status != Deleted ==> d == dir)
      && (status == Deleted ==> d.Keys == dir.Keys - {name} && forall n :: n in d ==> d[n] == dir[n])
  {
  }

  /** `handleDeleteBackupFile` for the item id and file name of a request. */
  method DeleteBackupFile(fs: FileSystem, items: seq<BackupItem>, itemId: string, fileName: string, removeOk: bool)
    returns (status: DeleteStatus)
    modifies fs
    ensures var id, name := TrimSpace(itemId), TrimSpace(fileName);
      if id == "" || id !in IdsOf(items) || BadFileName(name) then fs.dirs == old(fs.dirs) && status == BadRequest
      else
        && Config.ItemByID(items, id).Some?
        && var target := BackupSubdirectoryName(Config.ItemByID(items, id).value);
           if target !in old(fs.dirs) then fs.dirs == old(fs.dirs) && status == NotFound
           else
             var (d, st) := DeleteIn(old(fs.dirs)[target], name, removeOk);
             fs.dirs == old(fs.dirs)[target := d] && status == st
  {
    hide BackupSubdirectoryName, TrimSpace;
    var id, name := TrimSpace(itemId), TrimSpace(fileName);
    if id == "" || BadFileName(name) {
      return BadRequest;
    }
    var item := Config.FindItemByID(items, id);
    if item.None? {
      return BadRequest;
    }
    var target := BackupSubdirectoryName(item.value);
    assert target in fs.dirs ==> fs.dirs == fs.dirs[target := fs.dirs[target]];
    if target !in fs.dirs || name !in fs.dirs[target] {
      return NotFound;
    }
    if !removeOk {
      return DeleteFailed;
    }
    fs.Remove(target, name);
    return Deleted;
  }
}
