# PteroBackup, modelled and proved

PteroBackup copies paths out of Docker containers on a remote host into local archives, on a schedule. Four
parts of it carry state or promises that go beyond one function body, and this project models them:

- **The scheduler** (`Scheduler.dfy`, `SchedulerRuns.dfy`). Four maps keyed by item id are planned under a
  lock, left alone while a batch runs, and updated under the lock when it ends. The service is a class with
  those fields; whole runs are sequences of lock-free points between which the configuration, the clock and the
  outcome of a batch are arbitrary. The main result is that the four maps are a cache: the service refines a
  reference that keeps, per item, only the last success and how the latest attempt ended. Spacing, rate and
  lateness of the backups follow.
- **The backup directory** (`Directory.dfy`, `Backup.dfy`, `BackupLog.dfy`, with `Naming.dfy`, `Calendar.dfy`
  and `Strings.dfy`). All history is in file names: a timestamp that must sort, a hash that must parse back, a
  suffix that must tell directories from files; pruning sorts by another order. The main result is that this
  directory refines a plain list of archives, where a backup looks at the last element, appends and drops from
  the front, over every history of backups, failures and deletions. The exact condition for backup and restore to
  agree, retention and the absence of duplicate neighbours follow.
- **The remote commands** (`Shell.dfy`, `Commands.dfy`). Quoting is a printer whose inverse is the POSIX shell.
  The shell's token recognition is a state machine over characters (IEEE Std 1003.1-2017, Shell Command
  Language, sections 2.2.1, 2.2.2, 2.3 and 2.7), and every command line is proved to be read as the arguments
  intended, for all container names, paths and item ids.
- **The configuration** (`Config.dfy`, records in `Domain.dfy`). Defaulting writes through a configuration into
  its slice; storing and loading are a class. It supplies the unique ids and positive intervals the scheduler
  needs.

`Composition.dfy` joins them: a saved configuration is one the scheduler's theorems cover, the scheduler's habit of
repeating a whole batch after one failure is harmless for the items already backed up, and over any run of ticks,
backups asked for by hand and deletions an item with a success on record has an archive to restore.

## Conventions

Instants of the scheduler are integers in nanoseconds, and archive timestamps are whole seconds, both since Go's
zero time. The 64-bit wrap-around of `time.Duration(minutes) * time.Minute` is modelled; instants are unbounded.
Strings are compared by code point, which is the byte order of their UTF-8 form. Lists of directory entries and
map keys are visited in an arbitrary order. What the remote host, the clock, the random source and the file
system answer are parameters: `Attempt` for a backup, `Faults` for local files, `IdSource` for ids. The
payload digest is an arbitrary function of the payload.

Hypotheses of the whole-run theorems, each of which has a counterexample or an exact condition beside it:

- the scheduler's clock does not go back where selection must be exact, that is in the refinement and in lateness
  (`SchedulerRuns.ClockSetBack`, and exactly `SchedulerRuns.PlanSelectsExactly`); spacing, rate and the cache equation
  hold whatever the clock does;
- where a configuration repeats an id, no item has a shorter interval than the last one with that id; unique ids, which
  saving guarantees, are a special case (`SchedulerRuns.LastIsShortestExact`, `SchedulerRuns.CommitKeepsCacheExact`,
  and the instance `SchedulerRuns.DuplicateIds`); planning alone needs nothing of the list;
- intervals are at most 153722867 minutes where a bound in minutes is stated (`Scheduler.IntervalExact`);
- attempts that write a file to one directory do so in increasing whole seconds, file times do not decrease, and years
  have four digits; without any of that `Backup.RestoreSourceExact` says which archive a successful backup leaves as the
  restore source and `Backup.AgreementAnywhere` when that is the right one, and `BackupLog.SameSecondRestoresOlder` is a
  run where it is not;
- digests contain no `-`, `.` or `/` (`Naming.HashRoundTripExact`);
- where agreement of backup and restore is stated without a condition, a hash is the digest of the payload or empty, as
  it is when the remote command prints nothing, and a download that fails leaves no file, or one with the same digest
  and kind; the condition without that is `BackupLog.AgreementExact`, and `BackupLog.PartialDownloadStays` shows how it
  fails: the local file is created before the first byte arrives, under a name that already carries the new hash;
- when ids are missing, the draws to come hold as many unused ids, repeated draws or not; that is all defaulting needs
  and no less (`Config.EnoughIsNeeded`), it holds of a source that does not repeat itself within as many draws as there
  are items (`Config.NonRepeatingIsEnough`), and when no id is missing it asks nothing (`Config.SuppliedIsPlenty`);
- items that must not interfere have distinct directories (`Naming.DirectoriesCollide`).

One disagreement with the repository's documentation is settled in favour of the code: README.md line 42 says that
older artifacts are pruned after successful backups, but a backup that is skipped because nothing changed counts
as a success and does not prune (`Backup.LimitAfterSuccessExact` says exactly when the limit holds, and
`BackupLog.LimitLowered` gives a run where it does not).

## Model

| member | source | states |
|---|---|---|
| Calendar.DateOfIsGregorian | internal/backup/naming.go:17 | the calendar behind timestamps starts at 0001-01-01 and advances one Gregorian day at a time |
| Calendar.NewYear | internal/backup/naming.go:17 | the first of January after y years is day 365y + y/4 - y/100 + y/400 |
| Calendar.MonthStarts | internal/backup/naming.go:17 | and every other month starts a fixed number of days later, one more after February of a leap year |
| Calendar.TimestampReads | internal/backup/naming.go:16-19 | every timestamp reads back, in any year: its digits are year, month, day, hour, minute and second of a date and time of day that make up the second printed |
| Calendar.TimestampOrder | internal/backup/naming.go:16-19 | up to year 9999 an earlier second has a smaller timestamp, whatever follows either |
| Naming.ArchiveNameOfDate | internal/backup/naming.go:16-19 | the archive name of any date and time of day up to year 9999, character by character |
| Naming.ArchiveNameOrder | internal/backup/naming.go:16-19 | name order is time order up to year 9999, whatever the hashes and suffixes |
| Naming.ArchiveNameOrderExact | internal/backup/naming.go:16-19 | between years 2000 and 19999, for different seconds name order is time order if and only if the years have equally many digits, and within one second it is the order of hash and suffix |
| Naming.SameSecondOrder | internal/backup/naming.go:16-19 | two archives of one second, in any year, are ordered by hash and suffix and not by age |
| Naming.HashRoundTripExact | internal/backup/service.go:249-253 | parsing a generated name gives back the hash if and only if it has no dash and, uncompressed, does not end in the archive suffix |
| Naming.HashInNameExact | internal/backup/service.go:249-253 | of any name the parser takes what stands between the second dash and the third, without the archive suffix, and nothing if there are fewer than two dashes |
| Naming.NameDeterminesArchive | internal/backup/service.go:98-105 | for clean hashes the name alone determines the hash and whether the payload was a directory; an empty hash reads as empty |
| Naming.SanitizeNameSafe | internal/backup/naming.go:21-29 | the result is never empty and only has letters, digits, dot, underscore and hyphen |
| Naming.SanitizeNameFixedPoints | internal/backup/naming.go:21-29 | exactly the non-empty safe names without an underscore at either end are left alone |
| Naming.SanitizeNameExact | internal/backup/naming.go:14-29 | each run of other characters becomes one underscore, underscores at the ends go, and what is empty then is "item" |
| Naming.SanitizeNameIsProjection | internal/backup/naming.go:21-29 | sanitizing twice is sanitizing once |
| Naming.SanitizeNameKeepsContent | internal/backup/naming.go:14-29 | apart from underscores the safe characters survive in order and nothing is added; only an input without any becomes "item" |
| Naming.SubdirectoryIsOneComponent | internal/backup/naming.go:49-69 | every item gets a directory name that is one non-empty path component |
| Naming.NamedDirectory | internal/backup/naming.go:49-52 | a backup name decides the directory |
| Naming.LegacyDirectory | internal/backup/naming.go:54-60 | without one the last component of a local path does, whatever slashes end the path |
| Naming.PairDirectory | internal/backup/naming.go:62-68 | without either, or with a local path of slashes or ending in a dot, container name and path do, joined by two underscores, the path without outer slashes and with two underscores for each inner one |
| Naming.PairDirectoryContent | internal/backup/naming.go:54-68 | without an override the directory name carries the container name followed by the container path, "item" standing for either when it has no character to keep and "root" for a path of slashes |
| Naming.DirectoriesCollide | internal/backup/naming.go:62-68 | a slash and a double underscore in the path give the same directory, so names are not injective |
| Shell.ShellEscapeRoundTrip | internal/backup/service.go:258-260 | the shell reads an escaped string as one word equal to it, the empty string included, if and only if it has no NUL |
| Shell.ShellEscapeText | internal/backup/service.go:258-260 | the text is the string in single quotes, each single quote in it closing, standing escaped and opening again |
| Shell.OneCharacter | internal/backup/service.go:258-264 | what the shell model makes of each single character: blank, operator, refusal or word |
| Shell.WordThenOperator | internal/backup/service.go:211-214 | a plain word before an operator is a word, and a descriptor number only if it is digits before a redirection |
| Shell.RenderRoundTrip | internal/backup/service.go:258-264 | every well-formed command line built from literal and escaped parts is read back as exactly its own tokens |
| Shell.ArgvRoundTrip | internal/backup/service.go:258-264 | any argument list of NUL-free strings arrives unchanged |
| Commands.StagingShape | internal/backup/service.go:69 | every staging directory is a single entry of /tmp: the prefix for backups or for restores, followed by the sanitized id, which is not empty and has no slash |
| Commands.StagingSharedExact | internal/backup/service.go:69-137 | two ids share a staging directory if and only if they sanitize alike, and a backup works where a restore does if and only if its sanitized id is "restore-" and the other's |
| Commands.StagingCollides | internal/backup/service.go:69-137 | such pairs exist for every id that sanitizing leaves alone |
| Commands.StagingIsLiteral | internal/backup/service.go:69 | the staging paths, used unquoted, mean themselves to the shell for every item id |
| Commands.StagingTexts | internal/backup/service.go:69-70 | the staging command lines have the text of their format strings |
| Commands.StagingLines | internal/backup/service.go:137-138 | the four staging lines of an item in full, with the path spelled out |
| Commands.StagingCommandsRead | internal/backup/service.go:69-70 | the shell reads them as removing and creating exactly that one directory, spelled out, for every item id, in a backup and in a restore |
| Commands.DockerCommandTexts | internal/backup/service.go:75 | the docker command lines have the text of their format strings, word for word |
| Commands.DockerCommandsRead | internal/backup/service.go:149-158 | docker receives container and path as one word joined by a colon, and the file or directory contents as one word, for all names |
| Commands.TarCommandTexts | internal/backup/service.go:108-150 | the tar command lines have the text of their format strings |
| Commands.TarCommandsRead | internal/backup/service.go:108 | both tar command lines are read as exactly the intended arguments |
| Commands.ProbeText | internal/backup/service.go:80 | the probe has the text of its format string |
| Commands.ProbeReads | internal/backup/service.go:80 | the payload probe tests exactly the payload path |
| Commands.HashFileText | internal/backup/service.go:216 | the file hash pipeline has the text of its format string |
| Commands.HashFileReads | internal/backup/service.go:216 | the file hash pipeline hashes exactly the payload path and hands awk its program unexpanded |
| Commands.HashDirectoryText | internal/backup/service.go:211-214 | the directory hash pipeline has the text of its format string |
| Commands.HashDirectoryReads | internal/backup/service.go:211-214 | the same for the five-stage directory pipeline, its redirection read as one |
| Commands.BackupCommandsRead | internal/backup/service.go:69-108 | in a backup of any item docker copies the configured path of the configured container into the item's staging directory, and what is probed, hashed and packed is that copy |
| Commands.RestoreCommandsRead | internal/backup/service.go:137-158 | in a restore the uploaded archive is unpacked below the item's restore directory and its payload copied to the configured path, or a plain file is copied as it is |
| Directory.AscendingUnique | internal/backup/service.go:311-316 | there is only one order by modification time and name, so any correct sort gives it |
| Directory.ListingIsNewestFirst | internal/httpapi/server.go:484-489 | the listing has every visible file once, newest first, larger names first within one time |
| Directory.ListingExact | internal/httpapi/server.go:444-497 | a file is listed if and only if its name does not start with a dot, with its time; directories are not |
| Directory.LatestNameExact | internal/backup/service.go:169-256 | no file but .last_hash has a larger name than the restore source, and there is none only if there is no other file |
| Directory.WithoutOldestShape | internal/backup/service.go:318-324 | at every point of a prune the visible files left are the newest ones in order, each file gone is older than each left, and nothing else changed |
| Directory.PruneIsListingHead | internal/backup/service.go:280-327 | with a positive limit and no failures the visible files left are the first maxBackups of the listing, directories and names that start with a dot stay, and a second prune does nothing |
| Directory.PruneExact | internal/backup/service.go:280-327 | for any limit and any failures: nothing happens without a limit, nothing and a failure if the directory or a listed file cannot be read, and otherwise the files beyond the limit go from the oldest up to the first that cannot be removed, with success if there is none |
| Directory.HiddenStay | internal/backup/service.go:290-305 | whatever the limit and whatever fails, directories and files whose names start with a dot stay, and what stays is unchanged |
| Directory.PruneRemovesOldest | internal/backup/service.go:318-324 | whatever fails, what is removed is a number of oldest files never above the surplus |
| Directory.PruneKeepsLatestExact | internal/backup/service.go:280-327 | for any limit and any failures, pruning leaves the restore source alone if and only if it is hidden from pruning or listed before the files that go |
| Directory.PruneSurvivors | internal/backup/service.go:280-327 | a successful prune of any directory leaves exactly the candidates it does not see or that are within the limit of the listing |
| Directory.PruneKeepsLatest | internal/backup/service.go:280-327 | when age and name order agree, pruning never changes the restore source or the stored hash, for any limit and any failures |
| Backup.LatestBackupForItem | internal/backup/service.go:169-200 | finds the largest file name with its kind, or says whether the directory or an archive is missing |
| Backup.ReadStoredHash | internal/backup/service.go:229-256 | returns the hash in the name of that same file, or nothing |
| Backup.SortSlice | internal/backup/service.go:311-316 | sorts the slice in place by any strict total order, keeping its elements |
| Backup.VisibleFiles | internal/backup/service.go:290-305 | collects exactly the files whose names do not start with a dot, with their times, or reports that one cannot be examined |
| Backup.PruneBackups | internal/backup/service.go:280-327 | leaves the directory and reports success as specified by the age order, including after a failing removal, and never touches directories or dot files |
| Backup.ListBackupArtifacts | internal/httpapi/server.go:444-497 | lists exactly the files whose names do not start with a dot, newest first, nothing for a missing directory, an error if reading fails |
| Backup.RunSingleBackup | internal/backup/service.go:63-129 | has the effect and outcome of one attempt on the item's directory, each failure included |
| Backup.AttemptExact | internal/backup/service.go:69-128 | how an attempt ends: each error if and only if its step is the first to fail, a skip if and only if the stored hash was read, is not empty and is the current one, and otherwise the archive with its name and kind |
| Backup.AttemptEffect | internal/backup/service.go:93-120 | what an attempt writes: nothing before the download creates its file, then that file with what arrived, and the pruned directory after a whole download |
| Backup.OneItemExact | internal/backup/service.go:63-67 | an attempt makes its item's directory, works in it and leaves every other alone |
| Backup.RunBackup | internal/backup/service.go:24-44 | runs the items in order up to the first error, and then returns no outcomes; without one, outcome i is what the attempt at item i gave on the tree before it |
| Backup.BatchExact | internal/backup/service.go:34-41 | after any number of items: each outcome is that of its attempt on the tree before it, the error is that of the first item that fails, and nothing happens after it |
| Backup.DeleteBackupFile | internal/httpapi/server.go:241-323 | trims the request, finds the item, and removes exactly the named entry of its directory, or changes nothing and says why |
| Backup.DeleteExact | internal/httpapi/server.go:241-323 | which names are refused, when the entry is not found or cannot be removed, and that only that entry goes |
| Backup.LimitAfterSuccessExact | internal/backup/service.go:93-120 | after a successful backup the limit holds unless the stored hash was found current and there were too many archives before |
| Backup.RestoreSourceExact | internal/backup/service.go:93-200 | for every directory, clock and file times, a successful backup leaves as restore source the archive that was there if the hash was found on it, and otherwise the new one if and only if it survives the prune and no larger name does |
| Backup.AgreementAnywhere | internal/backup/service.go:93-200 | there the restore source has the digest of the payload if and only if that archive, or the largest survivor, has it |
| BackupLog.LatestIsLast | internal/backup/service.go:169-256 | in a directory made by backups the largest name is the archive taken last and its parsed hash is the one it was taken with |
| BackupLog.AgeIsLogOrder | internal/backup/service.go:311-316 | there the pruning order is the order in which archives were taken |
| BackupLog.BackupRefines | internal/backup/service.go:63-129 | a backup of the directory is the backup of the list: same outcome, corresponding result, failures, partial downloads of any content and partial prunes included; only an attempt that writes a file has to be later than the last write |
| BackupLog.DeleteRefines | internal/httpapi/server.go:303-323 | deleting a file by name removes that archive from the list and no other |
| BackupLog.HistoryRefines | internal/backup/service.go:63-129 | over every history of backups, failures and deletions the directory corresponds to the list and every outcome agrees |
| BackupLog.AgreementExact | internal/backup/service.go:93-200 | at every directory backups can have left, after a successful backup the restore source has the digest of the payload if and only if the hash computed was not found stored, or is empty, or the archive it was found on has that digest |
| BackupLog.HistoryAgreesExact | internal/backup/service.go:93-200 | the same after every history of backups, failures and deletions from an empty directory |
| BackupLog.RestoreAgreesWithBackup | internal/backup/service.go:63-200 | when failed downloads leave nothing else behind the condition always holds, also with attempts whose hash command printed nothing: right after any successful backup the restore source has the digest of the payload, and its kind when digests separate kinds |
| BackupLog.SameSecondRestoresOlder | internal/backup/naming.go:16-19 | of two archives taken in one second the older one is restored when its hash and suffix are larger |
| BackupLog.RetentionAndNoDuplicates | internal/backup/service.go:93-120 | with a fixed positive limit there are never more archives than it, and no two neighbours carry the same non-empty hash |
| BackupLog.RetentionBound | internal/backup/service.go:280-327 | in every directory and whatever fails, there are never more archives than the limit plus the files left by failed attempts since the last stored success |
| BackupLog.PartialDownloadStays | internal/remote/transfer.go:24-32 | after a download that leaves a partial file, of whatever content and kind, every later look at the unchanged payload is skipped or fails, and the partial file stays the restore source under the hash of the payload |
| BackupLog.LimitLowered | internal/backup/service.go:93-96 | two archives, the limit lowered to one and an unchanged payload: the backup succeeds and both remain |
| Scheduler.IntervalExact | internal/scheduler/scheduler.go:164 | the 64-bit product is the duration meant exactly up to 153722867 minutes, and always differs from it by a multiple of two to the 64th |
| Scheduler.IntervalWraps | internal/scheduler/scheduler.go:164 | one minute more, which validation accepts, gives a negative duration |
| Scheduler.Service.Snapshot | internal/scheduler/scheduler.go:52-75 | one entry per planned id, with its next run, last success and error text |
| Scheduler.ShownExact | internal/scheduler/scheduler.go:58-66 | an instant is shown as its whole second, and as nothing only if it is the zero time |
| Scheduler.Service.PlanPhase | internal/scheduler/scheduler.go:104-142 | plans the four maps and selects the due items in configuration order |
| Scheduler.Service.ForgetInactive | internal/scheduler/scheduler.go:132-141 | drops exactly the planned ids that are no longer configured, from all four maps |
| Scheduler.Service.FailPhase | internal/scheduler/scheduler.go:152-156 | records the error for exactly the batch and changes no other map |
| Scheduler.Service.SucceedPhase | internal/scheduler/scheduler.go:162-168 | records the success, reschedules and clears the error of the batch, in order |
| Scheduler.Service.RunOnce | internal/scheduler/scheduler.go:93-171 | one tick: on a load failure the four maps are as before and no batch runs, otherwise plan and, if anything is due, commit |
| SchedulerRuns.PlanItemsShape | internal/scheduler/scheduler.go:105-130 | for every list and at every point of the planning loop the cache invariant holds, each id has the interval it was listed with last, an item without a success keeps its waiting time unless its interval changed, and the selection is the ready items less those held back |
| SchedulerRuns.PlanSelectsExactly | internal/scheduler/scheduler.go:108-129 | for every list planning selects exactly the items without a success or with one at least an interval old, if and only if the first item of no id is held back by a next run in the future |
| SchedulerRuns.PlanIsExact | internal/scheduler/scheduler.go:108-129 | as long as the clock does not go back planning selects exactly the ready items of every list |
| SchedulerRuns.TickIsPlanThenFinish | internal/scheduler/scheduler.go:93-171 | one tick is a planning step followed by a finishing step |
| SchedulerRuns.TicksAreRuns | internal/scheduler/scheduler.go:77-171 | any number of ticks, load failures included, is a run of the matching events, so what holds of runs holds of the service between its ticks |
| SchedulerRuns.PlanCouples | internal/scheduler/scheduler.go:104-142 | planning any list keeps the maps in step with the reference, intervals changed, ids repeated and items removed or not |
| SchedulerRuns.FinishCouples | internal/scheduler/scheduler.go:151-168 | a failed batch keeps the maps in step with the reference; a successful one does if and only if the durations of its last items are those on record |
| SchedulerRuns.CommitKeepsCacheExact | internal/scheduler/scheduler.go:162-168 | committing a successful batch keeps the cache invariant if and only if each id's last due item asks for the duration on record |
| SchedulerRuns.LastIsShortestExact | internal/scheduler/scheduler.go:105-168 | a list answers exactly after two ticks if and only if no item has a shorter interval than the last item with its id |
| SchedulerRuns.ServiceRefinesReference | internal/scheduler/scheduler.go:77-171 | along every run and at every lock-free point the service is where the reference is |
| SchedulerRuns.RunsRefineReference | internal/scheduler/scheduler.go:35-171 | the same from the service's construction, with the cache invariant and no next run past the last plan for items without a success |
| SchedulerRuns.SnapshotIsComplete | internal/scheduler/scheduler.go:52-75 | at every lock-free point of a run a snapshot has exactly the known items, shows each last success and the next run one interval after it (or not after the last plan), and an error exactly where the latest attempt failed |
| SchedulerRuns.CacheInvariant | internal/scheduler/scheduler.go:108-123 | at every lock-free point, even if the clock is set back, a success has its next run one interval later; and if it is not, an item without a success is due from the last plan on under any interval |
| SchedulerRuns.SuccessesAreSpaced | internal/scheduler/scheduler.go:112-167 | along every run of the service, whatever happens to the intervals and the clock, each success of an item comes at least the interval its batch was planned with after the one before |
| SchedulerRuns.RunsAreSpaced | internal/scheduler/scheduler.go:35-171 | the same from the service's construction, for every item id |
| SchedulerRuns.SpacingAndRate | internal/scheduler/scheduler.go:112-167 | from any idle moment on, with a fixed interval and whatever the clock does, successes are at least the interval apart, and no window holds more than its width divided by the interval, plus one |
| SchedulerRuns.LatenessBound | internal/scheduler/scheduler.go:77-168 | from any idle moment on, when plans are at most d apart and batches succeed, successes of an item with a fixed interval are less than interval plus d apart, and between batches, once there was a plan, it has a success and is not overdue |
| SchedulerRuns.LatenessFromStart | internal/scheduler/scheduler.go:35-168 | the same from the service's construction, with spacing |
| SchedulerRuns.ClockSetBack | internal/scheduler/scheduler.go:100-127 | after the clock goes back an item that has never succeeded is not selected |
| SchedulerRuns.DuplicateIds | internal/scheduler/scheduler.go:105-123 | one id listed with 30 and then 60 minutes makes the scheduler select the hourly item after half an hour |
| Config.DrawsAreBounded | internal/config/defaults.go:58-68 | draws without repetition collide with a finite set at most as often as it has elements |
| Config.IdSource.NextBackupID | internal/config/defaults.go:58-68 | returns the first generated id not in use, provided one is to come, and marks it used; without repetition that takes at most one draw more than there are ids in use |
| Config.ApplyDefaults | internal/config/defaults.go:22-56 | fills limits, keeps supplied ids, gives each missing id one nobody else has, in place, drawing no more than any number of draws that holds enough unused ids, and not at all when none is missing |
| Config.DefaultValues | internal/config/defaults.go:22-78 | the values filled in: port 22, password login, an hour, twenty backups and an id "item-" and hexadecimal digits, and nothing else changes |
| Config.EnoughIsNeeded | internal/config/defaults.go:35-68 | whatever draws defaulting made held an unused id for every missing one |
| Config.NonRepeatingIsEnough | internal/config/defaults.go:35-78 | a source that does not repeat itself within as many draws as there are items is enough for them |
| Config.DefaultsMakeIdsUnique | internal/config/defaults.go:35-55 | after defaulting ids are non-empty and limits positive, and ids are distinct if and only if the supplied ones were |
| Config.DefaultsAreIdempotent | internal/config/defaults.go:22-56 | a second application changes nothing |
| Config.MissingIdsAreRegenerated | internal/config/store.go:43-49 | a file that lacks an id gets a different one on every load that draws no id again |
| Config.ReloadsAgreeExact | internal/config/store.go:43-49 | two successive loads of a file agree if and only if no item in it lacks an id |
| Config.Validate | internal/config/store.go:78-133 | reports the first failing check in order |
| Config.SSHErrorExact | internal/config/store.go:79-104 | which check on the connection fails first, one by one |
| Config.ItemErrorExact | internal/config/store.go:106-130 | which check on an item fails first, one by one |
| Config.FirstErrorExact | internal/config/store.go:78-133 | the connection's error comes first, and then that of the first item that has one |
| Config.ValidationExact | internal/config/store.go:78-133 | validation passes exactly the configurations that are valid as a whole |
| Config.AcceptableExact | internal/config/store.go:52-57 | after defaulting, validation passes exactly the acceptable inputs |
| Config.UnreachableChecks | internal/config/store.go:106-129 | the checks for a missing id, a bad interval and a bad limit never fire after defaulting |
| Config.Store.Save | internal/config/store.go:52-76 | succeeds exactly on acceptable input that can be written, stores the defaulted value, and writes defaults through the caller's slice |
| Config.Store.Load | internal/config/store.go:24-50 | returns a saved value as it is any number of times, defaults for a missing or empty file, errors otherwise |
| Config.FindItemByID | internal/httpapi/server.go:425-435 | finds the first item with the id, the only one when ids are unique |
| Composition.SavedConfigIsSchedulable | internal/config/store.go:52-76 | what is saved has unique non-empty ids and positive intervals, as the scheduler's theorems need |
| Composition.BatchKeepsTree | internal/backup/service.go:34-41 | whatever fails in a batch, every directory stays one that backups can have left |
| Composition.AttemptAnswers | internal/backup/service.go:63-129 | one attempt, whatever its outcome, leaves the directory answering with its hash or with what it answered before |
| Composition.AttemptRestores | internal/backup/service.go:63-129 | one attempt, whatever its outcome, leaves the directory restoring the digest of its payload or what it restored before |
| Composition.FailedBatchIsDueAgain | internal/scheduler/scheduler.go:151-160 | every item of a failed batch is selected again at the next plan that contains it |
| Composition.PastItemsAreStored | internal/backup/service.go:34-41 | every item a batch got past answers with its digest afterwards, whatever the batch did later |
| Composition.StoredItemsAreSkipped | internal/backup/service.go:93-96 | in a later batch such an item is skipped and its directory is unchanged throughout |
| Composition.RetryIsHarmless | internal/scheduler/scheduler.go:148-160 | items a failed batch had got past are in the scheduler's next batch and are skipped there with their directories unchanged |
| Composition.RunTick | internal/scheduler/scheduler.go:93-171 | the tick with the batch between its two locked phases leaves schedule and tree as the tick events of Composition.SuccessHasArchive have them |
| Composition.RunDeletion | internal/httpapi/server.go:241-323 | a deletion request is the deletion event in its item's directory, or nothing for an unknown item |
| Composition.SuccessHasArchive | internal/scheduler/scheduler.go:93-171 | over any run of ticks, backups asked for by hand and deletions, an item with a success on record has an archive to restore unless a file was deleted since; it carries the hash of the last attempt that stored one or found its hash stored, and the digest of the payload that attempt saw |

## Left out

- SSH and SFTP connections, key generation, HTTP routing, JSON text, the web interface, logging and environment lookup: plumbing.
- The effects of docker, tar, find and sha256sum: an archive carries its payload, and agreement is agreement of digests, which do not see empty directories or file modes.
- The remote half of a restore: only the choice of the archive and the command lines are modelled.
- Concurrent backups of one directory from the scheduler and the HTTP handlers: no lock covers them, so directory steps are sequential here; the scheduler's own concurrency is modelled.
- Paths outside one component: an item named "." or ".." resolves outside its directory, and no claim is made about confinement.
- The JSON codec: a stored value decodes to what was encoded.
- Fallback ids from the clock, listing tar contents, and selecting one item from a request body: each is a few lines without state.
- Per-item progress while another item of the batch keeps failing: batches are all or nothing, so lateness is stated for succeeding batches.
- Shell.Tokenize: refuses expansions, comments, double quotes and here-documents, which no command uses; an unquoted "[" is an ordinary character, as in the one command that has it.
- Backup.FileSystem: directories are values in a map field; contents of subdirectories are not tracked, so whether removing one succeeds is a parameter.
- Backup.ListBackupArtifacts: the sizes and the formatted times of the artifacts are not in its result, because the model's files have a name, a time and an abstract content.
- BackupLog.RetentionAndNoDuplicates: assumes that local files work and failed downloads leave nothing, because a leftover is an archive no prune follows; BackupLog.RetentionBound is the limit without that.
- Composition.SuccessHasArchive: the archive need not be the one of the recorded success, because a later batch may store a newer archive, prune, and then fail on another item; and after a deletion it says nothing until the directory answers again.
- Directory.PruneKeepsLatest: needs the two orders to agree; Directory.PruneKeepsLatestExact gives the condition without that.
