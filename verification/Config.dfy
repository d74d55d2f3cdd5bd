/** Configuration defaults, validation and storage (internal/config/defaults.go, internal/config/store.go). */
module Config {
  import opened Domain

  // ---------------------------------------------------------------- fresh ids

  function Candidate(hex: nat -> string, k: nat): string { "item-" + hex(k) }

  /** The random source does not repeat itself within `width` draws from `start`. */
  ghost predicate NonRepeating(hex: nat -> string, start: nat, width: nat) {
    forall j: nat, k: nat :: start <= j < k < start + width ==> hex(j) != hex(k)
  }

  lemma CandidatesDiffer(hex: nat -> string, start: nat, width: nat, j: nat, k: nat)
    requires NonRepeating(hex, start, width) && start <= j < k < start + width
    ensures Candidate(hex, j) != Candidate(hex, k)
  {
    assert Candidate(hex, j)[5..] == hex(j) && Candidate(hex, k)[5..] == hex(k);
  }

  /** Draws `p` up to `q` are all in use. */
  ghost predicate AllUsed(hex: nat -> string, p: nat, q: nat, used: set<string>) {
    forall k :: p <= k < q ==> Candidate(hex, k) in used
  }

  /** Successive draws that all hit a finite set are no more than its elements. */
  lemma {:induction false} DrawsAreBounded(hex: nat -> string, start: nat, n: nat, used: set<string>)
    requires start <= n && NonRepeating(hex, start, n - start)
    requires AllUsed(hex, start, n, used)
    ensures n - start <= |used|
    decreases n
  {
    if start == n {
    } else {
      var c := Candidate(hex, n - 1);
      forall k | start <= k < n - 1 ensures Candidate(hex, k) in used - {c} {
        CandidatesDiffer(hex, start, n - start, k, n - 1);
      }
      DrawsAreBounded(hex, start, n - 1, used - {c});
      assert used == used - {c} + {c};
    }
  }

  /** The candidates of draws `p` up to `q`. */
  ghost function Candidates(hex: nat -> string, p: nat, q: nat): set<string> {
    set k | p <= k < q :: Candidate(hex, k)
  }

  /** Draws `p` up to `q`, repeated or not, hold at least `n` ids that are not in use. */
  ghost predicate Enough(hex: nat -> string, p: nat, q: nat, used: set<string>, n: nat) {
    p <= q && |Candidates(hex, p, q) - used| >= n
  }

  /** From draw `p` on there will have been `n` ids that are not in use. */
  ghost predicate Plenty(hex: nat -> string, p: nat, used: set<string>, n: nat) {
    exists q :: Enough(hex, p, q, used, n)
  }

  /** A source that does not repeat itself meets an unused id within one draw more than there are in use. */
  lemma UnusedWithin(hex: nat -> string, p: nat, used: set<string>)
    requires NonRepeating(hex, p, |used| + 1)
    ensures exists k :: p <= k <= p + |used| && Candidate(hex, k) !in used
  {
    if AllUsed(hex, p, p + |used| + 1, used) {
      DrawsAreBounded(hex, p, p + |used| + 1, used);
      assert false;
    }
  }

  /** Draws that contain a repetition can do as well: x, x, y supplies two ids. */
  lemma RepetitionIsRetried(hex: nat -> string)
    requires hex(0) == hex(1) != hex(2)
    ensures Enough(hex, 0, 3, {}, 2) && !NonRepeating(hex, 0, 2)
  {
    assert Candidate(hex, 0)[5..] == hex(0) && Candidate(hex, 2)[5..] == hex(2);
    SmallerSet({Candidate(hex, 0), Candidate(hex, 2)}, Candidates(hex, 0, 3) - {});
  }

  lemma SmallerSet(a: set<string>, b: set<string>)
    requires a <= b
    ensures |a| <= |b|
  {
    assert b == a + (b - a);
  }

  /** As long as enough ids are to come and all drawn so far are in use, an unused one lies ahead. */
  lemma UnusedAhead(hex: nat -> string, p: nat, q: nat, used: set<string>, n: nat, next: nat)
    requires Enough(hex, p, q, used, n) && n > 0 && AllUsed(hex, p, next, used)
    ensures exists k :: next <= k < q && Candidate(hex, k) !in used
  {
    if Candidates(hex, p, q) - used == {} {
      assert false;
    }
    var c :| c in Candidates(hex, p, q) - used;
    var k :| p <= k < q && Candidate(hex, k) == c;
    assert next <= k;
  }

  /** Giving out one unused id leaves enough for one item fewer. */
  lemma EnoughForTheRest(hex: nat -> string, p: nat, q: nat, used: set<string>, n: nat, id: string)
    requires Enough(hex, p, q, used, n) && n > 0
    ensures Enough(hex, p, q, used + {id}, n - 1)
  {
    var left := Candidates(hex, p, q) - used;
    assert Candidates(hex, p, q) - (used + {id}) == left - {id};
  }

  lemma {:induction false} NonRepeatingCount(hex: nat -> string, p: nat, width: nat)
    requires NonRepeating(hex, p, width)
    ensures |Candidates(hex, p, p + width)| == width
  {
    hide Candidate;
    if width == 0 {
      assert Candidates(hex, p, p) == {};
    } else {
      NonRepeatingCount(hex, p, width - 1);
      OneMoreCandidate(hex, p, width);
    }
  }

  lemma OneMoreCandidate(hex: nat -> string, p: nat, width: nat)
    requires NonRepeating(hex, p, width) && width > 0
    ensures Candidate(hex, p + width - 1) !in Candidates(hex, p, p + width - 1)
    ensures Candidates(hex, p, p + width) == Candidates(hex, p, p + width - 1) + {Candidate(hex, p + width - 1)}
  {
    hide Candidate, NonRepeating;
    forall k | p <= k < p + width - 1 ensures Candidate(hex, k) != Candidate(hex, p + width - 1) {
      CandidatesDiffer(hex, p, width, k, p + width - 1);
    }
  }

  /** The generator of `generateBackupID`: a stream of hexadecimal strings and how many were drawn. */
  class IdSource {
    const hex: nat -> string
    var next: nat

    constructor (hex: nat -> string)
      ensures this.hex == hex && next == 0
    {
      this.hex := hex;
      next := 0;
    }

    method GenerateBackupID() returns (id: string)
      modifies this
      ensures next == old(next) + 1 && id == Candidate(hex, old(next))
    {
      id := Candidate(hex, next);
      next := next + 1;
    }

    /** `nextBackupID`: the first candidate not in use, provided there is one to come. */
    method NextBackupID(used: set<string>) returns (id: string, used': set<string>)
      requires exists k :: next <= k && Candidate(hex, k) !in used
      modifies this
      ensures id !in used && used' == used + {id}
      ensures old(next) < next && id == Candidate(hex, next - 1) && AllUsed(hex, old(next), next - 1, used)
      ensures NonRepeating(hex, old(next), |used| + 1) ==> next <= old(next) + |used| + 1
    {
      ghost var k :| next <= k && Candidate(hex, k) !in used;
      if NonRepeating(hex, next, |used| + 1) {
        UnusedWithin(hex, next, used);
      }
      while true
        invariant old(next) <= next <= k && AllUsed(hex, old(next), next, used)
        decreases k - next
      {
        var candidate := GenerateBackupID();
        if candidate in used {
          continue;
        }
        return candidate, used + {candidate};
      }
    }
  }

  // ---------------------------------------------------------------- defaults

  const PASSWORD := "password"
  const KEY := "key"

  /** The configuration object handlers and the scheduler pass around; `backups` is a slice, null for nil. */
  class AppConfig {
    var ssh: SSHConfig
    var backups: array?<BackupItem>

    constructor (ssh: SSHConfig, backups: array?<BackupItem>)
      ensures this.ssh == ssh && this.backups == backups
    {
      this.ssh, this.backups := ssh, backups;
    }

    function Items(): seq<BackupItem>
      reads this, backups
    {
      if backups == null then [] else backups[..]
    }
  }

  function DefaultedSSH(ssh: SSHConfig): SSHConfig {
    ssh.(port := if ssh.port == 0 then 22 else ssh.port,
         authMethod := if ssh.authMethod == "" then PASSWORD else ssh.authMethod)
  }

  function SuppliedIds(items: seq<BackupItem>): set<string> {
    IdsOf(items) - {""}
  }

  /** An item with its limits defaulted. */
  function WithLimits(x: BackupItem): BackupItem {
    x.(intervalMinutes := if x.intervalMinutes <= 0 then DEFAULT_INTERVAL_MIN else x.intervalMinutes,
       maxBackups := if x.maxBackups <= 0 then DEFAULT_MAX_BACKUPS else x.maxBackups)
  }

  /** What defaulting promises: limits filled in, supplied ids kept, and each missing id replaced by one
      that neither any supplied id nor any other item has. */
  ghost predicate Defaulted(before: seq<BackupItem>, after: seq<BackupItem>) {
    && |after| == |before|
    && (forall i :: 0 <= i < |before| ==> after[i] == WithLimits(before[i]).(id := after[i].id))
    && (forall i :: 0 <= i < |before| && before[i].id != "" ==> after[i].id == before[i].id)
    && (forall i :: 0 <= i < |before| && before[i].id == "" ==>
          after[i].id != "" && after[i].id !in SuppliedIds(before))
    && (forall i, j :: 0 <= i < |before| && 0 <= j < |before| && i != j && before[i].id == "" ==>
          after[i].id != after[j].id)
  }

  /** The missing ids of the first `n` items come from draws `p` up to `q`. */
  ghost predicate Drawn(
      before: seq<BackupItem>, after: seq<BackupItem>, n: nat, hex: nat -> string, p: nat, q: nat)
    requires |after| == |before| && n <= |before|
  {
    forall i :: 0 <= i < n && before[i].id == "" ==> exists k :: p <= k < q && after[i].id == Candidate(hex, k)
  }

  ghost predicate DistinctSupplied(items: seq<BackupItem>) {
    forall i, j :: 0 <= i < j < |items| && items[i].id != "" ==> items[i].id != items[j].id
  }

  /** Ids end up pairwise distinct exactly when the supplied ones were, and never empty. */
  lemma DefaultsMakeIdsUnique(before: seq<BackupItem>, after: seq<BackupItem>)
    requires Defaulted(before, after)
    ensures UniqueIds(after) <==> DistinctSupplied(before)
    ensures forall i :: 0 <= i < |after| ==>
              after[i].id != "" && after[i].intervalMinutes > 0 && after[i].maxBackups > 0
  {
    if UniqueIds(after) {
      forall i, j | 0 <= i < j < |before| && before[i].id != "" ensures before[i].id != before[j].id {
        assert after[i].id != after[j].id;
      }
    }
    if DistinctSupplied(before) {
      forall i, j | 0 <= i < j < |after| ensures after[i].id != after[j].id {
        assert before[i].id != "" && before[j].id != "" ==> before[i].id != before[j].id;
      }
    }
  }

  /** The default values: port 22 and password login; an hour between backups and twenty of them; and a
      generated id says what it names. */
  lemma DefaultValues(
      ssh: SSHConfig, before: seq<BackupItem>, after: seq<BackupItem>, hex: nat -> string, p: nat, q: nat, i: nat)
    requires Defaulted(before, after) && Drawn(before, after, |before|, hex, p, q) && i < |before|
    ensures DefaultedSSH(ssh).port == (if ssh.port == 0 then 22 else ssh.port)
    ensures DefaultedSSH(ssh).authMethod == (if ssh.authMethod == "" then "password" else ssh.authMethod)
    ensures DefaultedSSH(ssh).(port := ssh.port, authMethod := ssh.authMethod) == ssh
    ensures after[i].intervalMinutes == (if before[i].intervalMinutes <= 0 then 60 else before[i].intervalMinutes)
    ensures after[i].maxBackups == (if before[i].maxBackups <= 0 then 20 else before[i].maxBackups)
    ensures after[i].(id := before[i].id, intervalMinutes := before[i].intervalMinutes,
                      maxBackups := before[i].maxBackups) == before[i]
    ensures before[i].id == "" ==> exists k :: p <= k < q && after[i].id == "item-" + hex(k)
  {
    assert after[i] == WithLimits(before[i]).(id := after[i].id);
    if before[i].id == "" {
      var k :| p <= k < q && after[i].id == Candidate(hex, k);
      assert after[i].id == "item-" + hex(k);
    }
  }

  lemma SameLength(before: seq<BackupItem>, after: seq<BackupItem>)
    requires Defaulted(before, after)
    ensures |after| == |before|
  {
  }

  /** Defaulting a second time changes nothing. */
  lemma DefaultsAreIdempotent(before: seq<BackupItem>, once: seq<BackupItem>, twice: seq<BackupItem>)
    requires Defaulted(before, once) && Defaulted(once, twice)
    ensures twice == once
  {
    forall i | 0 <= i < |once| ensures twice[i] == once[i] {
      assert once[i] == WithLimits(before[i]).(id := once[i].id);
    }
  }

  /** A value defaulting would leave alone. */
  predicate Settled(ssh: SSHConfig, items: seq<BackupItem>) {
    && ssh.port != 0 && ssh.authMethod != ""
    && forall x :: x in items ==> x.id != "" && x.intervalMinutes > 0 && x.maxBackups > 0
  }

  lemma DefaultedIsSettled(ssh: SSHConfig, before: seq<BackupItem>, after: seq<BackupItem>)
    requires Defaulted(before, after)
    ensures Settled(DefaultedSSH(ssh), after)
  {
    forall x | x in after ensures x.id != "" && x.intervalMinutes > 0 && x.maxBackups > 0 {
      var i :| 0 <= i < |after| && after[i] == x;
      assert after[i] == WithLimits(before[i]).(id := after[i].id);
    }
  }

  lemma SettledIsFixed(ssh: SSHConfig, items: seq<BackupItem>, after: seq<BackupItem>)
    requires Settled(ssh, items) && Defaulted(items, after)
    ensures after == items && DefaultedSSH(ssh) == ssh
  {
    forall i | 0 <= i < |items| ensures after[i] == items[i] {
      assert items[i] in items;
    }
  }

  /** A file that lacks an id gets a different one each time it is read, unless the second reading draws
      again what the first has drawn. */
  lemma MissingIdsAreRegenerated(
      items: seq<BackupItem>, first: seq<BackupItem>, second: seq<BackupItem>,
      hex: nat -> string, p: nat, q: nat, r: nat, i: nat)
    requires |first| == |items| == |second| && Candidates(hex, p, q) !! Candidates(hex, q, r)
    requires Drawn(items, first, |items|, hex, p, q) && Drawn(items, second, |items|, hex, q, r)
    requires i < |items| && items[i].id == ""
    ensures first[i].id != second[i].id
  {
    var j :| p <= j < q && first[i].id == Candidate(hex, j);
    var k :| q <= k < r && second[i].id == Candidate(hex, k);
    assert first[i].id in Candidates(hex, p, q) && second[i].id in Candidates(hex, q, r);
  }

  /** Two successive loads of one file agree if and only if no item in it lacks an id. */
  lemma ReloadsAgreeExact(
      items: seq<BackupItem>, first: seq<BackupItem>, second: seq<BackupItem>,
      hex: nat -> string, p: nat, q: nat, r: nat)
    requires Defaulted(items, first) && Defaulted(items, second)
    requires Drawn(items, first, |items|, hex, p, q) && Drawn(items, second, |items|, hex, q, r)
    requires "" in IdsOf(items) ==> Candidates(hex, p, q) !! Candidates(hex, q, r)
    ensures first == second <==> "" !in IdsOf(items)
  {
    if i :| 0 <= i < |items| && items[i].id == "" {
      MissingIdsAreRegenerated(items, first, second, hex, p, q, r, i);
    } else {
      forall i | 0 <= i < |items| ensures first[i] == second[i] {
        assert first[i] == WithLimits(items[i]).(id := first[i].id);
        assert second[i] == WithLimits(items[i]).(id := second[i].id);
      }
    }
  }

  lemma NonRepeatingSeparates(hex: nat -> string, p: nat, q: nat, r: nat)
    requires p <= q <= r && NonRepeating(hex, p, r - p)
    ensures Candidates(hex, p, q) !! Candidates(hex, q, r)
  {
    forall j, k | p <= j < q <= k < r ensures Candidate(hex, j) != Candidate(hex, k) {
      CandidatesDiffer(hex, p, r - p, j, k);
    }
  }

  /** How many items lack an id. */
  function Lacking(items: seq<BackupItem>): nat {
    if items == [] then 0 else (if items[0].id == "" then 1 else 0) + Lacking(items[1..])
  }

  lemma {:induction false} NoneMissing(items: seq<BackupItem>)
    requires "" !in IdsOf(items)
    ensures Lacking(items) == 0
  {
    if items == [] {
    } else {
      forall i | 0 <= i < |items[1..]| ensures items[1..][i].id != "" {
        assert items[i + 1].id in IdsOf(items);
      }
      NoneMissing(items[1..]);
    }
  }

  /** A list that lacks no id needs nothing of the source. */
  lemma SuppliedIsPlenty(hex: nat -> string, p: nat, items: seq<BackupItem>)
    requires "" !in IdsOf(items)
    ensures Plenty(hex, p, SuppliedIds(items), Lacking(items))
  {
    NoneMissing(items);
    assert Enough(hex, p, p, SuppliedIds(items), 0);
  }

  lemma NothingIsPlenty(hex: nat -> string, p: nat)
    ensures Plenty(hex, p, SuppliedIds([]), Lacking([]))
  {
    SuppliedIsPlenty(hex, p, []);
  }

  /** As many draws without repetition as there are items are enough for them. */
  lemma NonRepeatingIsEnough(hex: nat -> string, p: nat, items: seq<BackupItem>)
    requires NonRepeating(hex, p, |items|)
    ensures Enough(hex, p, p + |items|, SuppliedIds(items), Lacking(items))
  {
    hide NonRepeating, Candidates, Candidate, SuppliedIds;
    NonRepeatingCount(hex, p, |items|);
    SuppliedBound(items);
    LeftOver(Candidates(hex, p, p + |items|), SuppliedIds(items));
  }

  lemma LeftOver(a: set<string>, b: set<string>)
    ensures |a - b| >= |a| - |b|
  {
    SmallerSet(a, (a - b) + b);
  }

  /** The ids given to the items from `i` on that lacked one. */
  function Given(before: seq<BackupItem>, after: seq<BackupItem>, i: nat): set<string>
    requires |after| == |before|
  {
    set j | i <= j < |before| && before[j].id == "" :: after[j].id
  }

  lemma {:induction false} GivenCount(before: seq<BackupItem>, after: seq<BackupItem>, i: nat)
    requires Defaulted(before, after) && i <= |before|
    ensures |Given(before, after, i)| == Lacking(before[i..])
    decreases |before| - i
  {
    if i == |before| {
      assert Given(before, after, i) == {};
    } else {
      var rest := Given(before, after, i + 1);
      GivenCount(before, after, i + 1);
      LackingAhead(before, i);
      if before[i].id == "" {
        assert Given(before, after, i) == rest + {after[i].id};
        assert after[i].id !in rest;
      } else {
        assert Given(before, after, i) == rest;
      }
    }
  }

  /** What defaulting asks of the source is no more than it needs: whatever draws it made held enough. */
  lemma EnoughIsNeeded(before: seq<BackupItem>, after: seq<BackupItem>, hex: nat -> string, p: nat, q: nat)
    requires Defaulted(before, after) && Drawn(before, after, |before|, hex, p, q) && p <= q
    ensures Enough(hex, p, q, SuppliedIds(before), Lacking(before))
  {
    GivenCount(before, after, 0);
    assert before[0..] == before;
    SmallerSet(Given(before, after, 0), Candidates(hex, p, q) - SuppliedIds(before));
  }

  /** The loop's view while defaulting: the first `n` items are done, `used` holds every id given out. */
  ghost predicate Progress(before: seq<BackupItem>, now: seq<BackupItem>, n: nat, used: set<string>) {
    && |now| == |before| && n <= |before|
    && SuppliedIds(before) <= used && (forall i :: 0 <= i < n ==> now[i].id in used)
    && (forall i :: 0 <= i < n ==> now[i] == WithLimits(before[i]).(id := now[i].id))
    && (forall i :: n <= i < |before| ==> now[i] == before[i])
    && (forall i :: 0 <= i < n && before[i].id != "" ==> now[i].id == before[i].id)
    && (forall i :: 0 <= i < n && before[i].id == "" ==> now[i].id != "" && now[i].id !in SuppliedIds(before))
    && (forall i, j :: 0 <= i < n && 0 <= j < n && i != j && before[i].id == "" ==> now[i].id != now[j].id)
  }

  lemma ProgressStep(before: seq<BackupItem>, now: seq<BackupItem>, n: nat, used: set<string>, id: string)
    requires Progress(before, now, n, used) && n < |before|
    requires if before[n].id == "" then id != "" && id !in used else id == before[n].id
    ensures Progress(before, now[n := WithLimits(before[n]).(id := id)], n + 1, used + {id})
  {
    var after := now[n := WithLimits(before[n]).(id := id)];
    assert before[n].id != "" ==> before[n].id in SuppliedIds(before);
    forall i, j | 0 <= i < n + 1 && 0 <= j < n + 1 && i != j && before[i].id == ""
      ensures after[i].id != after[j].id
    {
      if i < n && j < n { assert now[i].id != now[j].id; }
    }
  }

  lemma ProgressDone(before: seq<BackupItem>, now: seq<BackupItem>, used: set<string>)
    requires Progress(before, now, |before|, used)
    ensures Defaulted(before, now)
  {
  }

  /** `applyDefaults`, writing through the configuration into its slice. */
  method ApplyDefaults(cfg: AppConfig, src: IdSource)
    requires Plenty(src.hex, src.next, SuppliedIds(cfg.Items()), Lacking(cfg.Items()))
    modifies cfg, src, if cfg.backups != null then {cfg.backups} else {}
    ensures cfg.ssh == DefaultedSSH(old(cfg.ssh))
    ensures cfg.backups != null && (old(cfg.backups) != null ==> cfg.backups == old(cfg.backups))
    ensures old(cfg.backups) == null ==> fresh(cfg.backups)
    ensures Defaulted(old(cfg.Items()), cfg.Items())
    ensures Drawn(old(cfg.Items()), cfg.Items(), |cfg.Items()|, src.hex, old(src.next), src.next)
    ensures old(src.next) <= src.next
    ensures DrawsOnly(src.hex, old(src.next), src.next, old(cfg.Items()))
  {
    hide Plenty, DrawsOnly, Drawn, Defaulted, SuppliedIds;
    ghost var before := cfg.Items();
    if cfg.ssh.port == 0 {
      cfg.ssh := cfg.ssh.(port := 22);
    }
    if cfg.ssh.authMethod == "" {
      cfg.ssh := cfg.ssh.(authMethod := PASSWORD);
    }
    if cfg.backups == null {
      cfg.backups := new BackupItem[0];
    }
    var backups := cfg.backups;
    assert backups[..] == before;

    var usedIDs := CollectIDs(backups);
    FillItems(backups, usedIDs, src);
    assert cfg.Items() == backups[..];
  }

  /** The first loop: every id supplied. */
  method CollectIDs(backups: array<BackupItem>) returns (usedIDs: set<string>)
    ensures usedIDs == SuppliedIds(backups[..])
  {
    usedIDs := {};
    for i := 0 to backups.Length
      invariant usedIDs == SuppliedIds(backups[..][..i])
    {
      SuppliedStep(backups[..], i);
      if backups[i].id == "" {
        continue;
      }
      usedIDs := usedIDs + {backups[i].id};
    }
    assert backups[..][..backups.Length] == backups[..];
  }

  /** The second loop. */
  method FillItems(backups: array<BackupItem>, supplied: set<string>, src: IdSource)
    requires supplied == SuppliedIds(backups[..])
    requires Plenty(src.hex, src.next, supplied, Lacking(backups[..]))
    modifies backups, src
    ensures Defaulted(old(backups[..]), backups[..])
    ensures Drawn(old(backups[..]), backups[..], backups.Length, src.hex, old(src.next), src.next)
    ensures old(src.next) <= src.next
    ensures DrawsOnly(src.hex, old(src.next), src.next, old(backups[..]))
  {
    hide Progress, Drawn, Candidate, AllUsed, IdsOf, Enough, SuppliedIds;
    ghost var before, start, all := backups[..], src.next, Lacking(backups[..]);
    var usedIDs := supplied;
    StartOfProgress(before, src.hex, start, supplied);
    HoldingStart(src.hex, start, supplied, all);
    assert before[0..] == before;
    for i := 0 to backups.Length
      invariant Progress(before, backups[..], i, usedIDs)
      invariant Drawn(before, backups[..], i, src.hex, start, src.next)
      invariant start <= src.next && AllUsed(src.hex, start, src.next, usedIDs)
      invariant Holding(src.hex, start, src.next, supplied, all, usedIDs, Lacking(before[i..]))
    {
      ghost var now, used, drawn := backups[..], usedIDs, src.next;
      ItemAhead(before, now, i, used);
      LackingAhead(before, i);
      if before[i].id == "" {
        HoldingHasUnused(src.hex, start, src.next, supplied, all, used, Lacking(before[i..]));
      }
      usedIDs := FillItem(backups, i, usedIDs, src, start);
      if before[i].id == "" {
        HoldingStep(src.hex, start, drawn, src.next, supplied, all, used, Lacking(before[i..]));
      }
      assert before[i].id != "" ==> usedIDs == used;
      ProgressStep(before, now, i, used, backups[i].id);
      DrawnStep(before, now, i, backups[i], src.hex, start, drawn, src.next);
    }
    ProgressDone(before, backups[..], usedIDs);
    HoldingDone(src.hex, start, src.next, before, usedIDs);
  }

  /** The draws made are no more than any number of draws that is enough for the items. In particular there
      are none if no id is missing, and at most as many as items if the source does not repeat itself. */
  ghost predicate DrawsOnly(hex: nat -> string, p: nat, next: nat, items: seq<BackupItem>) {
    && (forall q :: Enough(hex, p, q, SuppliedIds(items), Lacking(items)) ==> next <= q)
    && ("" !in IdsOf(items) ==> next <= p)
    && (NonRepeating(hex, p, |items|) ==> next <= p + |items|)
  }

  lemma SettledDrawsNothing(ssh: SSHConfig, items: seq<BackupItem>, hex: nat -> string, p: nat, next: nat)
    requires Settled(ssh, items) && DrawsOnly(hex, p, next, items) && p <= next
    ensures next == p
  {
    hide Enough, NonRepeating;
    assert forall i :: 0 <= i < |items| ==> items[i] in items;
  }

  /** The loop's view of the source: some number of draws is enough for what was missing at first, and each
      such number has not been passed and is still enough for what is missing now. */
  ghost predicate Holding(
      hex: nat -> string, p: nat, next: nat, supplied: set<string>, all: nat, used: set<string>, n: nat)
  {
    && Plenty(hex, p, supplied, all)
    && forall q :: Enough(hex, p, q, supplied, all) ==> next <= q && Enough(hex, p, q, used, n)
  }

  lemma HoldingStart(hex: nat -> string, p: nat, supplied: set<string>, all: nat)
    requires Plenty(hex, p, supplied, all)
    ensures Holding(hex, p, p, supplied, all, supplied, all)
  {
  }

  lemma HoldingHasUnused(
      hex: nat -> string, p: nat, next: nat, supplied: set<string>, all: nat, used: set<string>, n: nat)
    requires Holding(hex, p, next, supplied, all, used, n) && n > 0 && AllUsed(hex, p, next, used)
    ensures exists k :: next <= k && Candidate(hex, k) !in used
  {
    hide Enough, AllUsed, Candidate;
    var q :| Enough(hex, p, q, supplied, all);
    UnusedAhead(hex, p, q, used, n, next);
  }

  lemma HoldingStep(
      hex: nat -> string, p: nat, next: nat, next': nat, supplied: set<string>, all: nat, used: set<string>, n: nat)
    requires Holding(hex, p, next, supplied, all, used, n) && n > 0 && p <= next < next'
    requires AllUsed(hex, p, next' - 1, used)
    ensures Holding(hex, p, next', supplied, all, used + {Candidate(hex, next' - 1)}, n - 1)
  {
    hide Enough, AllUsed, Candidate;
    forall q | Enough(hex, p, q, supplied, all)
      ensures next' <= q && Enough(hex, p, q, used + {Candidate(hex, next' - 1)}, n - 1)
    {
      UnusedAhead(hex, p, q, used, n, next' - 1);
      EnoughForTheRest(hex, p, q, used, n, Candidate(hex, next' - 1));
    }
  }

  lemma HoldingDone(hex: nat -> string, p: nat, next: nat, items: seq<BackupItem>, used: set<string>)
    requires Holding(hex, p, next, SuppliedIds(items), Lacking(items), used, 0)
    ensures DrawsOnly(hex, p, next, items)
  {
    if "" !in IdsOf(items) {
      NoneMissing(items);
      assert Enough(hex, p, p, SuppliedIds(items), Lacking(items));
    }
    if NonRepeating(hex, p, |items|) {
      NonRepeatingIsEnough(hex, p, items);
    }
  }

  /** The body of the second loop. */
  method FillItem(backups: array<BackupItem>, i: nat, used: set<string>, src: IdSource, ghost start: nat)
    returns (used': set<string>)
    requires i < backups.Length && start <= src.next && AllUsed(src.hex, start, src.next, used)
    requires backups[i].id != "" ==> backups[i].id in used
    requires backups[i].id == "" ==> exists k :: src.next <= k && Candidate(src.hex, k) !in used
    modifies backups, src
    ensures backups[..] == old(backups[..])[i := WithLimits(old(backups[i])).(id := backups[i].id)]
    ensures used' == used + {backups[i].id} && old(src.next) <= src.next
    ensures AllUsed(src.hex, start, src.next, used')
    ensures old(backups[i]).id != "" ==> backups[i].id == old(backups[i]).id && src.next == old(src.next)
    ensures old(backups[i]).id == "" ==>
              && old(src.next) < src.next && AllUsed(src.hex, start, src.next - 1, used)
              && backups[i].id != "" && backups[i].id !in used && backups[i].id == Candidate(src.hex, src.next - 1)
  {
    used' := used;
    if backups[i].id == "" {
      var id;
      id, used' := src.NextBackupID(used);
      backups[i] := backups[i].(id := id);
    }
    if backups[i].intervalMinutes <= 0 {
      backups[i] := backups[i].(intervalMinutes := DEFAULT_INTERVAL_MIN);
    }
    if backups[i].maxBackups <= 0 {
      backups[i] := backups[i].(maxBackups := DEFAULT_MAX_BACKUPS);
    }
  }

  lemma StartOfProgress(before: seq<BackupItem>, hex: nat -> string, p: nat, supplied: set<string>)
    requires supplied == SuppliedIds(before)
    ensures AllUsed(hex, p, p, supplied)
    ensures Progress(before, before, 0, supplied) && Drawn(before, before, 0, hex, p, p)
  {
  }

  lemma ItemAhead(before: seq<BackupItem>, now: seq<BackupItem>, i: nat, used: set<string>)
    requires Progress(before, now, i, used) && i < |before|
    ensures |now| == |before| && now[i] == before[i] && (before[i].id != "" ==> before[i].id in used)
    ensures before[i].id in IdsOf(before)
  {
    assert before[i].id != "" ==> before[i].id in SuppliedIds(before);
  }

  lemma {:induction false} SuppliedBound(items: seq<BackupItem>)
    ensures |SuppliedIds(items)| + Lacking(items) <= |items|
  {
    if items == [] {
      assert SuppliedIds(items) == {};
    } else {
      var x, rest := items[0], items[1..];
      SuppliedBound(rest);
      forall id | id in SuppliedIds(items) && id != x.id ensures id in SuppliedIds(rest) {
        var i :| 0 <= i < |items| && items[i].id == id;
        assert rest[i - 1].id == id;
      }
      if x.id == "" {
        SmallerSet(SuppliedIds(items), SuppliedIds(rest));
      } else {
        SmallerSet(SuppliedIds(items), SuppliedIds(rest) + {x.id});
      }
    }
  }

  /** While the `i`-th item is still to do, there is room for its id. */
  lemma LackingAhead(items: seq<BackupItem>, i: nat)
    requires i < |items|
    ensures Lacking(items[i..]) == (if items[i].id == "" then 1 else 0) + Lacking(items[i + 1..])
  {
    assert items[i..][1..] == items[i + 1..];
  }

  lemma SuppliedStep(items: seq<BackupItem>, i: nat)
    requires i < |items|
    ensures SuppliedIds(items[..i + 1]) == SuppliedIds(items[..i]) + (if items[i].id == "" then {} else {items[i].id})
  {
    AddId(items, i);
  }

  lemma DrawnStep(
      before: seq<BackupItem>, now: seq<BackupItem>, n: nat, x: BackupItem,
      hex: nat -> string, p: nat, q: nat, r: nat)
    requires |now| == |before| && n < |before| && p <= q <= r && Drawn(before, now, n, hex, p, q)
    requires before[n].id == "" ==> q < r && x.id == Candidate(hex, r - 1)
    ensures Drawn(before, now[n := x], n + 1, hex, p, r)
  {
    var after := now[n := x];
    forall i | 0 <= i < n + 1 && before[i].id == "" ensures exists k :: p <= k < r && after[i].id == Candidate(hex, k) {
      if i < n {
        var k :| p <= k < q && now[i].id == Candidate(hex, k);
        assert p <= k < r && after[i].id == Candidate(hex, k);
      } else {
        assert p <= r - 1 < r && after[i].id == Candidate(hex, r - 1);
      }
    }
  }

  // ---------------------------------------------------------------- validation

  datatype ConfigError =
    | HostRequired | UsernameRequired | BadPort | PasswordRequired | KeyRequired | BadAuthMethod
    | IdRequired(index: nat) | IdNotUnique(index: nat) | ContainerNameRequired(index: nat)
    | ContainerPathRequired(index: nat) | BadInterval(index: nat) | BadMaxBackups(index: nat)

  function SSHError(ssh: SSHConfig): Option<ConfigError> {
    if ssh.host == "" then Some(HostRequired)
    else if ssh.username == "" then Some(UsernameRequired)
    else if ssh.port <= 0 then Some(BadPort)
    else if ssh.authMethod == PASSWORD then (if ssh.password == "" then Some(PasswordRequired) else None)
    else if ssh.authMethod == KEY then
      (if ssh.privateKeyPath == "" && ssh.privateKeyValue == "" then Some(KeyRequired) else None)
    else Some(BadAuthMethod)
  }

  function ItemError(items: seq<BackupItem>, i: nat): Option<ConfigError>
    requires i < |items|
  {
    var x := items[i];
    if x.id == "" then Some(IdRequired(i))
    else if x.id in IdsOf(items[..i]) then Some(IdNotUnique(i))
    else if x.containerName == "" then Some(ContainerNameRequired(i))
    else if x.containerPath == "" then Some(ContainerPathRequired(i))
    else if x.intervalMinutes <= 0 then Some(BadInterval(i))
    else if x.maxBackups <= 0 then Some(BadMaxBackups(i))
    else None
  }

  function FirstItemError(items: seq<BackupItem>, i: nat): Option<ConfigError>
    requires i <= |items|
    decreases |items| - i
  {
    if i == |items| then None
    else if ItemError(items, i).Some? then ItemError(items, i)
    else FirstItemError(items, i + 1)
  }

  function FirstError(ssh: SSHConfig, items: seq<BackupItem>): Option<ConfigError> {
    if SSHError(ssh).Some? then SSHError(ssh) else FirstItemError(items, 0)
  }

  /** `validate`: the first thing wrong, if anything is. */
  method Validate(ssh: SSHConfig, items: seq<BackupItem>) returns (error: Option<ConfigError>)
    ensures error == FirstError(ssh, items)
  {
    if ssh.host == "" {
      return Some(HostRequired);
    }
    if ssh.username == "" {
      return Some(UsernameRequired);
    }
    if ssh.port <= 0 {
      return Some(BadPort);
    }
    if ssh.authMethod == PASSWORD {
      if ssh.password == "" {
        return Some(PasswordRequired);
      }
    } else if ssh.authMethod == KEY {
      if ssh.privateKeyPath == "" && ssh.privateKeyValue == "" {
        return Some(KeyRequired);
      }
    } else {
      return Some(BadAuthMethod);
    }
    var seenIDs := {};
    for i := 0 to |items|
      invariant seenIDs == IdsOf(items[..i])
      invariant FirstItemError(items, 0) == FirstItemError(items, i)
    {
      var item := items[i];
      if item.id == "" {
        return Some(IdRequired(i));
      }
      if item.id in seenIDs {
        return Some(IdNotUnique(i));
      }
      AddId(items, i);
      seenIDs := seenIDs + {item.id};
      if item.containerName == "" {
        return Some(ContainerNameRequired(i));
      }
      if item.containerPath == "" {
        return Some(ContainerPathRequired(i));
      }
      if item.intervalMinutes <= 0 {
        return Some(BadInterval(i));
      }
      if item.maxBackups <= 0 {
        return Some(BadMaxBackups(i));
      }
    }
    return None;
  }

  /** A usable connection, stated without the order of the checks. */
  predicate ValidSSH(ssh: SSHConfig) {
    && ssh.host != "" && ssh.username != "" && ssh.port > 0
    && ((ssh.authMethod == PASSWORD && ssh.password != "") ||
        (ssh.authMethod == KEY && (ssh.privateKeyPath != "" || ssh.privateKeyValue != "")))
  }

  predicate ValidItem(x: BackupItem) {
    x.id != "" && x.containerName != "" && x.containerPath != "" && x.intervalMinutes > 0 && x.maxBackups > 0
  }

  lemma {:induction false} ItemsFrom(items: seq<BackupItem>, i: nat)
    requires i <= |items|
    ensures FirstItemError(items, i).None? <==>
            forall j :: i <= j < |items| ==> ValidItem(items[j]) && items[j].id !in IdsOf(items[..j])
    decreases |items| - i
  {
    if i == |items| {
    } else {
      ItemsFrom(items, i + 1);
    }
  }

  lemma NotSeenIsUnique(items: seq<BackupItem>)
    ensures UniqueIds(items) <==> forall j :: 0 <= j < |items| ==> items[j].id !in IdsOf(items[..j])
  {
    if UniqueIds(items) {
      forall j | 0 <= j < |items| ensures items[j].id !in IdsOf(items[..j]) {
        forall i | 0 <= i < j ensures items[..j][i].id != items[j].id {
          UniqueAt(items, i, j);
        }
      }
    }
    if forall j :: 0 <= j < |items| ==> items[j].id !in IdsOf(items[..j]) {
      forall i, j | 0 <= i < j < |items| ensures items[i].id != items[j].id {
        assert items[..j][i].id == items[i].id;
      }
    }
  }

  /** Validation passes exactly the configurations that are valid as a whole. */
  lemma ValidationExact(ssh: SSHConfig, items: seq<BackupItem>)
    ensures FirstError(ssh, items).None? <==>
            ValidSSH(ssh) && UniqueIds(items) && forall x :: x in items ==> ValidItem(x)
  {
    ItemsFrom(items, 0);
    NotSeenIsUnique(items);
    assert (forall x :: x in items ==> ValidItem(x)) <==> forall j :: 0 <= j < |items| ==> ValidItem(items[j]);
  }

  /** Which check on the connection fails first, one by one. */
  lemma SSHErrorExact(ssh: SSHConfig)
    ensures var e := SSHError(ssh);
      var named := ssh.host != "" && ssh.username != "";
      && (e == Some(HostRequired) <==> ssh.host == "")
      && (e == Some(UsernameRequired) <==> ssh.host != "" && ssh.username == "")
      && (e == Some(BadPort) <==> named && ssh.port <= 0)
      && (e == Some(PasswordRequired) <==> named && ssh.port > 0 && ssh.authMethod == "password" && ssh.password == "")
      && (e == Some(KeyRequired) <==>
            named && ssh.port > 0 && ssh.authMethod == "key" && ssh.privateKeyPath == "" && ssh.privateKeyValue == "")
      && (e == Some(BadAuthMethod) <==>
            named && ssh.port > 0 && ssh.authMethod != "password" && ssh.authMethod != "key")
  {
  }

  /** Which check on an item fails first, one by one. */
  lemma ItemErrorExact(items: seq<BackupItem>, i: nat)
    requires i < |items|
    ensures var e, x := ItemError(items, i), items[i];
      var unseen := x.id != "" && forall j :: 0 <= j < i ==> items[j].id != x.id;
      var placed := x.containerName != "" && x.containerPath != "";
      && (e == Some(IdRequired(i)) <==> x.id == "")
      && (e == Some(IdNotUnique(i)) <==> x.id != "" && exists j :: 0 <= j < i && items[j].id == x.id)
      && (e == Some(ContainerNameRequired(i)) <==> unseen && x.containerName == "")
      && (e == Some(ContainerPathRequired(i)) <==> unseen && x.containerName != "" && x.containerPath == "")
      && (e == Some(BadInterval(i)) <==> unseen && placed && x.intervalMinutes <= 0)
      && (e == Some(BadMaxBackups(i)) <==> unseen && placed && x.intervalMinutes > 0 && x.maxBackups <= 0)
      && (e == None <==> unseen && placed && x.intervalMinutes > 0 && x.maxBackups > 0)
  {
    var seen := items[..i];
    forall j | 0 <= j < i ensures items[j].id in IdsOf(seen) {
      assert seen[j].id == items[j].id;
    }
    if items[i].id in IdsOf(seen) {
      var j :| 0 <= j < i && seen[j].id == items[i].id;
      assert items[j].id == items[i].id;
    }
  }

  lemma {:induction false} FirstItemErrorExact(items: seq<BackupItem>, i: nat)
    requires i <= |items|
    ensures var e := FirstItemError(items, i);
      && (e.None? <==> forall k :: i <= k < |items| ==> ItemError(items, k).None?)
      && (e.Some? ==> exists k ::
            i <= k < |items| && e == ItemError(items, k) && forall j :: i <= j < k ==> ItemError(items, j).None?)
    decreases |items| - i
  {
    hide ItemError;
    if i == |items| {
    } else {
      FirstItemErrorExact(items, i + 1);
      if ItemError(items, i).None? && FirstItemError(items, i + 1).Some? {
        var k :| i + 1 <= k < |items| && FirstItemError(items, i + 1) == ItemError(items, k) &&
          forall j :: i + 1 <= j < k ==> ItemError(items, j).None?;
        assert forall j :: i <= j < k ==> ItemError(items, j).None?;
      }
    }
  }

  /** The error reported: the connection's first, and otherwise the first one of the first item that has one. */
  lemma FirstErrorExact(ssh: SSHConfig, items: seq<BackupItem>)
    ensures var e := FirstError(ssh, items);
      && (SSHError(ssh).Some? ==> e == SSHError(ssh))
      && (SSHError(ssh).None? ==>
            && (e.None? <==> forall k :: 0 <= k < |items| ==> ItemError(items, k).None?)
            && (e.Some? ==> exists k ::
                  0 <= k < |items| && e == ItemError(items, k) && forall j :: 0 <= j < k ==> ItemError(items, j).None?))
  {
    hide ItemError, SSHError;
    FirstItemErrorExact(items, 0);
  }

  // ---------------------------------------------------------------- what Save accepts

  /** What a caller must supply for `Save` to accept a configuration. */
  predicate AcceptableSSH(ssh: SSHConfig) {
    && ssh.host != "" && ssh.username != "" && ssh.port >= 0
    && (((ssh.authMethod == "" || ssh.authMethod == PASSWORD) && ssh.password != "") ||
        (ssh.authMethod == KEY && (ssh.privateKeyPath != "" || ssh.privateKeyValue != "")))
  }

  ghost predicate Acceptable(ssh: SSHConfig, items: seq<BackupItem>) {
    && AcceptableSSH(ssh) && DistinctSupplied(items)
    && forall x :: x in items ==> x.containerName != "" && x.containerPath != ""
  }

  /** After defaulting, validation asks exactly that of the input. */
  lemma AcceptableExact(ssh: SSHConfig, before: seq<BackupItem>, after: seq<BackupItem>)
    requires Defaulted(before, after)
    ensures FirstError(DefaultedSSH(ssh), after).None? <==> Acceptable(ssh, before)
  {
    ValidationExact(DefaultedSSH(ssh), after);
    DefaultsMakeIdsUnique(before, after);
    assert ValidSSH(DefaultedSSH(ssh)) <==> AcceptableSSH(ssh);
    assert (forall x :: x in after ==> ValidItem(x)) <==> forall i :: 0 <= i < |after| ==> ValidItem(after[i]);
    assert (forall x :: x in before ==> x.containerName != "" && x.containerPath != "") <==>
           forall i :: 0 <= i < |before| ==> before[i].containerName != "" && before[i].containerPath != "";
    forall i | 0 <= i < |before|
      ensures ValidItem(after[i]) <==> before[i].containerName != "" && before[i].containerPath != ""
    {
      assert after[i] == WithLimits(before[i]).(id := after[i].id);
    }
  }

  lemma {:induction false} ItemErrorKinds(items: seq<BackupItem>, i: nat)
    requires i <= |items| && forall x :: x in items ==> x.id != "" && x.intervalMinutes > 0 && x.maxBackups > 0
    ensures var e := FirstItemError(items, i);
      e.Some? ==> e.value.IdNotUnique? || e.value.ContainerNameRequired? || e.value.ContainerPathRequired?
    decreases |items| - i
  {
    if i == |items| {
    } else {
      assert items[i] in items;
      ItemErrorKinds(items, i + 1);
    }
  }

  /** The checks for a missing id, a bad interval and a bad limit can never fire on a defaulted input. */
  lemma UnreachableChecks(ssh: SSHConfig, before: seq<BackupItem>, after: seq<BackupItem>)
    requires Defaulted(before, after)
    ensures var e := FirstError(DefaultedSSH(ssh), after);
      e.Some? ==> !e.value.IdRequired? && !e.value.BadInterval? && !e.value.BadMaxBackups?
  {
    DefaultedIsSettled(ssh, before, after);
    ItemErrorKinds(after, 0);
  }

  // ---------------------------------------------------------------- the store

  datatype ConfigValue = ConfigValue(ssh: SSHConfig, backups: Option<seq<BackupItem>>)

  /** A missing or null list counts as empty. */
  function ItemsIn(v: ConfigValue): seq<BackupItem> {
    if v.backups.Some? then v.backups.value else []
  }

  /** What the configuration path holds. `Holds` stands for text that decodes to the value. */
  datatype Stored = Missing | Unreadable | Empty | Garbled | Holds(value: ConfigValue)

  datatype LoadError = ReadFailed | DecodeFailed

  datatype SaveError = Invalid(error: ConfigError) | DirectoryFailed | WriteFailed

  const DEFAULT_SSH := SSHConfig("", 22, "", PASSWORD, "", "", "")

  /** What a successful `Save` has written: the defaulted input, valid. */
  ghost predicate Kept(v: ConfigValue, ssh: SSHConfig, before: seq<BackupItem>)
    requires v.backups.Some?
  {
    && v.ssh == DefaultedSSH(ssh) && Defaulted(before, v.backups.value)
    && FirstError(v.ssh, v.backups.value).None?
  }

  type Loaded = Result<(SSHConfig, seq<BackupItem>), LoadError>

  class Store {
    var file: Stored

    constructor (file: Stored)
      ensures this.file == file
    {
      this.file := file;
    }

    /** `Load`: a value that defaulting would not change comes back as it is, drawing no id. */
    method Load(src: IdSource) returns (r: Loaded)
      requires file.Holds? ==>
                 Plenty(src.hex, src.next, SuppliedIds(ItemsIn(file.value)), Lacking(ItemsIn(file.value)))
      modifies src
      ensures file == old(file) && old(src.next) <= src.next
      ensures file.Missing? || file.Empty? ==> r == Ok((SSHConfig("", 22, "", "password", "", "", ""), []))
      ensures file.Unreadable? ==> r == Err(ReadFailed)
      ensures file.Garbled? ==> r == Err(DecodeFailed)
      ensures file.Holds? ==>
                var items := ItemsIn(file.value);
                && r.Ok? && r.value.0 == DefaultedSSH(file.value.ssh) && Defaulted(items, r.value.1)
                && Drawn(items, r.value.1, |items|, src.hex, old(src.next), src.next)
                && DrawsOnly(src.hex, old(src.next), src.next, items)
                && (Settled(file.value.ssh, items) ==> r == Ok((file.value.ssh, items)) && src.next == old(src.next))
    {
      hide Plenty, DrawsOnly, Drawn, SuppliedIds, IdsOf;
      match file
      case Missing => return Ok((DEFAULT_SSH, []));
      case Empty => return Ok((DEFAULT_SSH, []));
      case Unreadable => return Err(ReadFailed);
      case Garbled => return Err(DecodeFailed);
      case Holds(v) =>
        var backups: array?<BackupItem> := null;
        var items := ItemsIn(v);
        if v.backups.Some? {
          backups := new BackupItem[|items|](i requires 0 <= i < |items| => items[i]);
        }
        var cfg := new AppConfig(v.ssh, backups);
        assert cfg.Items() == items;
        ApplyDefaults(cfg, src);
        if Settled(v.ssh, items) {
          SettledIsFixed(v.ssh, items, cfg.Items());
          SettledDrawsNothing(v.ssh, items, src.hex, old(src.next), src.next);
        }
        return Ok((cfg.ssh, cfg.backups[..]));
    }

    /** `Save`: succeeds exactly on acceptable input when the file can be written, stores the defaulted
        value, and writes the defaults through into the caller's slice either way. */
    method Save(ssh: SSHConfig, backups: array?<BackupItem>, src: IdSource, mkdirOk: bool, write: Option<Stored>)
      returns (r: Option<SaveError>)
      requires backups != null ==> Plenty(src.hex, src.next, SuppliedIds(backups[..]), Lacking(backups[..]))
      modifies this, src, if backups != null then {backups} else {}
      ensures var before := old(if backups == null then [] else backups[..]);
        && (r.None? <==> Acceptable(ssh, before) && mkdirOk && write.None?)
        && (backups != null ==> Defaulted(before, backups[..]))
        && (r.None? ==> file.Holds? && file.value.backups.Some? && Kept(file.value, ssh, before))
        && (r.None? ==> file.value.ssh == DefaultedSSH(ssh) && Defaulted(before, file.value.backups.value))
        && (r.None? && backups != null ==> file.value.backups.value == backups[..])
        && (r.Some? && r != Some(WriteFailed) ==> file == old(file))
        && (r == Some(WriteFailed) ==> write == Some(file))
        && (r.Some? && r.value.Invalid? <==> !Acceptable(ssh, before))
        && (r == Some(DirectoryFailed) <==> Acceptable(ssh, before) && !mkdirOk)
        && (r == Some(WriteFailed) <==> Acceptable(ssh, before) && mkdirOk && write.Some?)
        && (r.Some? && r.value.Invalid? ==>
              FirstError(DefaultedSSH(ssh), if backups == null then [] else backups[..]) == Some(r.value.error))
    {
      hide Plenty, DrawsOnly, Drawn, Defaulted, SuppliedIds, IdsOf, Acceptable, FirstError;
      ghost var before := if backups == null then [] else backups[..];
      var cfg := new AppConfig(ssh, backups);
      assert cfg.Items() == before;
      if backups == null { NothingIsPlenty(src.hex, src.next); }
      ApplyDefaults(cfg, src);
      ghost var after := cfg.Items();
      AcceptableExact(ssh, before, after);
      DefaultedIsSettled(ssh, before, after);
      DefaultsMakeIdsUnique(before, after);
      SameLength(before, after);
      assert after == if backups == null then [] else backups[..];
      var error := Validate(cfg.ssh, cfg.backups[..]);
      if error.Some? {
        return Some(Invalid(error.value));
      }
      if !mkdirOk {
        return Some(DirectoryFailed);
      }
      if write.Some? {
        file := write.value;
        return Some(WriteFailed);
      }
      file := Holds(ConfigValue(cfg.ssh, Some(cfg.backups[..])));
      return None;
    }
  }

  // ---------------------------------------------------------------- looking items up

  /** The first item with the id. */
  function ItemByID(items: seq<BackupItem>, id: string): Option<BackupItem> {
    if items == [] then None
    else if items[0].id == id then Some(items[0])
    else ItemByID(items[1..], id)
  }

  lemma {:induction false} ItemByIDFinds(items: seq<BackupItem>, id: string)
    ensures ItemByID(items, id).None? <==> id !in IdsOf(items)
  {
    if items == [] {
    } else {
      ItemByIDFinds(items[1..], id);
      IdsOfTail(items);
    }
  }

  lemma IdsOfTail(items: seq<BackupItem>)
    requires items != []
    ensures IdsOf(items) == {items[0].id} + IdsOf(items[1..])
  {
    forall id | id in IdsOf(items[1..]) ensures id in IdsOf(items) {
      var i :| 0 <= i < |items[1..]| && items[1..][i].id == id;
      assert items[i + 1].id == id;
    }
    forall id | id in IdsOf(items) ensures id in {items[0].id} + IdsOf(items[1..]) {
      var i :| 0 <= i < |items| && items[i].id == id;
      if i > 0 { assert items[1..][i - 1].id == id; }
    }
  }

  /** `findItemByID`: the first item with the id; with unique ids, the only one. */
  method FindItemByID(items: seq<BackupItem>, id: string) returns (r: Option<BackupItem>)
    ensures r == ItemByID(items, id)
    ensures r.None? <==> id !in IdsOf(items)
    ensures r.Some? ==>
              exists i :: 0 <= i < |items| && items[i] == r.value && r.value.id == id && id !in IdsOf(items[..i])
    ensures r.Some? && UniqueIds(items) ==> forall x :: x in items && x.id == id ==> x == r.value
  {
    for i := 0 to |items|
      invariant id !in IdsOf(items[..i]) && ItemByID(items, id) == ItemByID(items[i..], id)
    {
      AddId(items, i);
      assert items[i..][1..] == items[i + 1..];
      if items[i].id != id {
        continue;
      }
      if UniqueIds(items) {
        forall x | x in items && x.id == id ensures x == items[i] {
          var j :| 0 <= j < |items| && items[j] == x;
          UniqueAt(items, i, j);
        }
      }
      return Some(items[i]);
    }
    assert items[..|items|] == items;
    return None;
  }
}
