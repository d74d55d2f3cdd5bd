/** One item's backup directory as a value: which archive counts as the latest, what a listing shows
    and in which order, and what pruning removes. */
module Directory {
  import opened Strings
  import opened Domain
  import opened Naming

  /** What is being backed up; an archive carries the payload it was made from. */
  datatype Payload = Payload(isDir: bool, content: seq<nat>)

  datatype Entry = File(modTime: int, payload: Payload) | Folder

  type Dir = map<string, Entry>

  const LAST_HASH_FILE := ".last_hash"

  // ---------------------------------------------------------------- the latest archive

  predicate IsCandidate(dir: Dir, n: string)
    requires n in dir
  {
    dir[n].File? && n != LAST_HASH_FILE && n != ""
  }

  function Candidates(dir: Dir): set<string> {
    set n | n in dir && IsCandidate(dir, n)
  }

  ghost predicate IsMax(m: string, s: set<string>) {
    m in s && forall n :: n in s ==> n == m || Less(n, m)
  }

  lemma MaxExists(s: set<string>)
    requires s != {}
    ensures exists m :: IsMax(m, s)
  {
    var x :| x in s;
    if s == {x} {
      assert IsMax(x, s);
    } else {
      MaxExists(s - {x});
      var y :| IsMax(y, s - {x});
      LessTotal(x, y);
      if Less(x, y) {
        assert IsMax(y, s);
      } else {
        forall n | n in s ensures n == x || Less(n, x) {
          if n != x && n != y { LessTransitive(n, y, x); }
        }
        assert IsMax(x, s);
      }
    }
  }

  lemma MaxUnique(a: string, b: string, s: set<string>)
    requires IsMax(a, s) && IsMax(b, s)
    ensures a == b
  {
    if a != b {
      LessTransitive(a, b, a);
      LessIrreflexive(a);
    }
  }

  /** The name `latestBackupForItem` restores and `readStoredHash` parses: the largest file name, or "" . */
  ghost function LatestName(dir: Dir): (name: string)
    ensures if Candidates(dir) == {} then name == "" else IsMax(name, Candidates(dir))
  {
    if Candidates(dir) == {} then ""
    else
      MaxExists(Candidates(dir));
      var m :| IsMax(m, Candidates(dir)); m
  }

  ghost function StoredHash(dir: Dir): string {
    if LatestName(dir) == "" then "" else HashInName(LatestName(dir))
  }

  /** The latest name, written out: no file but the legacy hash file has a larger one, and it is empty exactly
      if there is no such file; its third field is the stored hash. */
  lemma LatestNameExact(dir: Dir)
    ensures var L := LatestName(dir);
      && (L == "" <==> forall n :: n in dir ==> dir[n].Folder? || n == ".last_hash" || n == "")
      && (L != "" ==> L in dir && dir[L].File? && L != ".last_hash")
      && (forall n :: n in dir && dir[n].File? && n != ".last_hash" && n != "" ==> n == L || Less(n, L))
      && StoredHash(dir) == if L == "" then "" else HashInName(L)
  {
    hide HashInName;
    assert forall n :: n in dir && dir[n].File? && n != ".last_hash" && n != "" ==> n in Candidates(dir);
  }

  // ---------------------------------------------------------------- age order

  datatype BackupFile = BackupFile(name: string, modTime: int)

  /** The order pruning sorts by. */
  predicate Before(f: BackupFile, g: BackupFile) {
    f.modTime < g.modTime || (f.modTime == g.modTime && Less(f.name, g.name))
  }

  lemma BeforeIsStrictOrder(f: BackupFile, g: BackupFile, h: BackupFile)
    ensures !Before(f, f)
    ensures Before(f, g) && Before(g, h) ==> Before(f, h)
    ensures Before(f, g) || f == g || Before(g, f)
  {
    LessIrreflexive(f.name);
    LessTotal(f.name, g.name);
    if Less(f.name, g.name) && Less(g.name, h.name) {
      LessTransitive(f.name, g.name, h.name);
    }
  }

  ghost predicate SortedBy(q: seq<BackupFile>, less: (BackupFile, BackupFile) -> bool) {
    forall i, j :: 0 <= i < j < |q| ==> less(q[i], q[j])
  }

  function Elems<T>(q: seq<T>): set<T> {
    set x | x in q
  }

  ghost predicate IsOldest(m: BackupFile, s: set<BackupFile>) {
    m in s && forall f :: f in s ==> f == m || Before(m, f)
  }

  lemma OldestExists(s: set<BackupFile>)
    requires s != {}
    ensures exists m :: IsOldest(m, s)
  {
    var x :| x in s;
    if s == {x} {
      assert IsOldest(x, s);
    } else {
      OldestExists(s - {x});
      var y :| IsOldest(y, s - {x});
      BeforeIsStrictOrder(x, y, y);
      if Before(x, y) {
        forall f | f in s ensures f == x || Before(x, f) {
          if f != x && f != y { BeforeIsStrictOrder(x, y, f); }
        }
        assert IsOldest(x, s);
      } else {
        assert IsOldest(y, s);
      }
    }
  }

  lemma SortExists(s: set<BackupFile>)
    ensures exists q :: SortedBy(q, Before) && Elems(q) == s
  {
    if s == {} {
      assert SortedBy([], Before) && Elems<BackupFile>([]) == s;
    } else {
      OldestExists(s);
      var m :| IsOldest(m, s);
      SortExists(s - {m});
      var rest :| SortedBy(rest, Before) && Elems(rest) == s - {m};
      var q := [m] + rest;
      forall i, j | 0 <= i < j < |q| ensures Before(q[i], q[j]) {
        assert q[j] == rest[j - 1] && rest[j - 1] in Elems(rest);
      }
      assert forall f :: f in q <==> f == m || f in rest;
      assert forall f :: f in rest <==> f in Elems(rest);
      assert Elems(q) == s;
    }
  }

  /** A set of files in order of age, oldest first. */
  ghost function Ascending(s: set<BackupFile>): (q: seq<BackupFile>)
    ensures SortedBy(q, Before) && Elems(q) == s
  {
    SortExists(s);
    var q :| SortedBy(q, Before) && Elems(q) == s; q
  }

  /** There is only one such order, so any correct sort produces it. */
  lemma {:induction false} AscendingUnique(p: seq<BackupFile>, q: seq<BackupFile>)
    requires SortedBy(p, Before) && SortedBy(q, Before) && Elems(p) == Elems(q)
    ensures p == q
    decreases |p|
  {
    if p == [] || q == [] {
      HeadIsElem(p);
      HeadIsElem(q);
    } else {
      SameHead(p, q);
      ElemsOfTail(p);
      ElemsOfTail(q);
      AscendingUnique(p[1..], q[1..]);
      assert p == [p[0]] + p[1..] && q == [q[0]] + q[1..];
    }
  }

  lemma HeadIsElem(q: seq<BackupFile>)
    ensures q != [] <==> Elems(q) != {}
  {
    if q != [] {
      assert q[0] in Elems(q);
    }
  }

  lemma SameHead(p: seq<BackupFile>, q: seq<BackupFile>)
    requires p != [] && q != [] && SortedBy(p, Before) && SortedBy(q, Before) && Elems(p) == Elems(q)
    ensures p[0] == q[0]
  {
    assert p[0] in Elems(q) && q[0] in Elems(p);
    var i :| 0 <= i < |q| && q[i] == p[0];
    var j :| 0 <= j < |p| && p[j] == q[0];
    if p[0] != q[0] {
      BeforeIsStrictOrder(p[0], q[0], p[0]);
    }
  }

  lemma ElemsOfTail(q: seq<BackupFile>)
    requires q != [] && SortedBy(q, Before)
    ensures SortedBy(q[1..], Before) && Elems(q[1..]) == Elems(q) - {q[0]}
  {
    forall f | f in Elems(q) - {q[0]} ensures f in q[1..] {
      var i :| 0 <= i < |q| && q[i] == f;
      assert q[1..][i - 1] == f;
    }
    forall f | f in q[1..] ensures f != q[0] {
      BeforeIsStrictOrder(q[0], f, f);
    }
  }

  lemma {:induction false} AscendingCount(q: seq<BackupFile>)
    requires SortedBy(q, Before)
    ensures |Elems(q)| == |q|
  {
    if q == [] {
    } else {
      ElemsOfTail(q);
      AscendingCount(q[1..]);
      assert q[0] in Elems(q);
    }
  }

  // ---------------------------------------------------------------- listing

  predicate IsVisible(dir: Dir, n: string)
    requires n in dir
  {
    dir[n].File? && !(n != "" && n[0] == '.')
  }

  /** The files pruning and listing see: no directories, no dot files. */
  function Visible(dir: Dir): set<BackupFile> {
    set n | n in dir && IsVisible(dir, n) :: BackupFile(n, dir[n].modTime)
  }

  ghost function ByAge(dir: Dir): seq<BackupFile> { Ascending(Visible(dir)) }

  /** Writing one file makes at most one more visible. */
  lemma OneMoreVisible(dir: Dir, n: string, e: Entry)
    ensures |ByAge(dir[n := e])| <= |ByAge(dir)| + 1
  {
    var was, now := Visible(dir), Visible(dir[n := e]);
    AscendingCount(ByAge(dir));
    AscendingCount(ByAge(dir[n := e]));
    if e.File? {
      var f := BackupFile(n, e.modTime);
      assert now <= was + {f};
      FewerFiles(now, was + {f});
    } else {
      assert now <= was;
      FewerFiles(now, was);
    }
  }

  lemma NoMoreVisible(dir: Dir, gone: set<string>)
    ensures |ByAge(dir - gone)| <= |ByAge(dir)|
  {
    AscendingCount(ByAge(dir));
    AscendingCount(ByAge(dir - gone));
    assert Visible(dir - gone) <= Visible(dir);
    FewerFiles(Visible(dir - gone), Visible(dir));
  }

  lemma FewerFiles(a: set<BackupFile>, b: set<BackupFile>)
    requires a <= b
    ensures |a| <= |b|
  {
    assert b == a + (b - a);
  }

  function Reverse<T>(q: seq<T>): (r: seq<T>)
    ensures |r| == |q| && forall i :: 0 <= i < |q| ==> r[i] == q[|q| - 1 - i]
  {
    seq(|q|, i requires 0 <= i < |q| => q[|q| - 1 - i])
  }

  /** What `listBackupArtifacts` shows: newest first. */
  ghost function Listing(dir: Dir): seq<BackupFile> { Reverse(ByAge(dir)) }

  /** The listing has every visible file once, later modification times first and, within one time,
      larger names first. */
  lemma ListingIsNewestFirst(dir: Dir)
    ensures Elems(Listing(dir)) == Visible(dir)
    ensures forall i, j :: 0 <= i < j < |Listing(dir)| ==>
              (Listing(dir)[i].modTime > Listing(dir)[j].modTime ||
               (Listing(dir)[i].modTime == Listing(dir)[j].modTime && Less(Listing(dir)[j].name, Listing(dir)[i].name)))
  {
    var q := ByAge(dir);
    forall f ensures f in Listing(dir) <==> f in Visible(dir) {
      ReverseElems(q, f);
      InByAge(dir, f);
    }
    forall i, j | 0 <= i < j < |q| ensures Before(Listing(dir)[j], Listing(dir)[i]) {
      assert Listing(dir)[i] == q[|q| - 1 - i] && Listing(dir)[j] == q[|q| - 1 - j];
    }
  }

  /** What the listing shows, written out: every file whose name does not start with a dot, with its time, and
      nothing else. */
  lemma ListingExact(dir: Dir, f: BackupFile)
    ensures f in Listing(dir) <==>
            f.name in dir && dir[f.name].File? && dir[f.name].modTime == f.modTime && (f.name == "" || f.name[0] != '.')
  {
    ListingIsNewestFirst(dir);
    VisibleByName(dir, f);
    assert f in Listing(dir) <==> f in Elems(Listing(dir));
  }

  // ---------------------------------------------------------------- pruning

  /** Which local file operations fail: reading the directory, and stat or remove of given names. */
  datatype Faults = Faults(readDir: bool, stat: set<string>, remove: set<string>)

  const NO_FAULTS := Faults(false, {}, {})

  function NamesOf(q: seq<BackupFile>): set<string> {
    set f | f in q :: f.name
  }

  /** How many of the leading victims can be removed before one that cannot. */
  function Removable(victims: seq<BackupFile>, stuck: set<string>): (k: nat)
    ensures k <= |victims|
    ensures forall i :: 0 <= i < k ==> victims[i].name !in stuck
    ensures k < |victims| ==> victims[k].name in stuck
  {
    if victims == [] || victims[0].name in stuck then 0 else 1 + Removable(victims[1..], stuck)
  }

  /** The directory once its `i` oldest visible files are gone. */
  ghost function WithoutOldest(dir: Dir, i: nat): Dir
    requires i <= |ByAge(dir)|
  {
    dir - NamesOf(ByAge(dir)[..i])
  }

  /** `pruneBackups`: the directory it leaves and whether it reported success. */
  ghost function Prune(dir: Dir, maxBackups: int, faults: Faults): (Dir, bool) {
    if maxBackups <= 0 then (dir, true)
    else if faults.readDir then (dir, false)
    else if exists f :: f in Visible(dir) && f.name in faults.stat then (dir, false)
    else if |ByAge(dir)| <= maxBackups then (dir, true)
    else
      var victims := ByAge(dir)[..|ByAge(dir)| - maxBackups];
      var k := Removable(victims, faults.remove);
      (WithoutOldest(dir, k), k == |victims|)
  }

  lemma VisibleByName(dir: Dir, f: BackupFile)
    ensures f in Visible(dir) <==> f.name in dir && IsVisible(dir, f.name) && f.modTime == dir[f.name].modTime
  {
    if f in Visible(dir) {
      var n :| n in dir && IsVisible(dir, n) && f == BackupFile(n, dir[n].modTime);
    }
  }

  lemma InByAge(dir: Dir, f: BackupFile)
    ensures f in ByAge(dir) <==> f in Visible(dir)
  {
    assert f in ByAge(dir) <==> f in Elems(ByAge(dir));
  }

  /** At every point of a prune the visible files left are a newest segment of the age order, everything
      else is as it was, and each file already gone is older than each visible file that remains. */
  lemma WithoutOldestShape(dir: Dir, i: nat)
    requires i <= |ByAge(dir)|
    ensures ByAge(WithoutOldest(dir, i)) == ByAge(dir)[i..]
    ensures forall n :: n in WithoutOldest(dir, i) ==> n in dir && WithoutOldest(dir, i)[n] == dir[n]
    ensures forall n :: n in dir && n !in WithoutOldest(dir, i) ==>
              IsVisible(dir, n) && BackupFile(n, dir[n].modTime) in ByAge(dir)[..i]
    ensures var d := WithoutOldest(dir, i);
            forall f, g :: f in Visible(dir) && f.name !in d && g in Visible(d) ==>
              f.modTime < g.modTime || (f.modTime == g.modTime && Less(f.name, g.name))
  {
    var q, d := ByAge(dir), WithoutOldest(dir, i);
    forall n | n in dir && n !in d
      ensures IsVisible(dir, n) && BackupFile(n, dir[n].modTime) in q[..i]
    {
      var f :| f in q[..i] && f.name == n;
      InByAge(dir, f);
      VisibleByName(dir, f);
    }
    forall f ensures f in Visible(d) <==> f in q[i..] {
      VisibleByName(d, f);
      VisibleByName(dir, f);
      InByAge(dir, f);
      if f in q[i..] {
        SegmentsApart(dir, i, f);
      } else {
        InOneHalf(q, i, f);
      }
    }
    assert Elems(q[i..]) == Visible(d);
    AscendingUnique(ByAge(d), q[i..]);
    forall f, g | f in Visible(dir) && f.name !in d && g in Visible(d) ensures Before(f, g) {
      VisibleByName(dir, f);
      assert f in q[..i] && g in q[i..];
    }
  }

  lemma InOneHalf(q: seq<BackupFile>, i: nat, f: BackupFile)
    requires i <= |q|
    ensures f in q <==> f in q[..i] || f in q[i..]
  {
    assert q == q[..i] + q[i..];
  }

  /** A file of the newer segment shares no name with the older one. */
  lemma SegmentsApart(dir: Dir, i: nat, f: BackupFile)
    requires i <= |ByAge(dir)| && f in ByAge(dir)[i..]
    ensures f.name !in NamesOf(ByAge(dir)[..i])
  {
    var q := ByAge(dir);
    if f.name in NamesOf(q[..i]) {
      var g :| g in q[..i] && g.name == f.name;
      InByAge(dir, f);
      InByAge(dir, g);
      VisibleByName(dir, f);
      VisibleByName(dir, g);
      BeforeIsStrictOrder(f, f, f);
    }
  }

  /** Pruning is exact and dual to listing: with a positive limit and no failures, the visible files
      left are the first `maxBackups` of the listing, nothing else changes, and a second prune is a no-op. */
  lemma PruneIsListingHead(dir: Dir, maxBackups: nat)
    requires maxBackups > 0
    ensures var (d, ok) := Prune(dir, maxBackups, NO_FAULTS);
      && ok
      && Visible(d) == Elems(Listing(dir)[..if maxBackups < |Listing(dir)| then maxBackups else |Listing(dir)|])
      && Listing(d) == Listing(dir)[..if maxBackups < |Listing(dir)| then maxBackups else |Listing(dir)|]
      && (forall n :: n in dir && (dir[n].Folder? || (n != "" && n[0] == '.')) ==> n in d)
      && (forall n :: n in d ==> n in dir && d[n] == dir[n])
      && Prune(d, maxBackups, NO_FAULTS) == (d, true)
  {
    hide Visible, IsVisible, Listing, Prune;
    HiddenStay(dir, maxBackups, NO_FAULTS);
    var d := Prune(dir, maxBackups, NO_FAULTS).0;
    PrunedListing(dir, maxBackups);
    forall f ensures f in Visible(d) <==> f in Listing(d) {
      InListing(d, f);
    }
  }

  lemma InListing(dir: Dir, f: BackupFile)
    ensures f in Listing(dir) <==> f in Visible(dir)
  {
    InByAge(dir, f);
    ReverseElems(ByAge(dir), f);
  }

  /** A prune without failures cuts the listing at the limit, and touches nothing that is not listed. */
  lemma PrunedListing(dir: Dir, maxBackups: nat)
    requires maxBackups > 0
    ensures var (d, ok) := Prune(dir, maxBackups, NO_FAULTS);
      && ok
      && Listing(d) == Listing(dir)[..if maxBackups < |Listing(dir)| then maxBackups else |Listing(dir)|]
      && (forall n :: n in dir && !IsVisible(dir, n) ==> n in d)
      && (forall n :: n in d ==> n in dir && d[n] == dir[n])
      && Prune(d, maxBackups, NO_FAULTS) == (d, true)
  {
    hide Visible, IsVisible, ByAge, WithoutOldest;
    var q := ByAge(dir);
    if |q| <= maxBackups {
      assert Listing(dir)[..|q|] == Listing(dir);
    } else {
      SegmentListing(dir, |q| - maxBackups);
    }
  }

  lemma SegmentListing(dir: Dir, k: nat)
    requires k <= |ByAge(dir)|
    ensures var d := WithoutOldest(dir, k);
      && |ByAge(d)| == |ByAge(dir)| - k
      && Listing(d) == Listing(dir)[..|ByAge(dir)| - k]
      && (forall n :: n in dir && !IsVisible(dir, n) ==> n in d)
      && (forall n :: n in d ==> n in dir && d[n] == dir[n])
  {
    hide Visible, IsVisible, Before, Less, ByAge, WithoutOldest;
    WithoutOldestShape(dir, k);
    var q := ByAge(dir);
    assert Reverse(q[k..]) == Reverse(q)[..|q| - k];
  }

  lemma ReverseElems<T>(q: seq<T>, x: T)
    ensures x in Reverse(q) <==> x in q
  {
    if x in q {
      var i :| 0 <= i < |q| && q[i] == x;
      assert Reverse(q)[|q| - 1 - i] == x;
    }
  }

  /** Whatever the limit and whatever fails, pruning leaves directories and files whose names start with a dot
      alone, and changes no entry it keeps. */
  lemma HiddenStay(dir: Dir, maxBackups: int, faults: Faults)
    ensures var d := Prune(dir, maxBackups, faults).0;
      && (forall n :: n in dir && (dir[n].Folder? || (n != "" && n[0] == '.')) ==> n in d)
      && (forall n :: n in d ==> n in dir && d[n] == dir[n])
  {
    hide Visible, ByAge, Gone;
    var k := Gone(dir, maxBackups, faults);
    PruneRemovesOldest(dir, maxBackups, faults);
    WithoutOldestShape(dir, k);
  }

  /** How many files a prune removes. */
  ghost function Gone(dir: Dir, maxBackups: int, faults: Faults): (k: nat)
    ensures k <= |ByAge(dir)|
  {
    if maxBackups <= 0 || faults.readDir then 0
    else if exists f :: f in Visible(dir) && f.name in faults.stat then 0
    else if |ByAge(dir)| <= maxBackups then 0
    else Removable(ByAge(dir)[..|ByAge(dir)| - maxBackups], faults.remove)
  }

  /** Whatever fails, what a prune removes is a number of oldest files, never more than the surplus; and the
      whole surplus if nothing fails. */
  lemma PruneRemovesOldest(dir: Dir, maxBackups: int, faults: Faults)
    ensures Prune(dir, maxBackups, faults).0 == WithoutOldest(dir, Gone(dir, maxBackups, faults))
    ensures Gone(dir, maxBackups, faults) > 0 ==>
              maxBackups > 0 && Gone(dir, maxBackups, faults) <= |ByAge(dir)| - maxBackups
    ensures maxBackups > 0 ==>
              Gone(dir, maxBackups, NO_FAULTS) == if |ByAge(dir)| <= maxBackups then 0 else |ByAge(dir)| - maxBackups
  {
    assert WithoutOldest(dir, 0) == dir;
  }

  /** The files beyond the limit in the listing. */
  ghost function Surplus(dir: Dir, maxBackups: int): seq<BackupFile> {
    if maxBackups <= 0 || |Listing(dir)| <= maxBackups then [] else Listing(dir)[maxBackups..]
  }

  /** Going backwards, the files get as far as this name without meeting one that is stuck. */
  ghost predicate Reached(extra: seq<BackupFile>, stuck: set<string>, n: string) {
    exists i :: 0 <= i < |extra| && extra[i].name == n && forall j :: i <= j < |extra| ==> extra[j].name !in stuck
  }

  ghost predicate NameAmong(q: seq<BackupFile>, k: nat, n: string)
    requires k <= |q|
  {
    exists i :: 0 <= i < k && q[i].name == n
  }

  /** Pruning, exactly, for any limit and any failures, in terms of the listing. Without a limit it does
      nothing and succeeds. If the directory cannot be read or a listed file cannot be examined it does nothing
      and fails. Otherwise it removes files beyond the limit, oldest first, up to the first that cannot be
      removed, and succeeds exactly if there is none. */
  lemma PruneExact(dir: Dir, maxBackups: int, faults: Faults)
    ensures var (d, ok) := Prune(dir, maxBackups, faults);
      var extra := Surplus(dir, maxBackups);
      var blocked := faults.readDir || exists f :: f in Listing(dir) && f.name in faults.stat;
      && (maxBackups <= 0 ==> d == dir && ok)
      && (maxBackups > 0 && blocked ==> d == dir && !ok)
      && (maxBackups > 0 && !blocked ==>
            && (ok <==> forall f :: f in extra ==> f.name !in faults.remove)
            && (forall n :: n in dir && n !in d <==> Reached(extra, faults.remove, n)))
  {
    hide Visible, WithoutOldest, IsVisible, ByAge;
    forall f ensures f in Listing(dir) <==> f in Visible(dir) { InListing(dir, f); }
    if maxBackups > 0 && !(faults.readDir || exists f :: f in Listing(dir) && f.name in faults.stat) {
      UnblockedPrune(dir, maxBackups, faults);
    }
  }

  lemma UnblockedPrune(dir: Dir, maxBackups: int, faults: Faults)
    requires maxBackups > 0 && !faults.readDir && !exists f :: f in Visible(dir) && f.name in faults.stat
    ensures var (d, ok) := Prune(dir, maxBackups, faults);
      var extra := Surplus(dir, maxBackups);
      && (ok <==> forall f :: f in extra ==> f.name !in faults.remove)
      && (forall n :: n in dir && n !in d <==> Reached(extra, faults.remove, n))
  {
    hide Visible, WithoutOldest, IsVisible, ByAge, Reached, NameAmong;
    var q, extra := ByAge(dir), Surplus(dir, maxBackups);
    if |q| <= maxBackups {
      NothingReached(faults.remove);
    } else {
      var m := |q| - maxBackups;
      var k := Removable(q[..m], faults.remove);
      RemovedNames(dir, k);
      SurplusStops(q, m, faults.remove, extra, k);
    }
  }

  lemma NothingReached(stuck: set<string>)
    ensures forall n :: !Reached([], stuck, n)
  {
  }

  /** The names gone after the `k` oldest files are removed. */
  lemma RemovedNames(dir: Dir, k: nat)
    requires k <= |ByAge(dir)|
    ensures forall n :: n in dir && n !in WithoutOldest(dir, k) <==> NameAmong(ByAge(dir), k, n)
  {
    var q := ByAge(dir);
    forall i | 0 <= i < k ensures q[i].name in dir && q[i] in q[..k] {
      assert q[..k][i] == q[i];
      InByAge(dir, q[i]);
      VisibleByName(dir, q[i]);
    }
    forall n | n in dir && n !in WithoutOldest(dir, k) ensures exists i :: 0 <= i < k && q[i].name == n {
      var f :| f in q[..k] && f.name == n;
      var i :| 0 <= i < k && q[..k][i] == f;
      assert q[i].name == n;
    }
  }

  /** The oldest files from the other end: `extra` is the reverse of the first `m`. */
  lemma SurplusStops(q: seq<BackupFile>, m: nat, stuck: set<string>, extra: seq<BackupFile>, k: nat)
    requires m <= |q| && |extra| == m && k == Removable(q[..m], stuck)
    requires forall i :: 0 <= i < m ==> extra[i] == q[m - 1 - i]
    ensures k == m <==> forall f :: f in extra ==> f.name !in stuck
    ensures forall n :: NameAmong(q, k, n) <==> Reached(extra, stuck, n)
  {
    assert forall i :: 0 <= i < k ==> q[..m][i] == q[i];
    forall i | 0 <= i < k ensures
      extra[m - 1 - i].name == q[i].name && forall j :: m - 1 - i <= j < m ==> extra[j].name !in stuck
    {
      forall j | m - 1 - i <= j < m ensures extra[j].name !in stuck {
        assert q[..m][m - 1 - j].name !in stuck;
      }
    }
    if k < m {
      assert q[..m][k] == q[k] == extra[m - 1 - k] && q[k].name in stuck;
      assert extra[m - 1 - k] in extra;
    }
    forall i | 0 <= i < m && forall j :: i <= j < m ==> extra[j].name !in stuck
      ensures m - 1 - i < k && q[m - 1 - i].name == extra[i].name
    {
    }
    if k == m {
      forall f | f in extra ensures f.name !in stuck {
        var i :| 0 <= i < m && extra[i] == f;
        assert q[..m][m - 1 - i].name !in stuck;
      }
    }
  }

  /** Age order and name order tell the same story. */
  ghost predicate OrdersAgree(dir: Dir) {
    forall f, g :: f in Visible(dir) && g in Visible(dir) && Less(f.name, g.name) ==> Before(f, g)
  }

  lemma LatestOfSubset(dir: Dir, d: Dir)
    requires forall n :: n in d ==> n in dir && d[n] == dir[n]
    ensures LatestName(dir) == "" || LatestName(dir) in d ==> LatestName(d) == LatestName(dir)
    ensures LatestName(dir) != "" && LatestName(dir) !in d ==> LatestName(d) != LatestName(dir)
  {
    assert Candidates(d) <= Candidates(dir);
    if LatestName(dir) != "" && LatestName(dir) in d {
      assert LatestName(dir) in Candidates(d);
      MaxUnique(LatestName(dir), LatestName(d), Candidates(d));
    }
  }

  /** Exactly when pruning leaves the restore answer alone, for any limit and any failures: the latest name
      is hidden from pruning, or is in the listing before the files that go. */
  lemma PruneKeepsLatestExact(dir: Dir, maxBackups: int, faults: Faults)
    ensures var L, n := LatestName(dir), |Listing(dir)| - Gone(dir, maxBackups, faults);
      LatestName(Prune(dir, maxBackups, faults).0) == L <==>
      (L == "" || !IsVisible(dir, L) || BackupFile(L, dir[L].modTime) in Listing(dir)[..n])
  {
    hide Visible, Prune, Gone, IsVisible;
    var L, k := LatestName(dir), Gone(dir, maxBackups, faults);
    var d := WithoutOldest(dir, k);
    PruneRemovesOldest(dir, maxBackups, faults);
    WithoutOldestShape(dir, k);
    LatestOfSubset(dir, d);
    if L != "" {
      InListingHead(dir, k, L);
    }
  }

  /** A name survives the removal of the `k` oldest files if it is hidden or listed before them. */
  lemma InListingHead(dir: Dir, k: nat, n: string)
    requires k <= |ByAge(dir)| && n in dir && dir[n].File?
    ensures n in WithoutOldest(dir, k) <==>
            !IsVisible(dir, n) || BackupFile(n, dir[n].modTime) in Listing(dir)[..|Listing(dir)| - k]
  {
    hide Visible;
    var q, d, f := ByAge(dir), WithoutOldest(dir, k), BackupFile(n, dir[n].modTime);
    WithoutOldestShape(dir, k);
    ReverseElems(q[k..], f);
    assert Listing(dir)[..|q| - k] == Reverse(q[k..]);
    InByAge(d, f);
    VisibleByName(d, f);
  }

  /** What a prune that reports success leaves of a file: it stays if pruning does not see it, if there is no
      limit, or if it is within the limit in the listing. */
  ghost predicate Survives(dir: Dir, n: string, maxBackups: int)
    requires n in dir && dir[n].File?
  {
    !IsVisible(dir, n) || maxBackups <= 0 ||
    BackupFile(n, dir[n].modTime) in
      Listing(dir)[..if maxBackups < |Listing(dir)| then maxBackups else |Listing(dir)|]
  }

  ghost function Survivors(dir: Dir, maxBackups: int): set<string> {
    set n | n in Candidates(dir) && Survives(dir, n, maxBackups)
  }

  /** Which candidates are left by a prune that reports success, for every directory. */
  lemma PruneSurvivors(dir: Dir, maxBackups: int, faults: Faults)
    requires Prune(dir, maxBackups, faults).1
    ensures Candidates(Prune(dir, maxBackups, faults).0) == Survivors(dir, maxBackups)
  {
    hide Visible, IsVisible, Listing, WithoutOldest;
    var k, d := Gone(dir, maxBackups, faults), Prune(dir, maxBackups, faults).0;
    PruneRemovesOldest(dir, maxBackups, faults);
    CandidatesWithout(dir, k);
    SuccessRemovesSurplus(dir, maxBackups, faults);
    forall n | n in Candidates(dir) ensures n in d <==> Survives(dir, n, maxBackups) {
      InListingHead(dir, k, n);
      ListedOrHidden(dir, n);
    }
  }

  lemma CandidatesWithout(dir: Dir, k: nat)
    requires k <= |ByAge(dir)|
    ensures Candidates(WithoutOldest(dir, k)) == set n | n in Candidates(dir) && n in WithoutOldest(dir, k)
  {
    hide ByAge;
  }

  lemma SuccessRemovesSurplus(dir: Dir, maxBackups: int, faults: Faults)
    requires Prune(dir, maxBackups, faults).1
    ensures |Listing(dir)| == |ByAge(dir)|
    ensures Gone(dir, maxBackups, faults) ==
            if maxBackups <= 0 || |ByAge(dir)| <= maxBackups then 0 else |ByAge(dir)| - maxBackups
  {
  }

  lemma ListedOrHidden(dir: Dir, n: string)
    requires n in dir && dir[n].File?
    ensures IsVisible(dir, n) ==> BackupFile(n, dir[n].modTime) in Listing(dir)[..|Listing(dir)|]
  {
    var f := BackupFile(n, dir[n].modTime);
    VisibleByName(dir, f);
    InByAge(dir, f);
    ReverseElems(ByAge(dir), f);
    assert Listing(dir)[..|Listing(dir)|] == Listing(dir);
  }

  /** When the orders agree, the latest archive is not among the oldest. */
  lemma LatestIsNotOldest(dir: Dir, k: nat)
    requires OrdersAgree(dir) && (k == 0 || k < |ByAge(dir)|)
    ensures LatestName(dir) == "" || LatestName(dir) in WithoutOldest(dir, k)
  {
    hide Visible, HashInName;
    var L, q, d := LatestName(dir), ByAge(dir), WithoutOldest(dir, k);
    WithoutOldestShape(dir, k);
    if L != "" && L !in d {
      var f, g := BackupFile(L, dir[L].modTime), q[|q| - 1];
      InByAge(dir, f);
      InByAge(dir, g);
      VisibleByName(dir, g);
      assert g.name == "" || g.name in Candidates(dir);
      assert Before(f, g);
      BeforeIsStrictOrder(f, g, f);
      assert false;
    }
  }

  /** When the orders agree, pruning never changes what would be restored or which hash is stored, for
      any limit and whichever file operations fail. */
  lemma PruneKeepsLatest(dir: Dir, maxBackups: int, faults: Faults)
    requires OrdersAgree(dir)
    ensures LatestName(Prune(dir, maxBackups, faults).0) == LatestName(dir)
    ensures StoredHash(Prune(dir, maxBackups, faults).0) == StoredHash(dir)
  {
    hide OrdersAgree, HashInName, Visible;
    var k := Gone(dir, maxBackups, faults);
    PruneRemovesOldest(dir, maxBackups, faults);
    WithoutOldestShape(dir, k);
    LatestIsNotOldest(dir, k);
    LatestOfSubset(dir, WithoutOldest(dir, k));
  }
}
