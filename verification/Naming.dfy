/** Names of archives, directories and staging paths (internal/backup/naming.go), and the parser that
    reads a hash back out of an archive name (internal/backup/service.go). */
module Naming {
  import opened Strings
  import opened Calendar
  import opened Domain

  const ARCHIVE_SUFFIX := ".tar.gz"

  function KindSuffix(compressed: bool): string {
    if compressed then ARCHIVE_SUFFIX else ""
  }

  /** `backupBaseName` at second `sec`, with the suffix a directory payload gets. */
  function ArchiveName(sec: nat, hash: string, compressed: bool): string {
    Timestamp(sec) + "-" + hash + KindSuffix(compressed)
  }

  /** The name, character by character: date, dash, time, Z, dash, hash, and for a directory the suffix. */
  lemma ArchiveNameOfDate(
      y: nat, m: nat, d: nat, hour: nat, minute: nat, second: nat, hash: string, compressed: bool)
    requires 1 <= y < 10000 && 1 <= m <= 12
    requires 1 <= d <= MONTH_LENGTH[m - 1] + (if m == 2 then LeapDay(y) else 0)
    requires hour < 24 && minute < 60 && second < 60
    ensures ArchiveName(SecondOf(y, m, d, hour, minute, second), hash, compressed) ==
      Digits(4, y) + (Digits(2, m) + (Digits(2, d) + ("-" +
      (Digits(2, hour) + (Digits(2, minute) + (Digits(2, second) + "Z")))))) +
      "-" + hash + (if compressed then ".tar.gz" else "")
  {
    hide Timestamp, SecondOf, Digits;
    TimestampOfDate(y, m, d, hour, minute, second);
  }

  /** The parsing half of `readStoredHash`. */
  function HashInName(name: string): string {
    var parts := Split(name, '-');
    if |parts| >= 3 then TrimSuffix(parts[2], ARCHIVE_SUFFIX) else ""
  }

  /** The parser on any name: what stands between the second dash and the third, without the suffix; nothing
      if there are fewer than two dashes. */
  lemma HashInNameExact(a: string, b: string, c: string, rest: string)
    requires '-' !in a && '-' !in b && '-' !in c && (rest == "" || rest[0] == '-')
    ensures HashInName(a) == "" && HashInName(a + "-" + b) == ""
    ensures HashInName(a + "-" + (b + "-" + (c + rest))) == if HasSuffix(c, ".tar.gz") then c[..|c| - 7] else c
  {
    hide Split;
    SplitWhole(a, '-');
    SplitWhole(b, '-');
    SplitFirst(a, '-', b);
    SplitFirst(b, '-', c + rest);
    SplitFirst(a, '-', b + "-" + (c + rest));
    FirstPart(c, '-', rest);
  }

  lemma FirstPart(c: string, sep: char, rest: string)
    requires sep !in c && (rest == "" || rest[0] == sep)
    ensures Split(c + rest, sep)[0] == c
  {
    if rest == "" {
      SplitWhole(c, sep);
      assert c + rest == c;
    } else {
      SplitFirst(c, sep, rest[1..]);
      assert c + rest == c + [sep] + rest[1..];
    }
  }

  /** A hash that file names carry faithfully; every hexadecimal digest and the empty string qualify. */
  predicate CleanHash(h: string) {
    '-' !in h && '.' !in h && '/' !in h
  }

  /** Name order is time order, whatever the hashes and payload kinds. */
  lemma ArchiveNameOrder(s: nat, h: string, c: bool, t: nat, h': string, c': bool)
    requires s < t && FourDigitYear(t)
    ensures Less(ArchiveName(s, h, c), ArchiveName(t, h', c'))
  {
    TimestampOrder(s, t, "-" + h + KindSuffix(c), "-" + h' + KindSuffix(c'));
    NameAfterTimestamp(s, h, c);
    NameAfterTimestamp(t, h', c');
  }

  /** Two archives of one second are ordered by what follows the timestamp, the hash first, not by age. */
  lemma SameSecondOrder(s: nat, h: string, c: bool, h': string, c': bool)
    ensures Less(ArchiveName(s, h, c), ArchiveName(s, h', c')) <==> Less(h + KindSuffix(c), h' + KindSuffix(c'))
  {
    hide Timestamp;
    var stem := Timestamp(s) + "-";
    Assoc(stem, h, KindSuffix(c));
    Assoc(stem, h', KindSuffix(c'));
    LessAfterPrefix(stem, h + KindSuffix(c), h' + KindSuffix(c'));
  }

  /** From year 2000 to 19999, exactly: between different seconds name order is time order as long as the
      years have equally many digits; within one second it is the order of the hashes. */
  lemma ArchiveNameOrderExact(s: nat, h: string, c: bool, t: nat, h': string, c': bool)
    requires s <= t && 2000 <= DateOf(s / SECONDS_PER_DAY).year && DateOf(t / SECONDS_PER_DAY).year < 20000
    ensures Less(ArchiveName(s, h, c), ArchiveName(t, h', c')) <==>
            if s == t then Less(h + KindSuffix(c), h' + KindSuffix(c'))
            else (FourDigitYear(s) <==> FourDigitYear(t))
  {
    if s == t {
      SameSecondOrder(s, h, c, h', c');
    } else {
      TimestampOrderExact(s, t, "-" + h + KindSuffix(c), "-" + h' + KindSuffix(c'));
      NameAfterTimestamp(s, h, c);
      NameAfterTimestamp(t, h', c');
    }
  }

  lemma NameAfterTimestamp(sec: nat, h: string, c: bool)
    ensures ArchiveName(sec, h, c) == Timestamp(sec) + ("-" + h + KindSuffix(c))
    ensures |ArchiveName(sec, h, c)| > 0 && IsDigit(ArchiveName(sec, h, c)[0])
  {
    hide Timestamp;
    TimestampHead(sec);
  }

  lemma SplitArchiveName(sec: nat, h: string, c: bool)
    ensures |Split(ArchiveName(sec, h, c), '-')| >= 3
    ensures Split(ArchiveName(sec, h, c), '-')[2] == Split(h + KindSuffix(c), '-')[0]
  {
    hide Timestamp, DayText, ClockText, Split;
    var day, clock, tail := DayText(sec), ClockText(sec), h + KindSuffix(c);
    TimestampHalves(sec);
    SplitFirst(clock, '-', tail);
    SplitFirst(day, '-', clock + ['-'] + tail);
    Regroup(day, "-", clock, "-" + tail);
    assert ArchiveName(sec, h, c) == day + ['-'] + (clock + ['-'] + tail);
  }

  /** The parser undoes the printer exactly when the hash has no dash and, for an uncompressed archive,
      does not itself end in the archive suffix. */
  lemma HashRoundTripExact(sec: nat, h: string, c: bool)
    ensures HashInName(ArchiveName(sec, h, c)) == h <==> '-' !in h && (c || !HasSuffix(h, ARCHIVE_SUFFIX))
  {
    SplitArchiveName(sec, h, c);
    var tail := h + KindSuffix(c);
    if '-' in h {
      SplitPrefix(h, '-', KindSuffix(c));
      SplitShortens(h, '-');
    } else {
      SplitWhole(tail, '-');
      if c {
        assert tail[|tail| - 7..] == ARCHIVE_SUFFIX && tail[..|tail| - 7] == h;
      } else {
        assert tail == h;
      }
    }
  }

  lemma {:induction false} SplitPrefix(a: string, sep: char, b: string)
    requires sep in a
    ensures Split(a + b, sep)[0] == Split(a, sep)[0]
  {
    assert (a + b)[1..] == a[1..] + b;
    if a[0] == sep {
    } else {
      SplitPrefix(a[1..], sep, b);
    }
  }

  lemma SuffixNeedsDot(s: string)
    ensures HasSuffix(s, ARCHIVE_SUFFIX) ==> '.' in s
  {
    if HasSuffix(s, ARCHIVE_SUFFIX) {
      assert s[|s| - 7] == s[|s| - 7..][0] == '.';
    }
  }

  /** A clean hash, and the payload kind, are both readable from the name; the empty hash reads as empty. */
  lemma NameDeterminesArchive(sec: nat, h: string, c: bool)
    requires CleanHash(h)
    ensures HashInName(ArchiveName(sec, h, c)) == h
    ensures HasSuffix(ArchiveName(sec, h, c), ARCHIVE_SUFFIX) <==> c
  {
    HashRoundTripExact(sec, h, c);
    SuffixNeedsDot(h);
    var name := ArchiveName(sec, h, c);
    if c {
      assert name[|name| - 7..] == ARCHIVE_SUFFIX;
    } else {
      TimestampHalves(sec);
      assert name == Timestamp(sec) + "-" + h;
      SuffixNeedsDot(name);
    }
  }

  // ---------------------------------------------------------------- sanitizeName

  predicate Safe(c: char) {
    'a' <= c <= 'z' || 'A' <= c <= 'Z' || '0' <= c <= '9' || c == '.' || c == '_' || c == '-'
  }

  predicate AllSafe(s: string) {
    forall c :: c in s ==> Safe(c)
  }

  /** Every maximal run of unsafe characters becomes one underscore. */
  function Collapse(v: string, inRun: bool): string {
    if v == [] then ""
    else if Safe(v[0]) then [v[0]] + Collapse(v[1..], false)
    else (if inRun then "" else "_") + Collapse(v[1..], true)
  }

  function TrimLeft(s: string, c: char): (r: string)
    ensures r != [] ==> r[0] != c
    ensures forall x :: x in r ==> x in s
  {
    if s != [] && s[0] == c then TrimLeft(s[1..], c) else s
  }

  function TrimRight(s: string, c: char): (r: string)
    ensures r <= s
    ensures r != [] ==> r[|r| - 1] != c
  {
    if s != [] && s[|s| - 1] == c then TrimRight(s[..|s| - 1], c) else s
  }

  function Trim(s: string, c: char): string {
    TrimRight(TrimLeft(s, c), c)
  }

  function SanitizeName(v: string): string {
    var t := Trim(Collapse(v, false), '_');
    if t == "" then "item" else t
  }

  lemma {:induction false} CollapseSafe(v: string, inRun: bool)
    ensures AllSafe(Collapse(v, inRun))
    ensures AllSafe(v) ==> Collapse(v, inRun) == v
  {
    if v == [] {
    } else {
      CollapseSafe(v[1..], !Safe(v[0]));
      assert [v[0]] + v[1..] == v;
    }
  }

  /** `sanitizeName` always yields a usable path component: letters, digits, dot, underscore and hyphen. */
  lemma SanitizeNameSafe(v: string)
    ensures SanitizeName(v) != "" && AllSafe(SanitizeName(v))
    ensures forall c :: c in SanitizeName(v) ==>
              'a' <= c <= 'z' || 'A' <= c <= 'Z' || '0' <= c <= '9' || c == '.' || c == '_' || c == '-'
  {
    CollapseSafe(v, false);
    var c := Collapse(v, false);
    var l := TrimLeft(c, '_');
    forall x | x in TrimRight(l, '_') ensures x in c {
      assert x in l;
    }
  }

  /** The names it leaves alone, exactly. */
  lemma SanitizeNameFixedPoints(v: string)
    ensures SanitizeName(v) == v <==>
            v != "" && v[0] != '_' && v[|v| - 1] != '_' && forall c :: c in v ==>
              'a' <= c <= 'z' || 'A' <= c <= 'Z' || '0' <= c <= '9' || c == '.' || c == '_' || c == '-'
  {
    SanitizeNameSafe(v);
    CollapseSafe(v, false);
    var l := TrimLeft(Collapse(v, false), '_');
    assert TrimRight(l, '_') != "" ==> TrimRight(l, '_')[0] == l[0];
  }

  predicate AllAre(s: string, c: char) {
    forall i :: 0 <= i < |s| ==> s[i] == c
  }

  lemma {:induction false} TrimLeftExact(s: string, c: char)
    ensures exists i :: 0 <= i <= |s| && TrimLeft(s, c) == s[i..] && AllAre(s[..i], c)
  {
    if s == "" || s[0] != c {
      assert s[0..] == s && AllAre(s[..0], c);
    } else {
      hide AllAre;
      TrimLeftExact(s[1..], c);
      var i :| 0 <= i <= |s[1..]| && TrimLeft(s[1..], c) == s[1..][i..] && AllAre(s[1..][..i], c);
      TailSlices(s, i, i);
      MoreAre(c, s[1..][..i]);
      assert AllAre(s[..i + 1], c);
    }
  }

  lemma MoreAre(c: char, s: string)
    requires AllAre(s, c)
    ensures AllAre([c] + s, c) && AllAre(s + [c], c)
  {
  }

  lemma {:induction false} TrimRightExact(s: string, c: char)
    ensures exists j :: 0 <= j <= |s| && TrimRight(s, c) == s[..j] && AllAre(s[j..], c)
  {
    if s == "" || s[|s| - 1] != c {
      assert s[..|s|] == s && AllAre(s[|s|..], c);
    } else {
      var t := s[..|s| - 1];
      hide AllAre;
      TrimRightExact(t, c);
      var j :| 0 <= j <= |t| && TrimRight(t, c) == t[..j] && AllAre(t[j..], c);
      FrontSlices(s, j, j);
      MoreAre(c, t[j..]);
      assert AllAre(s[j..], c);
    }
  }

  /** The character at `i` after unsafe runs are replaced: itself if it is safe, an underscore if it starts an
      unsafe run, and nothing inside one. */
  function Replaced(v: string, i: nat): string
    requires i < |v|
  {
    if Safe(v[i]) then [v[i]] else if i > 0 && !Safe(v[i - 1]) then "" else "_"
  }

  function ReplacedFrom(v: string, i: nat): string
    requires i <= |v|
    decreases |v| - i
  {
    if i == |v| then "" else Replaced(v, i) + ReplacedFrom(v, i + 1)
  }

  lemma {:induction false} CollapseFrom(v: string, i: nat)
    requires i <= |v|
    ensures Collapse(v[i..], i > 0 && !Safe(v[i - 1])) == ReplacedFrom(v, i)
    decreases |v| - i
  {
    if i == |v| {
    } else {
      CollapseFrom(v, i + 1);
      assert v[i..][1..] == v[i + 1..];
    }
  }

  /** `r` is `s` without the `c` at both its ends. */
  ghost predicate Inside(s: string, r: string, c: char) {
    && (exists i, j :: 0 <= i <= j <= |s| && r == s[i..j] && AllAre(s[..i], c) && AllAre(s[j..], c))
    && (r != "" ==> r[0] != c && r[|r| - 1] != c)
  }

  lemma InsideAt(s: string, i: nat, k: nat, c: char)
    requires i + k <= |s| && AllAre(s[..i], c) && AllAre(s[i..][k..], c)
    requires k > 0 ==> s[i] != c && s[i + k - 1] != c
    ensures Inside(s, s[i..][..k], c)
  {
    hide AllAre;
    assert s[i + k..] == s[i..][k..];
    assert s[i..i + k] == s[i..][..k];
  }

  lemma TrimExact(s: string, c: char)
    ensures Inside(s, Trim(s, c), c)
  {
    hide TrimLeft, TrimRight, AllAre, Inside;
    TrimLeftExact(s, c);
    var i :| 0 <= i <= |s| && TrimLeft(s, c) == s[i..] && AllAre(s[..i], c);
    RightInside(s, i, s[i..], c);
  }

  lemma RightInside(s: string, i: nat, l: string, c: char)
    requires i <= |s| && l == s[i..] && AllAre(s[..i], c) && (l != "" ==> l[0] != c)
    ensures Inside(s, TrimRight(l, c), c)
  {
    hide TrimRight, AllAre, Inside;
    TrimRightExact(l, c);
    var k :| 0 <= k <= |l| && TrimRight(l, c) == l[..k] && AllAre(l[k..], c);
    if k > 0 {
      EndsOf(s, i, k);
    }
    InsideAt(s, i, k, c);
  }

  lemma EndsOf(s: string, i: nat, k: nat)
    requires 0 < k && i + k <= |s|
    ensures s[i..][0] == s[i] && s[i..][..k] != "" && s[i..][..k][k - 1] == s[i + k - 1]
  {
  }

  /** The whole of `sanitizeName`: unsafe runs become one underscore each, underscores at the ends go, and if
      nothing is left the name is "item". */
  lemma SanitizeNameExact(v: string)
    ensures exists r :: Inside(ReplacedFrom(v, 0), r, '_') && SanitizeName(v) == if r == "" then "item" else r
  {
    hide Trim, Inside;
    CollapseFrom(v, 0);
    assert v[0..] == v;
    TrimExact(ReplacedFrom(v, 0), '_');
  }

  lemma SanitizeNameIsProjection(v: string)
    ensures SanitizeName(SanitizeName(v)) == SanitizeName(v)
  {
    SanitizeNameSafe(v);
    var l := TrimLeft(Collapse(v, false), '_');
    assert TrimRight(l, '_') != "" ==> TrimRight(l, '_')[0] == l[0];
    SanitizeNameFixedPoints(SanitizeName(v));
  }

  /** What survives of a string: its safe characters other than the underscore, in order. */
  function Kept(s: string): string {
    if s == [] then "" else (if Safe(s[0]) && s[0] != '_' then [s[0]] else "") + Kept(s[1..])
  }

  lemma {:induction false} KeptOfCollapse(v: string, inRun: bool)
    ensures Kept(Collapse(v, inRun)) == Kept(v)
  {
    if v == [] {
    } else {
      var rest := Collapse(v[1..], !Safe(v[0]));
      KeptOfCollapse(v[1..], !Safe(v[0]));
      assert ([v[0]] + rest)[1..] == rest && ("_" + rest)[1..] == rest && "" + rest == rest;
    }
  }

  lemma {:induction false} KeptOfTrimLeft(s: string)
    ensures Kept(TrimLeft(s, '_')) == Kept(s)
  {
    if s == [] || s[0] != '_' {
    } else {
      KeptOfTrimLeft(s[1..]);
    }
  }

  lemma {:induction false} KeptSnoc(s: string, c: char)
    ensures Kept(s + [c]) == Kept(s) + Kept([c])
  {
    if s == [] {
      assert s + [c] == [c];
    } else {
      KeptSnoc(s[1..], c);
      assert (s + [c])[1..] == s[1..] + [c];
    }
  }

  lemma {:induction false} KeptOfTrimRight(s: string)
    ensures Kept(TrimRight(s, '_')) == Kept(s)
  {
    if s == [] || s[|s| - 1] != '_' {
    } else {
      KeptOfTrimRight(s[..|s| - 1]);
      KeptSnoc(s[..|s| - 1], '_');
      assert s[..|s| - 1] + ['_'] == s;
    }
  }

  /** Nothing safe is lost, reordered or invented: apart from underscores, the result carries exactly
      the safe characters of the input, and "item" stands for an input that has none. */
  lemma SanitizeNameKeepsContent(v: string)
    ensures Kept(v) != "" ==> Kept(SanitizeName(v)) == Kept(v)
    ensures Kept(v) == "" ==> SanitizeName(v) == "item"
  {
    var c := Collapse(v, false);
    KeptOfCollapse(v, false);
    KeptOfTrimLeft(c);
    KeptOfTrimRight(TrimLeft(c, '_'));
    CollapseSafe(v, false);
    var t := Trim(c, '_');
    if t != "" {
      assert t[0] == TrimLeft(c, '_')[0];
      assert t[0] in TrimLeft(c, '_');
      assert Safe(t[0]) && t[0] != '_';
    }
  }

  // ---------------------------------------------------------------- backupSubdirectoryName

  /** `filepath.Base` of a path without trailing slashes. */
  function Base(path: string): string {
    if path == "" then "." else var parts := Split(path, '/'); parts[|parts| - 1]
  }

  /** The last component of an old-style local path, where it can serve as a name. */
  function LegacyName(item: BackupItem): string { Base(TrimRight(item.localTargetPath, '/')) }

  predicate HasLegacyName(item: BackupItem) {
    item.localTargetPath != "" && LegacyName(item) != "" && LegacyName(item) != "." && LegacyName(item) != "/"
  }

  function BackupSubdirectoryName(item: BackupItem): string {
    if item.backupName != "" then SanitizeName(item.backupName)
    else if HasLegacyName(item) then SanitizeName(LegacyName(item))
    else
      var trimmed := Trim(item.containerPath, '/');
      var part := ReplaceAll(if trimmed == "" then "root" else trimmed, '/', "__");
      SanitizeName(item.containerName) + "__" + SanitizeName(part)
  }

  /** Whatever an item is called, its directory name is one non-empty path component. */
  lemma SubdirectoryIsOneComponent(item: BackupItem)
    ensures BackupSubdirectoryName(item) != "" && AllSafe(BackupSubdirectoryName(item))
    ensures '/' !in BackupSubdirectoryName(item)
  {
    SanitizeNameSafe(item.backupName);
    SanitizeNameSafe(item.containerName);
    SanitizeNameSafe(LegacyName(item));
    var trimmed := Trim(item.containerPath, '/');
    SanitizeNameSafe(ReplaceAll(if trimmed == "" then "root" else trimmed, '/', "__"));
  }

  lemma {:induction false} KeptConcat(a: string, b: string)
    ensures Kept(a + b) == Kept(a) + Kept(b)
  {
    if a == [] {
      assert a + b == b;
    } else {
      KeptConcat(a[1..], b);
      assert (a + b)[1..] == a[1..] + b;
      Assoc(if Safe(a[0]) && a[0] != '_' then [a[0]] else "", Kept(a[1..]), Kept(b));
    }
  }

  lemma {:induction false} KeptWithoutSlashes(s: string)
    ensures Kept(ReplaceAll(s, '/', "__")) == Kept(s)
  {
    if s == [] {
    } else {
      var head := if s[0] == '/' then "__" else [s[0]];
      KeptWithoutSlashes(s[1..]);
      KeptConcat(head, ReplaceAll(s[1..], '/', "__"));
      KeptConcat([s[0]], s[1..]);
      assert s == [s[0]] + s[1..];
      assert Kept("__") == "" by { assert "__"[1..] == "_" && "_"[1..] == ""; }
    }
  }

  lemma {:induction false} KeptUnslashedLeft(s: string)
    ensures Kept(TrimLeft(s, '/')) == Kept(s)
  {
    if s == [] || s[0] != '/' {
    } else {
      KeptUnslashedLeft(s[1..]);
    }
  }

  lemma {:induction false} KeptUnslashedRight(s: string)
    ensures Kept(TrimRight(s, '/')) == Kept(s)
  {
    if s == [] || s[|s| - 1] != '/' {
    } else {
      KeptUnslashedRight(s[..|s| - 1]);
      KeptSnoc(s[..|s| - 1], '/');
      assert s[..|s| - 1] + ['/'] == s;
    }
  }

  /** What a name that may have nothing to keep contributes. */
  function KeptOr(s: string, fallback: string): string {
    if Kept(s) == "" then fallback else Kept(s)
  }

  /** Without an override the directory name carries the container name and then the container path; "item"
      stands for either when it has nothing to keep, and "root" for a path of slashes only. */
  lemma PairDirectoryContent(item: BackupItem)
    requires item.backupName == "" && !HasLegacyName(item)
    ensures Kept(BackupSubdirectoryName(item)) ==
            KeptOr(item.containerName, "item") +
            if Trim(item.containerPath, '/') == "" then "root" else KeptOr(item.containerPath, "item")
  {
    hide SanitizeName, Trim, ReplaceAll, Base, Kept, HasLegacyName;
    var trimmed := Trim(item.containerPath, '/');
    var part := ReplaceAll(if trimmed == "" then "root" else trimmed, '/', "__");
    KeptOfPathPart(item.containerPath);
    KeptOfSanitized(item.containerName);
    KeptOfSanitized(part);
    KeptJoined(SanitizeName(item.containerName), SanitizeName(part));
  }

  lemma KeptOfSanitized(s: string)
    ensures Kept(SanitizeName(s)) == KeptOr(s, "item")
  {
    hide SanitizeName;
    SanitizeNameKeepsContent(s);
    KeptAll("item");
  }

  lemma {:induction false} KeptAll(s: string)
    requires AllSafe(s) && '_' !in s
    ensures Kept(s) == s
  {
    if s == [] {
    } else {
      KeptAll(s[1..]);
      assert [s[0]] + s[1..] == s;
    }
  }

  lemma KeptOfPathPart(path: string)
    ensures var trimmed := Trim(path, '/');
      var part := ReplaceAll(if trimmed == "" then "root" else trimmed, '/', "__");
      KeptOr(part, "item") == if trimmed == "" then "root" else KeptOr(path, "item")
  {
    hide Kept;
    var trimmed := Trim(path, '/');
    KeptUnslashedLeft(path);
    KeptUnslashedRight(TrimLeft(path, '/'));
    KeptWithoutSlashes(if trimmed == "" then "root" else trimmed);
    KeptAll("root");
  }

  lemma KeptJoined(a: string, b: string)
    ensures Kept(a + "__" + b) == Kept(a) + Kept(b)
  {
    KeptConcat(a + "__", b);
    KeptConcat(a, "__");
    assert Kept("__") == "" by { assert "__"[1..] == "_" && "_"[1..] == ""; }
  }

  lemma TrimSlashed(s: string)
    requires s != "" && s[0] != '/' && s[|s| - 1] != '/'
    ensures Trim("/" + s, '/') == s
  {
    assert ("/" + s)[1..] == s;
    assert TrimLeft("/" + s, '/') == TrimLeft(s, '/') == s;
    assert TrimRight(s, '/') == s;
  }

  /** An explicit name decides the directory. */
  lemma NamedDirectory(item: BackupItem)
    requires item.backupName != ""
    ensures BackupSubdirectoryName(item) == SanitizeName(item.backupName)
  {
  }

  lemma AllAreParts(s: string, c: char)
    requires s != "" && AllAre(s, c)
    ensures s[0] == c && s[|s| - 1] == c && AllAre(s[1..], c) && AllAre(s[..|s| - 1], c)
  {
  }

  lemma {:induction false} TrimRightTail(s: string, tail: string, c: char)
    requires (s == "" || s[|s| - 1] != c) && AllAre(tail, c)
    ensures TrimRight(s + tail, c) == s
    decreases |tail|
  {
    if tail == "" {
      assert s + tail == s;
    } else {
      hide AllAre;
      var n := |tail| - 1;
      AllAreParts(tail, c);
      TrimRightTail(s, tail[..n], c);
      assert (s + tail)[..|s + tail| - 1] == s + tail[..n];
    }
  }

  lemma {:induction false} TrimLeftHead(head: string, s: string, c: char)
    requires (s == "" || s[0] != c) && AllAre(head, c)
    ensures TrimLeft(head + s, c) == s
  {
    if head == "" {
      assert head + s == s;
    } else {
      hide AllAre;
      AllAreParts(head, c);
      TrimLeftHead(head[1..], s, c);
      assert (head + s)[1..] == head[1..] + s;
    }
  }

  /** Otherwise the last component of an old-style local path does, slashes at its end aside. */
  lemma LegacyDirectory(item: BackupItem, parent: string, last: string, slashes: string)
    requires item.backupName == "" && item.localTargetPath == parent + last + slashes
    requires last != "" && last != "." && '/' !in last && AllAre(slashes, '/')
    requires parent == "" || parent[|parent| - 1] == '/'
    ensures BackupSubdirectoryName(item) == SanitizeName(last)
  {
    hide SanitizeName, Split;
    assert last[|last| - 1] in last && last[0] in last;
    TrimRightTail(parent + last, slashes, '/');
    SplitLast(parent, last, '/');
  }

  /** Otherwise container and path do: without a local path, or with one that is slashes only or whose last
      component is a dot. The container path is written without the slashes around it, and with two underscores
      for each slash inside. */
  lemma PairDirectory(item: BackupItem, parent: string, slashes: string, before: string, path: string, after: string)
    requires item.backupName == "" && item.containerPath == before + path + after
    requires parent == "" || parent[|parent| - 1] == '/'
    requires || AllAre(item.localTargetPath, '/')
             || (item.localTargetPath == parent + "." + slashes && AllAre(slashes, '/'))
    requires AllAre(before, '/') && AllAre(after, '/') && (path == "" ==> after == "")
    requires path != "" ==> path[0] != '/' && path[|path| - 1] != '/'
    ensures BackupSubdirectoryName(item) ==
            SanitizeName(item.containerName) + "__" +
            SanitizeName(if path == "" then "root" else ReplaceAll(path, '/', "__"))
  {
    hide SanitizeName, Split;
    NoLegacyName(item, parent, slashes);
    TrimLeftHead(before, path + after, '/');
    Assoc(before, path, after);
    TrimRightTail(path, after, '/');
    if path == "" {
      assert path + after == "";
      ReplaceNothing("root", '/', "__");
    }
  }

  lemma NoLegacyName(item: BackupItem, parent: string, slashes: string)
    requires parent == "" || parent[|parent| - 1] == '/'
    requires || AllAre(item.localTargetPath, '/')
             || (item.localTargetPath == parent + "." + slashes && AllAre(slashes, '/'))
    ensures !HasLegacyName(item)
  {
    hide Split;
    if AllAre(item.localTargetPath, '/') {
      TrimRightTail("", item.localTargetPath, '/');
      assert "" + item.localTargetPath == item.localTargetPath;
    } else {
      TrimRightTail(parent + ".", slashes, '/');
      SplitLast(parent, ".", '/');
    }
  }

  /** Directory names are not injective: a slash and a double underscore in the path give one directory,
      which is why items that must not interfere are assumed to have distinct ones. */
  lemma DirectoriesCollide(item: BackupItem, x: string, y: string)
    requires item.backupName == "" && item.localTargetPath == ""
    requires x != "" && y != "" && '/' !in x && '/' !in y
    ensures BackupSubdirectoryName(item.(containerPath := "/" + (x + "/" + y))) ==
            BackupSubdirectoryName(item.(containerPath := "/" + (x + "__" + y)))
  {
    hide SanitizeName;
    TrimSlashed(x + "/" + y);
    TrimSlashed(x + "__" + y);
    ReplaceConcat(x + "/", y, '/', "__");
    ReplaceConcat(x, "/", '/', "__");
    ReplaceConcat(x + "__", y, '/', "__");
    ReplaceConcat(x, "__", '/', "__");
    assert ReplaceAll("/", '/', "__") == "__" by { assert "/"[1..] == "" && "__" + "" == "__"; }
    assert ReplaceAll("__", '/', "__") == "__" by { ReplaceNothing("__", '/', "__"); }
  }
}
