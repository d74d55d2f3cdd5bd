/** Strings as the program compares and cuts them: byte order (which for UTF-8 is code-point
    order), `strings.Split`, `strings.TrimSuffix`, and fixed-width decimal numbers. */
module Strings {

  /** Go's `a < b` on strings. */
  predicate Less(a: string, b: string) {
    b != [] && (a == [] || a[0] < b[0] || (a[0] == b[0] && Less(a[1..], b[1..])))
  }

  /** The order, letter by letter: the first difference decides, and a proper prefix is smaller. */
  lemma {:induction false} LessMeaning(a: string, b: string)
    ensures Less(a, b) <==>
            exists k :: 0 <= k <= |a| && k < |b| && a[..k] == b[..k] && (k == |a| || a[k] < b[k])
  {
    if a == [] || b == [] || a[0] != b[0] {
      if Less(a, b) { assert a[..0] == b[..0]; }
    } else {
      var x, y := a[1..], b[1..];
      LessMeaning(x, y);
      if k :| 0 <= k <= |x| && k < |y| && x[..k] == y[..k] && (k == |x| || x[k] < y[k]) {
        assert a[..k + 1] == [a[0]] + x[..k] && b[..k + 1] == [b[0]] + y[..k];
      }
      if k :| 0 <= k <= |a| && k < |b| && a[..k] == b[..k] && (k == |a| || a[k] < b[k]) {
        assert k > 0 && x[..k - 1] == a[..k][1..] && y[..k - 1] == b[..k][1..];
        assert 0 <= k - 1 <= |x| && k - 1 < |y|;
      }
    }
  }

  lemma {:induction false} LessIrreflexive(a: string)
    ensures !Less(a, a)
  {
    if a == [] {
    } else {
      LessIrreflexive(a[1..]);
    }
  }

  lemma {:induction false} LessTransitive(a: string, b: string, c: string)
    requires Less(a, b) && Less(b, c)
    ensures Less(a, c)
  {
    if a == [] || a[0] < b[0] || b[0] < c[0] {
    } else {
      LessTransitive(a[1..], b[1..], c[1..]);
    }
  }

  lemma {:induction false} LessTotal(a: string, b: string)
    ensures Less(a, b) || a == b || Less(b, a)
  {
    if a == [] || b == [] || a[0] != b[0] {
    } else {
      LessTotal(a[1..], b[1..]);
      assert a == [a[0]] + a[1..] && b == [b[0]] + b[1..];
    }
  }

  /** A common prefix does not affect the comparison. */
  lemma {:induction false} LessAfterPrefix(p: string, x: string, y: string)
    ensures Less(p + x, p + y) <==> Less(x, y)
  {
    if p == [] {
      assert p + x == x && p + y == y;
    } else {
      LessAfterPrefix(p[1..], x, y);
      assert (p + x)[1..] == p[1..] + x && (p + y)[1..] == p[1..] + y;
    }
  }

  /** Between strings of one length the comparison is settled before anything appended to them. */
  lemma {:induction false} LessBeforeSuffix(p: string, q: string, x: string, y: string)
    requires |p| == |q| && Less(p, q)
    ensures Less(p + x, q + y)
  {
    assert (p + x)[0] == p[0] && (q + y)[0] == q[0];
    if p[0] == q[0] {
      LessBeforeSuffix(p[1..], q[1..], x, y);
      assert (p + x)[1..] == p[1..] + x && (q + y)[1..] == q[1..] + y;
    }
  }

  lemma Assoc(a: string, b: string, c: string)
    ensures a + b + c == a + (b + c)
  {
  }

  lemma Regroup(a: string, b: string, c: string, d: string)
    ensures a + b + c + d == a + (b + (c + d))
  {
  }

  predicate HasSuffix(s: string, suffix: string) {
    |s| >= |suffix| && s[|s| - |suffix|..] == suffix
  }

  function TrimSuffix(s: string, suffix: string): string {
    if HasSuffix(s, suffix) then s[..|s| - |suffix|] else s
  }

  lemma TrimSuffixExact(s: string, suffix: string)
    ensures HasSuffix(s, suffix) <==> exists p :: s == p + suffix
    ensures TrimSuffix(s + suffix, suffix) == s
    ensures !HasSuffix(s, suffix) ==> TrimSuffix(s, suffix) == s
  {
    if HasSuffix(s, suffix) {
      assert s == s[..|s| - |suffix|] + suffix;
    }
  }

  /** `strings.Split` with a one-character separator. */
  function Split(s: string, sep: char): (parts: seq<string>)
    ensures |parts| > 0
  {
    if s == [] then [""]
    else if s[0] == sep then [""] + Split(s[1..], sep)
    else
      var rest := Split(s[1..], sep);
      [[s[0]] + rest[0]] + rest[1..]
  }

  /** `strings.Join` with a one-character separator. */
  function Unsplit(parts: seq<string>, sep: char): string {
    if parts == [] then "" else if |parts| == 1 then parts[0] else parts[0] + [sep] + Unsplit(parts[1..], sep)
  }

  /** Splitting cuts at every separator and nowhere else. */
  lemma {:induction false} SplitExact(s: string, sep: char)
    ensures Unsplit(Split(s, sep), sep) == s
    ensures forall p :: p in Split(s, sep) ==> sep !in p
  {
    if s == [] {
    } else {
      var rest := Split(s[1..], sep);
      SplitExact(s[1..], sep);
      assert s == [s[0]] + s[1..];
      if s[0] == sep {
        assert ([""] + rest)[1..] == rest;
      } else {
        assert ([[s[0]] + rest[0]] + rest[1..])[1..] == rest[1..];
        if |rest| > 1 { Assoc([s[0]], rest[0], [sep] + Unsplit(rest[1..], sep)); }
        if |rest| > 1 {
          Assoc([s[0]] + rest[0], [sep], Unsplit(rest[1..], sep));
          Assoc(rest[0], [sep], Unsplit(rest[1..], sep));
        }
      }
    }
  }

  lemma {:induction false} SplitLast(p: string, b: string, sep: char)
    requires sep !in b && (p == "" || p[|p| - 1] == sep)
    ensures var parts := Split(p + b, sep); parts[|parts| - 1] == b
  {
    if p == "" {
      SplitWhole(b, sep);
      assert p + b == b;
    } else {
      SplitLast(p[1..], b, sep);
      assert (p + b)[1..] == p[1..] + b;
      if p[0] != sep {
        SplitShortens(p[1..] + b, sep);
        SplitOnce(p[1..], b, sep);
      }
    }
  }

  /** A string that contains the separator has more than one part. */
  lemma {:induction false} SplitOnce(p: string, b: string, sep: char)
    requires sep in p
    ensures |Split(p + b, sep)| > 1
  {
    assert (p + b)[1..] == p[1..] + b;
    if p[0] == sep {
    } else {
      SplitOnce(p[1..], b, sep);
    }
  }

  lemma {:induction false} SplitWhole(s: string, sep: char)
    requires sep !in s
    ensures Split(s, sep) == [s]
  {
    if s == [] {
    } else {
      SplitWhole(s[1..], sep);
      assert [s[0]] + s[1..] == s;
    }
  }

  lemma {:induction false} SplitFirst(a: string, sep: char, rest: string)
    requires sep !in a
    ensures Split(a + [sep] + rest, sep) == [a] + Split(rest, sep)
  {
    var s := a + [sep] + rest;
    if a == [] {
      assert s[1..] == rest;
    } else {
      SplitFirst(a[1..], sep, rest);
      assert s[1..] == a[1..] + [sep] + rest;
      assert [a[0]] + a[1..] == a;
    }
  }

  /** The first part of a string that does contain the separator is shorter than the string. */
  lemma {:induction false} SplitShortens(s: string, sep: char)
    ensures |Split(s, sep)[0]| <= |s|
    ensures sep in s ==> |Split(s, sep)[0]| < |s|
  {
    if s == [] || s[0] == sep {
    } else {
      SplitShortens(s[1..], sep);
    }
  }

  /** White space as Go's `unicode.IsSpace` has it. */
  predicate IsSpace(c: char) {
    || c == ' ' || '\t' <= c <= '\r' || c == '\U{85}' || c == '\U{A0}' || c == '\U{1680}'
    || '\U{2000}' <= c <= '\U{200A}' || c == '\U{2028}' || c == '\U{2029}' || c == '\U{202F}'
    || c == '\U{205F}' || c == '\U{3000}'
  }

  /** `strings.TrimSpace`. */
  function TrimSpace(s: string): (r: string)
    ensures r != "" ==> !IsSpace(r[0]) && !IsSpace(r[|r| - 1])
    decreases |s|
  {
    if s == "" then ""
    else if IsSpace(s[0]) then TrimSpace(s[1..])
    else if IsSpace(s[|s| - 1]) then TrimSpace(s[..|s| - 1])
    else s
  }

  /** `strings.ReplaceAll` of one character by a string. */
  function ReplaceAll(s: string, c: char, with_: string): string {
    if s == [] then "" else (if s[0] == c then with_ else [s[0]]) + ReplaceAll(s[1..], c, with_)
  }

  /** `r` is `s` without some white space at either end. */
  ghost predicate TrimmedTo(s: string, r: string) {
    exists i, j :: 0 <= i <= j <= |s| && r == s[i..j] && AllSpace(s[..i]) && AllSpace(s[j..])
  }

  /** Nothing but white space is trimmed. */
  lemma {:induction false} TrimSpaceExact(s: string)
    ensures TrimmedTo(s, TrimSpace(s))
    decreases |s|
  {
    hide IsSpace, TrimmedTo;
    if s == "" {
      NothingTrimmed(s);
    } else if IsSpace(s[0]) {
      TrimSpaceExact(s[1..]);
      TrimmedFront(s, TrimSpace(s));
    } else if IsSpace(s[|s| - 1]) {
      TrimSpaceExact(s[..|s| - 1]);
      TrimmedBack(s, TrimSpace(s));
    } else {
      NothingTrimmed(s);
    }
  }

  lemma NothingTrimmed(s: string)
    ensures TrimmedTo(s, s)
  {
    assert s[0..|s|] == s && AllSpace(s[..0]) && AllSpace(s[|s|..]);
  }

  lemma TrimmedAt(s: string, i: nat, j: nat)
    requires i <= j <= |s| && AllSpace(s[..i]) && AllSpace(s[j..])
    ensures TrimmedTo(s, s[i..j])
  {
    hide AllSpace;
  }

  lemma SpaceAround(c: char, s: string)
    requires IsSpace(c) && AllSpace(s)
    ensures AllSpace([c] + s) && AllSpace(s + [c])
  {
    hide IsSpace;
  }

  lemma TailSlices(s: string, i: nat, j: nat)
    requires s != "" && i <= j < |s|
    ensures s[..i + 1] == [s[0]] + s[1..][..i] && s[j + 1..] == s[1..][j..] && s[i + 1..j + 1] == s[1..][i..j]
  {
    var t := s[1..];
    assert t[j..] == s[j + 1..];
    assert t[..i] == s[1..i + 1];
    SameText(t[i..j], s[i + 1..j + 1]);
  }

  lemma SameText(a: string, b: string)
    requires |a| == |b| && forall k :: 0 <= k < |a| ==> a[k] == b[k]
    ensures a == b
  {
  }

  lemma FrontSlices(s: string, i: nat, j: nat)
    requires s != "" && i <= j < |s|
    ensures var t, c := s[..|s| - 1], s[|s| - 1];
      s[..i] == t[..i] && s[j..] == t[j..] + [c] && s[i..j] == t[i..j]
  {
    var t := s[..|s| - 1];
    assert t[j..] == s[j..|s| - 1];
    SameText(s[i..j], t[i..j]);
  }

  lemma TrimmedFront(s: string, r: string)
    requires s != "" && IsSpace(s[0]) && TrimmedTo(s[1..], r)
    ensures TrimmedTo(s, r)
  {
    hide IsSpace, AllSpace;
    var t := s[1..];
    var i, j :| 0 <= i <= j <= |t| && r == t[i..j] && AllSpace(t[..i]) && AllSpace(t[j..]);
    TailSlices(s, i, j);
    SpaceAround(s[0], t[..i]);
    TrimmedAt(s, i + 1, j + 1);
  }

  lemma TrimmedBack(s: string, r: string)
    requires s != "" && IsSpace(s[|s| - 1]) && TrimmedTo(s[..|s| - 1], r)
    ensures TrimmedTo(s, r)
  {
    hide IsSpace, AllSpace;
    var t := s[..|s| - 1];
    var i, j :| 0 <= i <= j <= |t| && r == t[i..j] && AllSpace(t[..i]) && AllSpace(t[j..]);
    FrontSlices(s, i, j);
    SpaceAround(s[|s| - 1], t[j..]);
    TrimmedAt(s, i, j);
  }

  predicate AllSpace(s: string) {
    forall i :: 0 <= i < |s| ==> IsSpace(s[i])
  }

  /** The white space of plain ASCII text. */
  lemma AsciiSpaces(c: char)
    requires c < '\U{80}'
    ensures IsSpace(c) <==> c == ' ' || c == '\t' || c == '\n' || c == '\U{0B}' || c == '\U{0C}' || c == '\r'
  {
  }

  lemma {:induction false} ReplaceConcat(a: string, b: string, c: char, w: string)
    ensures ReplaceAll(a + b, c, w) == ReplaceAll(a, c, w) + ReplaceAll(b, c, w)
  {
    if a == [] {
      assert a + b == b;
    } else {
      ReplaceConcat(a[1..], b, c, w);
      assert (a + b)[1..] == a[1..] + b;
      Assoc(if a[0] == c then w else [a[0]], ReplaceAll(a[1..], c, w), ReplaceAll(b, c, w));
    }
  }

  /** Replacing up to and including the first occurrence. */
  lemma ReplaceFirst(a: string, b: string, c: char, w: string)
    requires c !in a
    ensures ReplaceAll(a + [c] + b, c, w) == a + w + ReplaceAll(b, c, w)
  {
    ReplaceConcat(a + [c], b, c, w);
    ReplaceConcat(a, [c], c, w);
    ReplaceNothing(a, c, w);
    assert ReplaceAll([c], c, w) == w + "" == w;
  }

  lemma {:induction false} ReplaceNothing(s: string, c: char, with_: string)
    requires c !in s
    ensures ReplaceAll(s, c, with_) == s
  {
    if s == [] {
    } else {
      ReplaceNothing(s[1..], c, with_);
      assert [s[0]] + s[1..] == s;
    }
  }

  function Pow10(w: nat): (r: nat)
    ensures r > 0
  {
    if w == 0 then 1 else 10 * Pow10(w - 1)
  }

  function DigitChar(d: nat): (c: char)
    requires d < 10
    ensures '0' <= c <= '9'
  {
    '0' + d as char
  }

  predicate IsDigit(c: char) { '0' <= c <= '9' }

  /** The last `w` decimal digits of `n`, padded with zeros. */
  function Digits(w: nat, n: nat): (s: string)
    ensures |s| == w
  {
    if w == 0 then "" else Digits(w - 1, n / 10) + [DigitChar(n % 10)]
  }

  predicate AllDigits(s: string) {
    forall c :: c in s ==> IsDigit(c)
  }

  lemma {:induction false} DigitsAreDigits(w: nat, n: nat)
    ensures AllDigits(Digits(w, n))
  {
    if w == 0 {
    } else {
      DigitsAreDigits(w - 1, n / 10);
    }
  }

  /** The number a decimal numeral stands for. */
  function Number(s: string): nat
    requires AllDigits(s)
  {
    if s == "" then 0
    else
      var c := s[|s| - 1];
      assert IsDigit(c) by { assert c in s; }
      10 * Number(s[..|s| - 1]) + (c as nat - '0' as nat)
  }

  lemma {:induction false} DigitsRead(w: nat, n: nat)
    requires n < Pow10(w)
    ensures AllDigits(Digits(w, n)) && Number(Digits(w, n)) == n
  {
    DigitsAreDigits(w, n);
    if w == 0 {
    } else {
      DigitsRead(w - 1, n / 10);
      assert Digits(w, n)[..w - 1] == Digits(w - 1, n / 10);
    }
  }

  /** Fixed-width numerals compare as the numbers do. */
  lemma {:induction false} DigitsOrder(w: nat, n: nat, m: nat)
    requires n < m < Pow10(w)
    ensures Less(Digits(w, n), Digits(w, m))
  {
    if n / 10 < m / 10 {
      DigitsOrder(w - 1, n / 10, m / 10);
      LessBeforeSuffix(Digits(w - 1, n / 10), Digits(w - 1, m / 10), [DigitChar(n % 10)], [DigitChar(m % 10)]);
    } else {
      LessAfterPrefix(Digits(w - 1, n / 10), [DigitChar(n % 10)], [DigitChar(m % 10)]);
    }
  }
}
