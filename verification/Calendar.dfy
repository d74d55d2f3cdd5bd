/** UTC instants and the archive timestamp layout "20060102-150405Z". An instant is a number of
    whole seconds since 0001-01-01T00:00:00Z, Go's zero time. */
module Calendar {
  import opened Strings

  const SECONDS_PER_DAY := 86400

  datatype Date = Date(year: nat, month: nat, day: nat)

  predicate IsLeap(y: nat) { y % 4 == 0 && (y % 100 != 0 || y % 400 == 0) }

  function DaysInYear(y: nat): nat { if IsLeap(y) then 366 else 365 }

  function DaysInMonth(y: nat, m: nat): (n: nat)
    ensures n >= 28
  {
    if m == 2 then (if IsLeap(y) then 29 else 28)
    else if m == 4 || m == 6 || m == 9 || m == 11 then 30
    else 31
  }

  predicate Proper(d: Date) {
    1 <= d.month <= 12 && 1 <= d.day <= DaysInMonth(d.year, d.month)
  }

  /** The date `days` days after the first of month `m` in year `y`, counting no further than that year. */
  function InYear(y: nat, m: nat, days: nat): Date
    requires 1 <= m <= 12
    decreases 12 - m
  {
    if m == 12 || days < DaysInMonth(y, m) then Date(y, m, days + 1)
    else InYear(y, m + 1, days - DaysInMonth(y, m))
  }

  /** The date `days` days after the first of January of year `y`. */
  function After(y: nat, days: nat): Date
    decreases days
  {
    if days < DaysInYear(y) then InYear(y, 1, days) else After(y + 1, days - DaysInYear(y))
  }

  /** The UTC date, day 0 being 0001-01-01. */
  function DateOf(days: nat): Date { After(1, days) }

  function NextDay(d: Date): Date {
    if d.day < DaysInMonth(d.year, d.month) then d.(day := d.day + 1)
    else if d.month < 12 then Date(d.year, d.month + 1, 1)
    else Date(d.year + 1, 1, 1)
  }

  function DaysLeft(y: nat, m: nat): nat
    requires 1 <= m <= 13
    decreases 13 - m
  {
    if m == 13 then 0 else DaysInMonth(y, m) + DaysLeft(y, m + 1)
  }

  lemma YearIsItsMonths(y: nat)
    ensures DaysLeft(y, 1) == DaysInYear(y)
  {
    assert DaysLeft(y, 11) == 61;
    assert DaysLeft(y, 9) == 122;
    assert DaysLeft(y, 7) == 184;
    assert DaysLeft(y, 5) == 245;
    assert DaysLeft(y, 3) == 306;
  }

  lemma {:induction false} InYearSteps(y: nat, m: nat, days: nat)
    requires 1 <= m <= 12 && days < DaysLeft(y, m)
    ensures Proper(InYear(y, m, days)) && InYear(y, m, days).year == y
    ensures NextDay(InYear(y, m, days)) ==
            if days + 1 < DaysLeft(y, m) then InYear(y, m, days + 1) else Date(y + 1, 1, 1)
    decreases 12 - m
  {
    hide DaysInMonth, IsLeap;
    if m == 12 || days < DaysInMonth(y, m) {
    } else {
      InYearSteps(y, m + 1, days - DaysInMonth(y, m));
    }
  }

  lemma {:induction false} AfterSteps(y: nat, days: nat)
    ensures Proper(After(y, days))
    ensures NextDay(After(y, days)) == After(y, days + 1)
    decreases days
  {
    YearIsItsMonths(y);
    if days < DaysInYear(y) {
      InYearSteps(y, 1, days);
    } else {
      AfterSteps(y + 1, days - DaysInYear(y));
    }
  }

  /** The calendar conversion is the Gregorian one: it starts at 0001-01-01 and goes day by day. */
  lemma DateOfIsGregorian(days: nat)
    ensures DateOf(0) == Date(1, 1, 1)
    ensures DateOf(days + 1) == NextDay(DateOf(days)) && Proper(DateOf(days))
  {
    AfterSteps(1, days);
  }

  predicate EarlierDate(a: Date, b: Date) {
    a.year < b.year || (a.year == b.year && (a.month < b.month || (a.month == b.month && a.day < b.day)))
  }

  /** A later day is never written as an earlier or equal date. */
  lemma {:induction false} DateOfAscends(a: nat, b: nat)
    requires a < b
    ensures EarlierDate(DateOf(a), DateOf(b))
    decreases b
  {
    DateOfIsGregorian(b - 1);
    if a + 1 == b {
    } else {
      DateOfAscends(a, b - 1);
    }
  }

  // ---------------------------------------------------------------- the calendar in numbers

  /** The days of the years 1 to `y`. */
  function DaysOfYears(y: nat): nat { 365 * y + y / 4 - y / 100 + y / 400 }

  /** The days of a common year before each month. */
  const BEFORE_MONTH: seq<nat> := [0, 31, 59, 90, 120, 151, 181, 212, 243, 273, 304, 334]

  const MONTH_LENGTH: seq<nat> := [31, 28, 31, 30, 31, 30, 31, 31, 30, 31, 30, 31]

  /** The days before a date. */
  function DayNumber(y: nat, m: nat, d: nat): nat
    requires y >= 1 && 1 <= m <= 12 && d >= 1
  {
    DaysOfYears(y - 1) + BEFORE_MONTH[m - 1] + (if m > 2 then LeapDay(y) else 0) + d - 1
  }

  function LeapDay(y: nat): nat { if IsLeap(y) then 1 else 0 }

  lemma QuotientStep(y: nat, d: nat)
    requires d > 0
    ensures (y + 1) / d == y / d + if (y + 1) % d == 0 then 1 else 0
  {
    var q, r := y / d, y % d;
    assert y == q * d + r;
    if r + 1 == d {
      assert y + 1 == (q + 1) * d;
      DivUnique(y + 1, d, q + 1, 0);
    } else {
      DivUnique(y + 1, d, q, r + 1);
    }
  }

  lemma DivUnique(n: nat, d: nat, q: nat, r: nat)
    requires d > 0 && r < d && n == q * d + r
    ensures n / d == q && n % d == r
  {
    var e := n / d - q;
    assert e * d == r - n % d by {
      assert n == (n / d) * d + n % d;
      assert (n / d - q) * d == (n / d) * d - q * d;
    }
    Scaled(e, d);
  }

  lemma Scaled(e: int, d: nat)
    ensures e >= 1 ==> e * d >= d
    ensures e <= -1 ==> e * d + d <= 0
  {
  }

  /** A multiple of a product is a multiple of its factor. */
  lemma DividesToo(y: nat, d: nat, k: nat)
    requires d > 0 && k > 0 && y % (d * k) == 0
    ensures y % d == 0
  {
    var q := y / (d * k);
    assert y == q * (d * k) == (q * k) * d;
    DivUnique(y, d, q * k, 0);
  }

  lemma OneMoreYear(y: nat)
    ensures DaysOfYears(y + 1) == DaysOfYears(y) + 365 + LeapDay(y + 1)
    ensures DaysInYear(y + 1) == 365 + LeapDay(y + 1)
  {
    QuotientStep(y, 4);
    QuotientStep(y, 100);
    QuotientStep(y, 400);
    if (y + 1) % 100 == 0 { DividesToo(y + 1, 4, 25); }
    if (y + 1) % 400 == 0 { DividesToo(y + 1, 100, 4); }
  }

  lemma {:induction false} AfterYears(y: nat, days: nat)
    ensures DateOf(DaysOfYears(y) + days) == After(y + 1, days)
  {
    hide DaysInYear, After, LeapDay;
    if y == 0 {
    } else {
      OneMoreYear(y - 1);
      OverOneYear(y, days);
      YearsSum(y, days);
      AfterYears(y - 1, DaysInYear(y) + days);
    }
  }

  lemma OverOneYear(y: nat, days: nat)
    ensures After(y, DaysInYear(y) + days) == After(y + 1, days)
  {
    hide DaysInYear, InYear;
  }

  lemma YearsSum(y: nat, days: nat)
    requires y > 0
    ensures DaysOfYears(y) + days == DaysOfYears(y - 1) + (DaysInYear(y) + days)
  {
    hide DaysOfYears, DaysInYear, LeapDay;
    OneMoreYear(y - 1);
  }

  /** Every date of the Gregorian calendar, by the number of days before it. */
  lemma DateOfDay(y: nat, m: nat, d: nat)
    requires y >= 1 && 1 <= m <= 12
    requires 1 <= d <= MONTH_LENGTH[m - 1] + (if m == 2 then LeapDay(y) else 0)
    ensures DateOf(DayNumber(y, m, d)) == Date(y, m, d)
  {
    hide DateOf, After, InYear, DaysOfYears, LeapDay, DaysInMonth;
    var before := BEFORE_MONTH[m - 1] + if m > 2 then LeapDay(y) else 0;
    AfterYears(y - 1, before + d - 1);
    MonthLengths(y, m);
    MonthStart(y, m, d - 1);
    StaysInYear(y, m, d);
  }

  /** A date's day of the year is one of that year. */
  lemma StaysInYear(y: nat, m: nat, d: nat)
    requires 1 <= m <= 12
    requires 1 <= d <= MONTH_LENGTH[m - 1] + (if m == 2 then LeapDay(y) else 0)
    ensures var days := BEFORE_MONTH[m - 1] + (if m > 2 then LeapDay(y) else 0) + d - 1;
      days < DaysInYear(y) && After(y, days) == InYear(y, 1, days)
  {
    hide InYear, IsLeap;
  }

  /** In particular the first of January of every year. */
  lemma NewYear(y: nat)
    ensures DateOf(365 * y + y / 4 - y / 100 + y / 400) == Date(y + 1, 1, 1)
  {
    DateOfDay(y + 1, 1, 1);
  }

  /** And the first of every other month, as a number of days. */
  lemma MonthStarts(y: nat)
    ensures var before := 365 * y + y / 4 - y / 100 + y / 400;
      var leap := if (y + 1) % 4 == 0 && ((y + 1) % 100 != 0 || (y + 1) % 400 == 0) then 1 else 0;
      && DateOf(before + 31) == Date(y + 1, 2, 1) && DateOf(before + 59 + leap) == Date(y + 1, 3, 1)
      && DateOf(before + 90 + leap) == Date(y + 1, 4, 1) && DateOf(before + 120 + leap) == Date(y + 1, 5, 1)
      && DateOf(before + 151 + leap) == Date(y + 1, 6, 1) && DateOf(before + 181 + leap) == Date(y + 1, 7, 1)
      && DateOf(before + 212 + leap) == Date(y + 1, 8, 1) && DateOf(before + 243 + leap) == Date(y + 1, 9, 1)
      && DateOf(before + 273 + leap) == Date(y + 1, 10, 1) && DateOf(before + 304 + leap) == Date(y + 1, 11, 1)
      && DateOf(before + 334 + leap) == Date(y + 1, 12, 1)
  {
    hide DateOf, LeapDay, IsLeap;
    LeapDays(y + 1);
    FirstOfMonth(y, 2);
    FirstOfMonth(y, 3);
    FirstOfMonth(y, 4);
    FirstOfMonth(y, 5);
    FirstOfMonth(y, 6);
    FirstOfMonth(y, 7);
    FirstOfMonth(y, 8);
    FirstOfMonth(y, 9);
    FirstOfMonth(y, 10);
    FirstOfMonth(y, 11);
    FirstOfMonth(y, 12);
  }

  lemma FirstOfMonth(y: nat, m: nat)
    requires 1 <= m <= 12
    ensures DateOf(365 * y + y / 4 - y / 100 + y / 400 + BEFORE_MONTH[m - 1] + if m > 2 then LeapDay(y + 1) else 0) ==
            Date(y + 1, m, 1)
  {
    hide DateOf, LeapDay, IsLeap;
    DateOfDay(y + 1, m, 1);
  }

  lemma LeapDays(y: nat)
    ensures LeapDay(y) == if y % 4 == 0 && (y % 100 != 0 || y % 400 == 0) then 1 else 0
  {
  }


  lemma MonthLengths(y: nat, m: nat)
    requires 1 <= m <= 12
    ensures DaysInMonth(y, m) == MONTH_LENGTH[m - 1] + (if m == 2 then LeapDay(y) else 0)
    ensures m < 12 ==> BEFORE_MONTH[m] == BEFORE_MONTH[m - 1] + MONTH_LENGTH[m - 1]
  {
    hide IsLeap;
  }

  lemma {:induction false} MonthStart(y: nat, m: nat, days: nat)
    requires 1 <= m <= 12 && days < DaysInMonth(y, m)
    ensures var before := BEFORE_MONTH[m - 1] + if m > 2 then LeapDay(y) else 0;
      InYear(y, 1, before + days) == Date(y, m, days + 1)
  {
    MonthAhead(y, m, days);
  }

  /** Counting from January gets to month `m` once the months before it are over. */
  lemma {:induction false} MonthAhead(y: nat, m: nat, days: nat)
    requires 1 <= m <= 12
    ensures var before := BEFORE_MONTH[m - 1] + if m > 2 then LeapDay(y) else 0;
      InYear(y, 1, before + days) == InYear(y, m, days)
  {
    hide DaysInMonth;
    if m == 1 {
    } else {
      MonthLengths(y, m - 1);
      MonthAhead(y, m - 1, DaysInMonth(y, m - 1) + days);
    }
  }

  // ---------------------------------------------------------------- the timestamp layout

  /** A layout is a list of fixed-width numbers and literal text. */
  datatype Field = Num(width: nat, value: nat) | Text(text: string)

  function FieldText(f: Field): string {
    match f
    case Num(w, v) => Digits(w, v)
    case Text(t) => t
  }

  function Layout(fs: seq<Field>): string {
    if fs == [] then "" else FieldText(fs[0]) + Layout(fs[1..])
  }

  /** Years have four digits with zero padding, more when they need them. */
  function YearWidth(y: nat): (w: nat)
    ensures w >= 4
  {
    if y < 10000 then 4 else YearWidth(y / 10) + 1
  }

  function StampFields(d: Date, t: nat): seq<Field> {
    [Num(YearWidth(d.year), d.year), Num(2, d.month), Num(2, d.day), Text("-"),
     Num(2, t / 3600), Num(2, t / 60 % 60), Num(2, t % 60), Text("Z")]
  }

  /** `time.Format("20060102-150405Z")`. */
  function Timestamp(sec: nat): string {
    Layout(StampFields(DateOf(sec / SECONDS_PER_DAY), sec % SECONDS_PER_DAY))
  }

  lemma {:induction false} LayoutConcat(fs: seq<Field>, gs: seq<Field>)
    ensures Layout(fs + gs) == Layout(fs) + Layout(gs)
  {
    if fs == [] {
      assert fs + gs == gs;
    } else {
      LayoutConcat(fs[1..], gs);
      assert (fs + gs)[1..] == fs[1..] + gs;
      Assoc(FieldText(fs[0]), Layout(fs[1..]), Layout(gs));
    }
  }

  /** A character no literal contains and that is no digit does not appear. */
  lemma {:induction false} LayoutAvoids(fs: seq<Field>, c: char)
    requires !IsDigit(c) && forall f :: f in fs && f.Text? ==> c !in f.text
    ensures c !in Layout(fs)
  {
    if fs == [] {
    } else {
      if fs[0].Num? { DigitsAreDigits(fs[0].width, fs[0].value); }
      assert forall f :: f in fs[1..] ==> f in fs;
      LayoutAvoids(fs[1..], c);
    }
  }

  /** The first field in which two layouts differ decides, whatever follows them. */
  lemma {:induction false} LayoutOrder(fs: seq<Field>, gs: seq<Field>, k: nat, x: string, y: string)
    requires k < |fs| && k < |gs| && fs[..k] == gs[..k]
    requires fs[k].Num? && gs[k].Num? && fs[k].width == gs[k].width
    requires fs[k].value < gs[k].value < Pow10(fs[k].width)
    ensures Less(Layout(fs) + x, Layout(gs) + y)
    decreases k
  {
    Assoc(FieldText(fs[0]), Layout(fs[1..]), x);
    Assoc(FieldText(gs[0]), Layout(gs[1..]), y);
    if k == 0 {
      DigitsOrder(fs[0].width, fs[0].value, gs[0].value);
      LessBeforeSuffix(FieldText(fs[0]), FieldText(gs[0]), Layout(fs[1..]) + x, Layout(gs[1..]) + y);
    } else {
      assert fs[0] == fs[..k][0] == gs[..k][0] == gs[0];
      assert fs[1..][..k - 1] == fs[..k][1..] == gs[..k][1..] == gs[1..][..k - 1];
      LayoutOrder(fs[1..], gs[1..], k - 1, x, y);
      LessAfterPrefix(FieldText(fs[0]), Layout(fs[1..]) + x, Layout(gs[1..]) + y);
    }
  }

  // ---------------------------------------------------------------- name order is time order

  /** The second falls in a year of at most four digits. */
  predicate FourDigitYear(sec: nat) {
    DateOf(sec / SECONDS_PER_DAY).year < 10000
  }

  lemma EarlierYears(s: nat, t: nat)
    requires s <= t
    ensures DateOf(s / SECONDS_PER_DAY).year <= DateOf(t / SECONDS_PER_DAY).year
  {
    if s / SECONDS_PER_DAY < t / SECONDS_PER_DAY {
      DateOfAscends(s / SECONDS_PER_DAY, t / SECONDS_PER_DAY);
    }
  }

  lemma ClockFieldsAscend(s: nat, t: nat)
    requires s < t < SECONDS_PER_DAY
    ensures t / 3600 < 24 && t / 60 % 60 < 60 && t % 60 < 60
    ensures s / 3600 < t / 3600 || (s / 3600 == t / 3600 &&
            (s / 60 % 60 < t / 60 % 60 || (s / 60 % 60 == t / 60 % 60 && s % 60 < t % 60)))
  {
    var hs, ms, ht, mt := s / 3600, s / 60, t / 3600, t / 60;
    assert hs == ms / 60 && ht == mt / 60;
    assert s == 60 * ms + s % 60 && t == 60 * mt + t % 60;
    assert ms == 60 * hs + ms % 60 && mt == 60 * ht + mt % 60;
  }

  lemma YearWidths(y: nat)
    requires y < 100000
    ensures YearWidth(y) == if y < 10000 then 4 else 5
    ensures y < Pow10(YearWidth(y)) && Pow10(2) == 100
  {
    assert Pow10(1) == 10 && Pow10(3) == 1000;
  }

  /** The first differing field of two instants, the earlier one having the smaller value there. */
  lemma FirstDifference(a: Date, s: nat, b: Date, t: nat) returns (k: nat)
    requires Proper(a) && Proper(b) && s < SECONDS_PER_DAY && t < SECONDS_PER_DAY
    requires EarlierDate(a, b) || (a == b && s < t)
    requires b.year < 100000 && (a.year < 10000 <==> b.year < 10000)
    ensures var fs, gs := StampFields(a, s), StampFields(b, t);
      && k < |fs| == |gs| && fs[..k] == gs[..k]
      && fs[k].Num? && gs[k].Num? && fs[k].width == gs[k].width && fs[k].value < gs[k].value < Pow10(fs[k].width)
  {
    YearWidths(a.year);
    YearWidths(b.year);
    if a == b {
      ClockFieldsAscend(s, t);
      k := if s / 3600 < t / 3600 then 4 else if s / 60 % 60 < t / 60 % 60 then 5 else 6;
    } else {
      k := if a.year < b.year then 0 else if a.month < b.month then 1 else 2;
    }
  }

  lemma SameWidthOrder(s: nat, t: nat, x: string, y: string)
    requires s < t && DateOf(t / SECONDS_PER_DAY).year < 100000
    requires FourDigitYear(s) <==> FourDigitYear(t)
    ensures Less(Timestamp(s) + x, Timestamp(t) + y)
  {
    hide DateOf, Layout, StampFields;
    var ds, dt, cs, ct := s / SECONDS_PER_DAY, t / SECONDS_PER_DAY, s % SECONDS_PER_DAY, t % SECONDS_PER_DAY;
    DateOfIsGregorian(ds);
    DateOfIsGregorian(dt);
    if ds < dt { DateOfAscends(ds, dt); }
    var k := FirstDifference(DateOf(ds), cs, DateOf(dt), ct);
    LayoutOrder(StampFields(DateOf(ds), cs), StampFields(DateOf(dt), ct), k, x, y);
  }

  /** Up to year 9999 an earlier second has the smaller timestamp, whatever follows the timestamp. */
  lemma TimestampOrder(s: nat, t: nat, x: string, y: string)
    requires s < t && FourDigitYear(t)
    ensures Less(Timestamp(s) + x, Timestamp(t) + y)
  {
    EarlierYears(s, t);
    SameWidthOrder(s, t, x, y);
  }

  lemma YearFirstDigit(y: nat)
    requires 2000 <= y < 20000
    ensures if y < 10000 then Digits(YearWidth(y), y)[0] >= '2' else Digits(YearWidth(y), y)[0] == '1'
  {
    YearWidths(y);
    var z := if y < 10000 then y else y / 10;
    assert y >= 10000 ==> Digits(5, y)[0] == Digits(4, z)[0];
    assert Digits(4, z)[0] == Digits(3, z / 10)[0] == Digits(2, z / 10 / 10)[0] == Digits(1, z / 10 / 10 / 10)[0];
  }

  /** Exactly when the order holds: among seconds of the years 2000 to 19999, a later second has the
      larger timestamp if and only if the two years have the same number of digits. */
  lemma TimestampOrderExact(s: nat, t: nat, x: string, y: string)
    requires s < t && 2000 <= DateOf(s / SECONDS_PER_DAY).year && DateOf(t / SECONDS_PER_DAY).year < 20000
    ensures Less(Timestamp(s) + x, Timestamp(t) + y) <==> (FourDigitYear(s) <==> FourDigitYear(t))
  {
    hide DateOf, Timestamp, YearWidth, Digits;
    EarlierYears(s, t);
    if FourDigitYear(s) <==> FourDigitYear(t) {
      SameWidthOrder(s, t, x, y);
    } else {
      YearFirstDigit(DateOf(s / SECONDS_PER_DAY).year);
      YearFirstDigit(DateOf(t / SECONDS_PER_DAY).year);
      TimestampHead(s);
      TimestampHead(t);
      assert (Timestamp(s) + x)[0] == Timestamp(s)[0] && (Timestamp(t) + y)[0] == Timestamp(t)[0];
    }
  }

  lemma TimestampHead(sec: nat)
    ensures var y := DateOf(sec / SECONDS_PER_DAY).year;
      |Timestamp(sec)| > 0 && Timestamp(sec)[0] == Digits(YearWidth(y), y)[0] && IsDigit(Timestamp(sec)[0])
  {
    hide DateOf, YearWidth, Digits;
    var d := DateOf(sec / SECONDS_PER_DAY);
    var fs := StampFields(d, sec % SECONDS_PER_DAY);
    assert fs[0] == Num(YearWidth(d.year), d.year);
    assert Timestamp(sec) == FieldText(fs[0]) + Layout(fs[1..]);
    DigitsAreDigits(YearWidth(d.year), d.year);
    assert Digits(YearWidth(d.year), d.year)[0] in Digits(YearWidth(d.year), d.year);
  }

  function FieldsAt(sec: nat): seq<Field> { StampFields(DateOf(sec / SECONDS_PER_DAY), sec % SECONDS_PER_DAY) }

  function DayText(sec: nat): string { Layout(FieldsAt(sec)[..3]) }

  function ClockText(sec: nat): string { Layout(FieldsAt(sec)[4..]) }

  /** The two dash-free halves of a timestamp. */
  lemma TimestampHalves(sec: nat)
    ensures Timestamp(sec) == DayText(sec) + "-" + ClockText(sec)
    ensures '-' !in DayText(sec) && '-' !in ClockText(sec) && '.' !in Timestamp(sec)
  {
    hide DateOf, YearWidth, Digits;
    var fs := FieldsAt(sec);
    assert fs == fs[..3] + [Text("-")] + fs[4..];
    LayoutConcat(fs[..3] + [Text("-")], fs[4..]);
    LayoutConcat(fs[..3], [Text("-")]);
    assert Layout([Text("-")]) == "-" by { assert [Text("-")][1..] == [] && "-" + "" == "-"; }
    LayoutAvoids(fs[..3], '-');
    LayoutAvoids(fs[4..], '-');
    LayoutAvoids(fs, '.');
  }

  lemma {:induction false} YearFits(y: nat)
    ensures y < Pow10(YearWidth(y))
    ensures if y < 10000 then YearWidth(y) == 4 else Pow10(YearWidth(y) - 1) <= y
  {
    if y < 10000 {
      assert Pow10(1) == 10 && Pow10(2) == 100 && Pow10(3) == 1000 && Pow10(4) == 10000;
    } else {
      YearFits(y / 10);
      assert Pow10(1) == 10 && Pow10(2) == 100 && Pow10(3) == 1000 && Pow10(4) == 10000;
    }
  }

  lemma LayoutFrom(fs: seq<Field>, k: nat)
    requires k < |fs|
    ensures Layout(fs[k..]) == FieldText(fs[k]) + Layout(fs[k + 1..])
  {
    assert fs[k..][1..] == fs[k + 1..];
  }

  /** The text of a timestamp: year, month and day, a dash, hour, minute and second, and a Z. */
  lemma TimestampText(sec: nat)
    ensures var d, t := DateOf(sec / SECONDS_PER_DAY), sec % 86400;
      Timestamp(sec) ==
      Digits(YearWidth(d.year), d.year) + (Digits(2, d.month) + (Digits(2, d.day) + ("-" +
      (Digits(2, t / 3600) + (Digits(2, t / 60 % 60) + (Digits(2, t % 60) + "Z"))))))
  {
    hide DateOf, YearWidth, Digits, Layout;
    LayoutOfEight(FieldsAt(sec));
  }

  lemma LayoutOfEight(fs: seq<Field>)
    requires |fs| == 8 && fs[7] == Text("Z")
    ensures Layout(fs) ==
      FieldText(fs[0]) + (FieldText(fs[1]) + (FieldText(fs[2]) + (FieldText(fs[3]) +
      (FieldText(fs[4]) + (FieldText(fs[5]) + (FieldText(fs[6]) + "Z"))))))
  {
    hide Layout;
    LayoutFrom(fs, 0);
    LayoutFrom(fs, 1);
    LayoutFrom(fs, 2);
    LayoutFrom(fs, 3);
    LayoutFrom(fs, 4);
    LayoutFrom(fs, 5);
    LayoutFrom(fs, 6);
    LayoutFrom(fs, 7);
    NoFields();
    assert fs[0..] == fs && fs[8..] == [] && "Z" + "" == "Z";
  }

  lemma NoFields()
    ensures Layout([]) == ""
  {
  }

  /** The second a date and time of day stand for. */
  function SecondOf(y: nat, m: nat, d: nat, hour: nat, minute: nat, second: nat): nat
    requires y >= 1 && 1 <= m <= 12 && d >= 1
  {
    86400 * DayNumber(y, m, d) + 3600 * hour + 60 * minute + second
  }

  lemma TimeOfDay(day: nat, hour: nat, minute: nat, second: nat)
    requires hour < 24 && minute < 60 && second < 60
    ensures var sec := 86400 * day + 3600 * hour + 60 * minute + second;
      && sec / 86400 == day
      && sec % 86400 / 3600 == hour && sec % 86400 / 60 % 60 == minute && sec % 86400 % 60 == second
  {
    var t := 3600 * hour + 60 * minute + second;
    DivUnique(86400 * day + t, 86400, day, t);
    DivUnique(t, 3600, hour, 60 * minute + second);
    DivUnique(t, 60, 60 * hour + minute, second);
    DivUnique(60 * hour + minute, 60, hour, minute);
  }

  /** The timestamp of every date and time of day up to year 9999 is the date and time as digits. */
  lemma TimestampOfDate(y: nat, m: nat, d: nat, hour: nat, minute: nat, second: nat)
    requires 1 <= y < 10000 && 1 <= m <= 12
    requires 1 <= d <= MONTH_LENGTH[m - 1] + (if m == 2 then LeapDay(y) else 0)
    requires hour < 24 && minute < 60 && second < 60
    ensures Timestamp(SecondOf(y, m, d, hour, minute, second)) ==
      Digits(4, y) + (Digits(2, m) + (Digits(2, d) + ("-" +
      (Digits(2, hour) + (Digits(2, minute) + (Digits(2, second) + "Z"))))))
  {
    hide Timestamp, SecondOf, Digits, LeapDay, YearWidth, DateOf;
    SecondSplits(y, m, d, hour, minute, second);
    TimestampText(SecondOf(y, m, d, hour, minute, second));
    YearFits(y);
  }

  lemma SecondSplits(y: nat, m: nat, d: nat, hour: nat, minute: nat, second: nat)
    requires y >= 1 && 1 <= m <= 12 && hour < 24 && minute < 60 && second < 60
    requires 1 <= d <= MONTH_LENGTH[m - 1] + (if m == 2 then LeapDay(y) else 0)
    ensures var sec := SecondOf(y, m, d, hour, minute, second);
      && DateOf(sec / SECONDS_PER_DAY) == Date(y, m, d)
      && sec % 86400 / 3600 == hour && sec % 86400 / 60 % 60 == minute && sec % 86400 % 60 == second
  {
    hide DateOf, DayNumber, LeapDay;
    TimeOfDay(DayNumber(y, m, d), hour, minute, second);
    DateOfDay(y, m, d);
  }

  /** Every second is the second of a date and time of day. */
  lemma SecondHasDate(sec: nat)
    ensures var d, t := DateOf(sec / SECONDS_PER_DAY), sec % 86400;
      && d.year >= 1 && 1 <= d.month <= 12 && 1 <= d.day
      && sec == SecondOf(d.year, d.month, d.day, t / 3600, t / 60 % 60, t % 60)
  {
    hide DateOf, DayNumber;
    DayHasDate(sec / SECONDS_PER_DAY);
  }

  lemma {:induction false} DayHasDate(days: nat)
    ensures var d := DateOf(days); Proper(d) && d.year >= 1 && days == DayNumber(d.year, d.month, d.day)
  {
    hide After, DayNumber, NextDay, Proper;
    DateOfIsGregorian(days);
    FirstDay();
    if days == 0 {
    } else {
      DayHasDate(days - 1);
      DateOfIsGregorian(days - 1);
      NextDayNumber(DateOf(days - 1));
    }
  }

  lemma FirstDay()
    ensures Proper(Date(1, 1, 1)) && DayNumber(1, 1, 1) == 0
  {
  }

  lemma NextDayNumber(d: Date)
    requires Proper(d) && d.year >= 1
    ensures var n := NextDay(d);
      Proper(n) && n.year >= 1 && DayNumber(n.year, n.month, n.day) == DayNumber(d.year, d.month, d.day) + 1
  {
    hide DaysOfYears;
    MonthLengths(d.year, d.month);
    OneMoreYear(d.year - 1);
  }

  // ---------------------------------------------------------------- reading a timestamp back

  predicate Reads(s: string, n: nat) { AllDigits(s) && Number(s) == n }

  /** Where the parts of a text of this layout stand. */
  lemma LayoutSlices(y: string, m: string, d: string, hour: string, minute: string, second: string)
    requires |m| == 2 && |d| == 2 && |hour| == 2 && |minute| == 2 && |second| == 2
    ensures var t, w := y + (m + (d + ("-" + (hour + (minute + (second + "Z")))))), |y|;
      && |t| == w + 12 && t[..w] == y && t[w..w + 2] == m && t[w + 2..w + 4] == d && t[w + 4] == '-'
      && t[w + 5..w + 7] == hour && t[w + 7..w + 9] == minute && t[w + 9..w + 11] == second && t[w + 11] == 'Z'
  {
  }

  /** A timestamp reads back, in any year: the digits of the year end twelve places from the end, and then come
      month, day, a dash, hour, minute, second and a Z; the second they stand for is the one that was printed. */
  lemma TimestampReads(sec: nat)
    ensures var t, d, clock := Timestamp(sec), DateOf(sec / SECONDS_PER_DAY), sec % 86400;
      && |t| >= 16
      && var w := |t| - 12;
         && Reads(t[..w], d.year) && Reads(t[w..w + 2], d.month) && Reads(t[w + 2..w + 4], d.day)
         && t[w + 4] == '-' && t[w + 11] == 'Z'
         && Reads(t[w + 5..w + 7], clock / 3600) && Reads(t[w + 7..w + 9], clock / 60 % 60)
         && Reads(t[w + 9..w + 11], clock % 60)
         && d.year >= 1 && 1 <= d.month <= 12 && d.day >= 1
         && sec == SecondOf(d.year, d.month, d.day, clock / 3600, clock / 60 % 60, clock % 60)
  {
    hide Timestamp, DateOf, SecondOf, Digits, YearWidth, Reads;
    var d, clock := DateOf(sec / SECONDS_PER_DAY), sec % 86400;
    TimestampText(sec);
    SecondHasDate(sec);
    YearFits(d.year);
    DayFits(sec / SECONDS_PER_DAY);
    NumeralReads(YearWidth(d.year), d.year);
    TwoDigits(d.month);
    TwoDigits(d.day);
    TwoDigits(clock / 3600);
    TwoDigits(clock / 60 % 60);
    TwoDigits(clock % 60);
    LayoutSlices(Digits(YearWidth(d.year), d.year), Digits(2, d.month), Digits(2, d.day),
                 Digits(2, clock / 3600), Digits(2, clock / 60 % 60), Digits(2, clock % 60));
  }

  lemma NumeralReads(w: nat, n: nat)
    requires n < Pow10(w)
    ensures Reads(Digits(w, n), n)
  {
    DigitsRead(w, n);
  }

  lemma TwoDigits(n: nat)
    requires n < 100
    ensures Reads(Digits(2, n), n)
  {
    assert Pow10(1) == 10 && Pow10(2) == 100;
    NumeralReads(2, n);
  }

  lemma DayFits(days: nat)
    ensures DateOf(days).month <= 12 && DateOf(days).day <= 31
  {
    hide DateOf;
    DateOfIsGregorian(days);
  }
}
