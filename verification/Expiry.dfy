/** The expiry test of do_updatedb: two-digit-year UTCTime texts compared as strings. */
module Expiry {
  import opened CStrings

  predicate Digit(c: char) { '0' <= c <= '9' }

  function Val(c: char): int
    requires Digit(c)
  {
    c as int - '0' as int
  }

  predicate AllDigits(s: string) {
    forall i :: 0 <= i < |s| ==> Digit(s[i])
  }

  /** YYMMDDHHMMSSZ, the only UTCTime form of section 4.1.2.5.1 of RFC 5280. */
  predicate Utc(s: string) {
    |s| == 13 && AllDigits(s[..12]) && s[12] == 'Z'
  }

  /** YYMMDDHHMMZ: the seconds left out, which ASN1_UTCTIME_check also accepts. */
  predicate UtcNoSeconds(s: string) {
    |s| == 11 && AllDigits(s[..10]) && s[10] == 'Z'
  }

  /** YYYYMMDDHHMMSSZ, the GeneralizedTime form of section 4.1.2.5.2 of RFC 5280. */
  predicate Generalized(s: string) {
    |s| == 15 && AllDigits(s[..14]) && s[14] == 'Z'
  }

  datatype Instant = Instant(year: int, month: int, day: int, hour: int, minute: int, second: int)

  /** Calendar order: the first differing field decides. */
  predicate AtOrBefore(a: Instant, b: Instant) {
    if a.year != b.year then a.year < b.year
    else if a.month != b.month then a.month < b.month
    else if a.day != b.day then a.day < b.day
    else if a.hour != b.hour then a.hour < b.hour
    else if a.minute != b.minute then a.minute < b.minute
    else a.second <= b.second
  }

  function Pair(s: string, i: nat): int
    requires i + 1 < |s| && Digit(s[i]) && Digit(s[i + 1])
  {
    10 * Val(s[i]) + Val(s[i + 1])
  }

  /** RFC 5280: YY of 50 or more means 19YY, otherwise 20YY. */
  function Century(yy: int): int {
    if yy >= 50 then 1900 + yy else 2000 + yy
  }

  function UtcInstant(s: string): Instant
    requires Utc(s)
  {
    assert forall i :: 0 <= i < 12 ==> s[..12][i] == s[i];
    Instant(Century(Pair(s, 0)), Pair(s, 2), Pair(s, 4), Pair(s, 6), Pair(s, 8), Pair(s, 10))
  }

  function UtcNoSecondsInstant(s: string): Instant
    requires UtcNoSeconds(s)
  {
    assert forall i :: 0 <= i < 10 ==> s[..10][i] == s[i];
    Instant(Century(Pair(s, 0)), Pair(s, 2), Pair(s, 4), Pair(s, 6), Pair(s, 8), 0)
  }

  function GeneralizedInstant(s: string): Instant
    requires Generalized(s)
  {
    assert forall i :: 0 <= i < 14 ==> s[..14][i] == s[i];
    Instant(100 * Pair(s, 0) + Pair(s, 2), Pair(s, 4), Pair(s, 6), Pair(s, 8), Pair(s, 10), Pair(s, 12))
  }

  // ---- the code ----

  predicate Y2k(s: string) {
    StrNCmp(s, "49", 2) <= 0
  }

  /** Whether the loop body turns a V row with this expiry text into an E row. */
  predicate MarksExpired(exp: string, now: string) {
    if Y2k(exp) == Y2k(now) then StrCmp(exp, now) <= 0 else !Y2k(exp) && Y2k(now)
  }

  // ---- lemmas ----

  /** One two-digit field decides a string comparison as its number does. */
  lemma StrCmpPair(a: string, b: string)
    requires |a| >= 2 && |b| >= 2
    requires Digit(a[0]) && Digit(a[1]) && Digit(b[0]) && Digit(b[1])
    ensures Pair(a, 0) < Pair(b, 0) ==> StrCmp(a, b) == -1
    ensures Pair(a, 0) > Pair(b, 0) ==> StrCmp(a, b) == 1
    ensures Pair(a, 0) == Pair(b, 0) ==> StrCmp(a, b) == StrCmp(a[2..], b[2..])
  {
    assert a[1..][0] == a[1] && b[1..][0] == b[1];
    assert a[1..][1..] == a[2..] && b[1..][1..] == b[2..];
  }

  lemma Y2kIsCentury(s: string)
    requires |s| >= 2 && Digit(s[0]) && Digit(s[1])
    ensures Y2k(s) <==> Pair(s, 0) <= 49
  {
    assert s[..2][0] == s[0] && s[..2][1] == s[1] && "49"[..2] == "49" && s[..2][2..] == "49"[2..] == "";
    StrCmpPair(s[..2], "49");
    assert StrNCmp(s, "49", 2) == StrCmp(s[..2], "49") by {
      if |s| == 2 { assert s[..2] == s; }
    }
  }

  /** The field at `k` decides the comparison of the texts from `k` on, or leaves it to the rest. */
  lemma Field(a: string, b: string, k: nat)
    requires k + 1 < |a| && k + 1 < |b|
    requires Digit(a[k]) && Digit(a[k + 1]) && Digit(b[k]) && Digit(b[k + 1])
    ensures StrCmp(a[k..], b[k..]) == (if Pair(a, k) < Pair(b, k) then -1 else if Pair(a, k) > Pair(b, k) then 1
                                       else StrCmp(a[k + 2..], b[k + 2..]))
  {
    StrCmpPair(a[k..], b[k..]);
    assert a[k..][2..] == a[k + 2..] && b[k..][2..] == b[k + 2..];
  }

  /** Texts that start with 2n digits: how the comparison goes through the fields. */
  lemma TenDigits(a: string, b: string)
    requires |a| >= 10 && |b| >= 10 && AllDigits(a[..10]) && AllDigits(b[..10])
    ensures forall i :: 0 <= i < 10 ==> Digit(a[i]) && Digit(b[i])
    ensures StrCmp(a, b) == (
              if Pair(a, 0) != Pair(b, 0) then (if Pair(a, 0) < Pair(b, 0) then -1 else 1)
              else if Pair(a, 2) != Pair(b, 2) then (if Pair(a, 2) < Pair(b, 2) then -1 else 1)
              else if Pair(a, 4) != Pair(b, 4) then (if Pair(a, 4) < Pair(b, 4) then -1 else 1)
              else if Pair(a, 6) != Pair(b, 6) then (if Pair(a, 6) < Pair(b, 6) then -1 else 1)
              else if Pair(a, 8) != Pair(b, 8) then (if Pair(a, 8) < Pair(b, 8) then -1 else 1)
              else StrCmp(a[10..], b[10..]))
  {
    assert forall i :: 0 <= i < 10 ==> a[..10][i] == a[i] && b[..10][i] == b[i];
    assert a[0..] == a && b[0..] == b;
    Field(a, b, 0);
    Field(a, b, 2);
    Field(a, b, 4);
    Field(a, b, 6);
    Field(a, b, 8);
  }

  lemma TenDigitsEqual(a: string, b: string)
    requires |a| >= 10 && |b| >= 10 && forall i :: 0 <= i < 10 ==> Digit(a[i]) && Digit(b[i])
    ensures a[..10] == b[..10] <==>
            Pair(a, 0) == Pair(b, 0) && Pair(a, 2) == Pair(b, 2) && Pair(a, 4) == Pair(b, 4)
            && Pair(a, 6) == Pair(b, 6) && Pair(a, 8) == Pair(b, 8)
  {
    if a[..10] == b[..10] {
      assert forall i :: 0 <= i < 10 ==> a[..10][i] == a[i] && b[..10][i] == b[i];
    }
    if Pair(a, 0) == Pair(b, 0) && Pair(a, 2) == Pair(b, 2) && Pair(a, 4) == Pair(b, 4)
       && Pair(a, 6) == Pair(b, 6) && Pair(a, 8) == Pair(b, 8) {
      hide Pair;
      PairEqual(a, b, 0);
      PairEqual(a, b, 2);
      PairEqual(a, b, 4);
      PairEqual(a, b, 6);
      PairEqual(a, b, 8);
    }
  }

  lemma PairEqual(a: string, b: string, k: nat)
    requires k + 1 < |a| && k + 1 < |b|
    requires Digit(a[k]) && Digit(a[k + 1]) && Digit(b[k]) && Digit(b[k + 1]) && Pair(a, k) == Pair(b, k)
    ensures a[k] == b[k] && a[k + 1] == b[k + 1]
  {
  }

  /** On RFC 5280 UTCTime texts the code marks a row exactly when its date is at or before now. */
  lemma MarksExactlyTheExpired(exp: string, now: string)
    requires Utc(exp) && Utc(now)
    ensures MarksExpired(exp, now) <==> AtOrBefore(UtcInstant(exp), UtcInstant(now))
  {
    assert forall i :: 0 <= i < 12 ==> exp[..12][i] == exp[i] && now[..12][i] == now[i];
    assert forall i :: 0 <= i < 10 ==> exp[..10][i] == exp[..12][i] && now[..10][i] == now[..12][i];
    Y2kIsCentury(exp);
    Y2kIsCentury(now);
    TenDigits(exp, now);
    Field(exp, now, 10);
    assert exp[12..] == "Z" == now[12..];
  }

  /** Without seconds the answer is right exactly when the first ten digits differ: the 'Z' is
      compared with a digit of the current seconds and is always larger. */
  lemma NoSecondsRightIff(exp: string, now: string)
    requires UtcNoSeconds(exp) && Utc(now)
    ensures (MarksExpired(exp, now) <==> AtOrBefore(UtcNoSecondsInstant(exp), UtcInstant(now)))
            <==> exp[..10] != now[..10]
  {
    assert forall i :: 0 <= i < 12 ==> now[..12][i] == now[i];
    assert forall i :: 0 <= i < 10 ==> exp[..10][i] == exp[i] && now[..10][i] == now[..12][i];
    Y2kIsCentury(exp);
    Y2kIsCentury(now);
    TenDigits(exp, now);
    assert exp[10..][0] == 'Z' && now[10..][0] == now[10] < 'Z';
    TenDigitsEqual(exp, now);
  }

  /** Half a minute after it expired, a certificate dated without seconds is still V. */
  lemma NoSecondsExample()
    ensures var exp, now := "2401011200Z", "240101120030Z";
            && UtcNoSeconds(exp) && Utc(now)
            && AtOrBefore(UtcNoSecondsInstant(exp), UtcInstant(now)) && !MarksExpired(exp, now)
  {
    var exp, now := "2401011200Z", "240101120030Z";
    assert exp[..10] == now[..10];
    NoSecondsRightIff(exp, now);
  }

  /** A GeneralizedTime read as if it were a UTCTime: its century is taken for the year, its year for
      the month and so on. */
  function Misread(s: string): Instant
    requires Generalized(s)
  {
    assert forall i :: 0 <= i < 14 ==> s[..14][i] == s[i];
    Instant(Century(Pair(s, 0)), Pair(s, 2), Pair(s, 4), Pair(s, 6), Pair(s, 8), Pair(s, 10))
  }

  /** What decides about a GeneralizedTime is the misread date. */
  lemma GeneralizedIsMisread(exp: string, now: string)
    requires Generalized(exp) && Utc(now)
    ensures MarksExpired(exp, now) <==> AtOrBefore(Misread(exp), UtcInstant(now))
  {
    assert forall i :: 0 <= i < 14 ==> exp[..14][i] == exp[i];
    assert forall i :: 0 <= i < 12 ==> now[..12][i] == now[i];
    assert forall i :: 0 <= i < 10 ==> exp[..10][i] == exp[..14][i] && now[..10][i] == now[..12][i];
    Y2kIsCentury(exp);
    Y2kIsCentury(now);
    TenDigits(exp, now);
    Field(exp, now, 10);
    assert exp[12..][0] == exp[12] < 'Z' && now[12..] == "Z";
  }

  /** In the year that the century of `g` is taken for, `n` is before the date misread from `g`: the
      year of the century is compared with the month, the month with the day and so on. */
  predicate BeforeMisread(g: Instant, n: Instant) {
    var month := g.year % 100;
    if n.month != month then n.month < month
    else if n.day != g.month then n.day < g.month
    else if n.hour != g.day then n.hour < g.day
    else if n.minute != g.hour then n.minute < g.hour
    else n.second < g.minute
  }

  /** RFC 5280 uses GeneralizedTime from 2050 on, later than any UTCTime, so the row must stay V. It
      does exactly when the clock is not past the year its century is taken for, 2020 for 20YY, and in
      that year before the misread date. The misread month is above 12 unless the year ends in 00 to
      12, and then the year of the clock alone decides. */
  lemma GeneralizedRightIff(exp: string, now: string)
    requires Generalized(exp) && Utc(now) && 2050 <= GeneralizedInstant(exp).year
    ensures var g, n := GeneralizedInstant(exp), UtcInstant(now);
            var right, limit := MarksExpired(exp, now) <==> AtOrBefore(g, n), Century(g.year / 100);
            && !AtOrBefore(g, n)
            && (right <==> n.year < limit || (n.year == limit && BeforeMisread(g, n)))
            && (g.year % 100 > 12 >= n.month ==> (right <==> n.year <= limit))
  {
    GeneralizedIsMisread(exp, now);
    assert forall i :: 0 <= i < 14 ==> exp[..14][i] == exp[i];
    assert forall i :: 0 <= i < 12 ==> now[..12][i] == now[i];
    var g := GeneralizedInstant(exp);
    assert g.year / 100 == Pair(exp, 0) && g.year % 100 == Pair(exp, 2);
  }

  /** Every certificate valid to a date from 2050 to 2099 is marked from 2021 on. */
  lemma GeneralizedMarkedIff(exp: string, now: string)
    requires Generalized(exp) && Utc(now) && 2050 <= GeneralizedInstant(exp).year <= 2099
    requires UtcInstant(now).month <= 12
    ensures MarksExpired(exp, now) <==> UtcInstant(now).year >= 2021
  {
    GeneralizedRightIff(exp, now);
  }

  /** A certificate valid to 2051 is marked expired in 2024. */
  lemma GeneralizedMarkedTooEarly()
    ensures MarksExpired("20510101000000Z", "240101000000Z")
    ensures GeneralizedInstant("20510101000000Z").year == 2051 && UtcInstant("240101000000Z").year == 2024
  {
    var e, n := "20510101000000Z", "240101000000Z";
    Y2kIsCentury(e);
    Y2kIsCentury(n);
    assert e[1..][0] == '0' && n[1..][0] == '4' && e[0] == n[0];
  }

  // ---- the clock ----

  function TwoDigits(n: int): string
    requires 0 <= n < 100
  {
    [('0' as int + n / 10) as char, ('0' as int + n % 10) as char]
  }

  /** A year of the calendar, and fields of two digits. */
  predicate Printable(t: Instant) {
    && 0 <= t.year && 0 <= t.month < 100 && 0 <= t.day < 100
    && 0 <= t.hour < 100 && 0 <= t.minute < 100 && 0 <= t.second < 100
  }

  /** ASN1_UTCTIME_set: the century is dropped. */
  function PrintUtc(t: Instant): string
    requires Printable(t)
  {
    TwoDigits(t.year % 100) + TwoDigits(t.month) + TwoDigits(t.day)
    + TwoDigits(t.hour) + TwoDigits(t.minute) + TwoDigits(t.second) + "Z"
  }

  lemma TwoDigitsAre(n: int)
    requires 0 <= n < 100
    ensures var s := TwoDigits(n); |s| == 2 && Digit(s[0]) && Digit(s[1]) && 10 * Val(s[0]) + Val(s[1]) == n
  {
  }

  lemma PrintUtcReads(t: Instant)
    requires Printable(t)
    ensures Utc(PrintUtc(t)) && UtcInstant(PrintUtc(t)) == t.(year := Century(t.year % 100))
  {
    TwoDigitsAre(t.year % 100);
    TwoDigitsAre(t.month);
    TwoDigitsAre(t.day);
    TwoDigitsAre(t.hour);
    TwoDigitsAre(t.minute);
    TwoDigitsAre(t.second);
    hide TwoDigits;
    var s := PrintUtc(t);
    assert forall i :: 0 <= i < 12 ==> s[..12][i] == s[i];
  }

  lemma UtcYears(s: string)
    requires Utc(s)
    ensures 1950 <= UtcInstant(s).year <= 2049
  {
    assert forall i :: 0 <= i < 12 ==> s[..12][i] == s[i];
  }

  /** do_updatedb prints its clock as a UTCTime in every year. Until 2049 its answer is right; from 2050
      on every UTCTime has passed, and the answer is right exactly for the dates that had passed in the
      year the clock is taken for. */
  lemma ClockRightIff(exp: string, t: Instant)
    requires Utc(exp) && Printable(t) && 1950 <= t.year
    ensures var taken := t.(year := Century(t.year % 100));
            (MarksExpired(exp, PrintUtc(t)) <==> AtOrBefore(UtcInstant(exp), t))
            <==> t.year <= 2049 || AtOrBefore(UtcInstant(exp), taken)
  {
    PrintUtcReads(t);
    hide MarksExpired, PrintUtc, UtcInstant, AtOrBefore;
    MarksExactlyTheExpired(exp, PrintUtc(t));
    UtcYears(exp);
    TakenOrder(UtcInstant(exp), t);
  }

  lemma TakenOrder(e: Instant, t: Instant)
    requires 1950 <= e.year <= 2049 && 1950 <= t.year
    ensures t.year <= 2049 ==> Century(t.year % 100) == t.year
    ensures t.year > 2049 ==> AtOrBefore(e, t)
  {
  }

  /** From 2050 to 2099 no date of 2000 to 2049 is ever marked. */
  lemma ClockMarksNothing(exp: string, t: Instant)
    requires Utc(exp) && Printable(t) && 2050 <= t.year <= 2099 && UtcInstant(exp).year >= 2000
    ensures AtOrBefore(UtcInstant(exp), t) && !MarksExpired(exp, PrintUtc(t))
  {
    PrintUtcReads(t);
    hide MarksExpired, PrintUtc, UtcInstant;
    MarksExactlyTheExpired(exp, PrintUtc(t));
    UtcYears(exp);
  }

  // ---- seconds, for offsets from GMT ----

  predicate Leap(y: int) { y % 4 == 0 && (y % 100 != 0 || y % 400 == 0) }

  function DaysIn(m: int, leap: bool): int {
    if m == 2 then (if leap then 29 else 28) else if m == 4 || m == 6 || m == 9 || m == 11 then 30 else 31
  }

  function DaysBeforeMonth(m: int, leap: bool): int
    decreases m
  {
    if m <= 1 then 0 else DaysBeforeMonth(m - 1, leap) + DaysIn(m - 1, leap)
  }

  function DaysBeforeYear(y: int): int
    decreases y
  {
    if y <= 0 then 0 else DaysBeforeYear(y - 1) + if Leap(y - 1) then 366 else 365
  }

  predicate ValidDate(t: Instant) {
    && 0 <= t.year && 1 <= t.month <= 12 && 1 <= t.day <= DaysIn(t.month, Leap(t.year))
    && 0 <= t.hour < 24 && 0 <= t.minute < 60 && 0 <= t.second < 60
  }

  function DayNumber(t: Instant): int {
    DaysBeforeYear(t.year) + DaysBeforeMonth(t.month, Leap(t.year)) + t.day
  }

  function Seconds(t: Instant): int {
    DayNumber(t) * 86400 + t.hour * 3600 + t.minute * 60 + t.second
  }

  lemma {:induction false} MonthsGrow(m: int, n: int, leap: bool)
    requires 1 <= m < n <= 12
    ensures DaysBeforeMonth(m, leap) + DaysIn(m, leap) <= DaysBeforeMonth(n, leap)
    decreases n
  {
    if m < n - 1 { MonthsGrow(m, n - 1, leap); }
  }

  lemma {:induction false} MonthsInYear(leap: bool)
    ensures DaysBeforeMonth(12, leap) + 31 == if leap then 366 else 365
  {
    assert DaysBeforeMonth(4, leap) == if leap then 91 else 90;
    assert DaysBeforeMonth(8, leap) == DaysBeforeMonth(4, leap) + 122;
    assert DaysBeforeMonth(12, leap) == DaysBeforeMonth(8, leap) + 122;
  }

  lemma {:induction false} YearsGrow(y: int, z: int)
    requires 0 <= y < z
    ensures DaysBeforeYear(y) + (if Leap(y) then 366 else 365) <= DaysBeforeYear(z)
    decreases z
  {
    if y < z - 1 { YearsGrow(y, z - 1); }
  }

  lemma DayInYear(t: Instant)
    requires ValidDate(t)
    ensures 1 <= DaysBeforeMonth(t.month, Leap(t.year)) + t.day <= if Leap(t.year) then 366 else 365
  {
    hide Leap;
    MonthsInYear(Leap(t.year));
    if t.month < 12 { MonthsGrow(t.month, 12, Leap(t.year)); }
    MonthsPositive(t.month, Leap(t.year));
  }

  lemma {:induction false} MonthsPositive(m: int, leap: bool)
    ensures DaysBeforeMonth(m, leap) >= 0
    decreases m
  {
    if m > 1 { MonthsPositive(m - 1, leap); }
  }

  /** An earlier day has a smaller number. */
  lemma DayOrder(a: Instant, b: Instant)
    requires ValidDate(a) && ValidDate(b)
    requires a.year < b.year || (a.year == b.year && (a.month < b.month || (a.month == b.month && a.day < b.day)))
    ensures DayNumber(a) < DayNumber(b)
  {
    DayInYear(a);
    DayInYear(b);
    if a.year < b.year {
      YearsGrow(a.year, b.year);
    } else if a.month < b.month {
      MonthsGrow(a.month, b.month, Leap(a.year));
    }
  }

  /** Calendar order is the order of the seconds. */
  lemma OrderIsSeconds(a: Instant, b: Instant)
    requires ValidDate(a) && ValidDate(b)
    ensures AtOrBefore(a, b) <==> Seconds(a) <= Seconds(b)
  {
    if a.year == b.year && a.month == b.month && a.day == b.day {
    } else if AtOrBefore(a, b) {
      DayOrder(a, b);
      assert DayNumber(a) + 1 <= DayNumber(b);
    } else {
      DayOrder(b, a);
      assert DayNumber(b) + 1 <= DayNumber(a);
    }
  }
}
