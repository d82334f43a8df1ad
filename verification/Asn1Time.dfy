/** ASN1_UTCTIME_check and ASN1_GENERALIZEDTIME_check, and check_time_format built on them. */
module Asn1Time {
  import opened CStrings
  import Expiry

  function At(s: string, i: nat): char { if i < |s| then s[i] else NUL }

  predicate Field(s: string, o: nat, min: int, max: int) {
    Expiry.Digit(At(s, o)) && Expiry.Digit(At(s, o + 1))
    && min <= 10 * Expiry.Val(At(s, o)) + Expiry.Val(At(s, o + 1)) <= max
  }

  predicate Zone(c: char) { c == 'Z' || c == '+' || c == '-' }

  /** What may follow the time of day: 'Z', an offset, or nothing. */
  predicate Tail(s: string, o: nat) {
    if At(s, o) == 'Z' then o + 1 == |s|
    else if At(s, o) == '+' || At(s, o) == '-' then
      o + 5 == |s| && Field(s, o + 1, 0, 12) && Field(s, o + 3, 0, 59)
    else o == |s|
  }

  predicate UtcCheck(s: string) {
    |s| >= 11
    && Field(s, 0, 0, 99) && Field(s, 2, 1, 12) && Field(s, 4, 1, 31) && Field(s, 6, 0, 23) && Field(s, 8, 0, 59)
    && if Zone(At(s, 10)) then Tail(s, 10) else Field(s, 10, 0, 59) && Tail(s, 12)
  }

  function DigitsEnd(s: string, o: nat): (e: nat)
    requires o <= |s|
    ensures o <= e <= |s| && forall i :: o <= i < e ==> Expiry.Digit(s[i])
    decreases |s| - o
  {
    if o < |s| && Expiry.Digit(s[o]) then DigitsEnd(s, o + 1) else o
  }

  predicate Fraction(s: string, o: nat) {
    if At(s, o) == '.' then var e := DigitsEnd(s, o + 1); e > o + 1 && Tail(s, e) else Tail(s, o)
  }

  predicate GeneralizedCheck(s: string) {
    |s| >= 13
    && Field(s, 0, 0, 99) && Field(s, 2, 0, 99) && Field(s, 4, 1, 12) && Field(s, 6, 1, 31)
    && Field(s, 8, 0, 23) && Field(s, 10, 0, 59)
    && if Zone(At(s, 12)) then Tail(s, 12) else Field(s, 12, 0, 59) && Fraction(s, 14)
  }

  /** check_time_format. */
  predicate TimeFormat(s: string) { UtcCheck(s) || GeneralizedCheck(s) }

  predicate TimeChar(c: char) { Expiry.Digit(c) || Zone(c) || c == '.' }

  /** An accepted time is made of digits, a zone and perhaps a decimal point. */
  lemma AcceptedChars(s: string)
    requires TimeFormat(s)
    ensures s != [] && forall i :: 0 <= i < |s| ==> TimeChar(s[i])
  {
  }

  // ---- what expiry makes of the accepted forms ----

  /** The date and time of day of a text UtcCheck accepts, whatever its zone; seconds may be left out. */
  function Local(s: string): Expiry.Instant
    requires UtcCheck(s)
  {
    Expiry.Instant(Expiry.Century(Expiry.Pair(s, 0)), Expiry.Pair(s, 2), Expiry.Pair(s, 4), Expiry.Pair(s, 6),
                   Expiry.Pair(s, 8), if Zone(At(s, 10)) then 0 else Expiry.Pair(s, 10))
  }

  /** The zone is ignored: the local time is compared with the clock, except that a text without seconds
      that ends in 'Z' is taken for later than the whole minute. */
  lemma ZoneIgnored(exp: string, now: string)
    requires UtcCheck(exp) && Expiry.Utc(now)
    ensures Expiry.MarksExpired(exp, now) <==>
            Expiry.AtOrBefore(Local(exp), Expiry.UtcInstant(now)) && !(exp[10] == 'Z' && exp[..10] == now[..10])
  {
    assert forall i :: 0 <= i < 12 ==> now[..12][i] == now[i];
    assert Expiry.AllDigits(exp[..10]) && Expiry.AllDigits(now[..10]);
    Expiry.Y2kIsCentury(exp);
    Expiry.Y2kIsCentury(now);
    Expiry.TenDigits(exp, now);
    Expiry.TenDigitsEqual(exp, now);
    hide Expiry.AtOrBefore, Expiry.Y2k, StrCmp, StrNCmp;
    RestOfTime(exp, now);
    OrderOfLocal(exp, now);
  }

  lemma RestOfTime(exp: string, now: string)
    requires UtcCheck(exp) && Expiry.Utc(now)
    ensures StrCmp(exp[10..], now[10..]) <= 0 <==>
            exp[10] != 'Z' && (Zone(exp[10]) || Expiry.Pair(exp, 10) <= Expiry.Pair(now, 10))
  {
    assert forall i :: 0 <= i < 12 ==> now[..12][i] == now[i];
    if Zone(exp[10]) {
      assert exp[10..][0] == exp[10] && now[10..][0] == now[10];
    } else {
      Expiry.Field(exp, now, 10);
      assert now[12..] == "Z" && (|exp| > 12 ==> exp[12..][0] == exp[12]);
      if |exp| > 12 && exp[12] == 'Z' { assert exp[12..] == "Z"; }
    }
  }

  lemma OrderOfLocal(exp: string, now: string)
    requires UtcCheck(exp) && Expiry.Utc(now)
    ensures var l, n := Local(exp), Expiry.UtcInstant(now);
            Expiry.AtOrBefore(l, n) <==>
            (if l.year != n.year then l.year < n.year
             else if l.month != n.month then l.month < n.month
             else if l.day != n.day then l.day < n.day
             else if l.hour != n.hour then l.hour < n.hour
             else if l.minute != n.minute then l.minute < n.minute
             else Zone(exp[10]) || Expiry.Pair(exp, 10) <= n.second)
  {
    assert forall i :: 0 <= i < 12 ==> now[..12][i] == now[i];
  }

  /** Minutes that the local time is ahead of GMT. */
  function Offset(s: string): int
    requires UtcCheck(s)
  {
    var z := if Zone(At(s, 10)) then 10 else 12;
    if At(s, z) == '+' then 60 * Expiry.Pair(s, z + 1) + Expiry.Pair(s, z + 3)
    else if At(s, z) == '-' then -(60 * Expiry.Pair(s, z + 1) + Expiry.Pair(s, z + 3))
    else 0
  }

  /** With an offset the answer is wrong exactly while the clock is between the expiry and the local
      time taken for it. */
  lemma OffsetRightIff(exp: string, now: string)
    requires UtcCheck(exp) && exp[10] != 'Z' && Expiry.Utc(now)
    requires Expiry.ValidDate(Local(exp)) && Expiry.ValidDate(Expiry.UtcInstant(now))
    ensures var taken, clock := Expiry.Seconds(Local(exp)), Expiry.Seconds(Expiry.UtcInstant(now));
            var expiry := taken - 60 * Offset(exp);
            (Expiry.MarksExpired(exp, now) <==> expiry <= clock)
            <==> !(expiry <= clock < taken) && !(taken <= clock < expiry)
  {
    hide Expiry.MarksExpired, Expiry.AtOrBefore, Expiry.Seconds, Expiry.ValidDate, Offset;
    ZoneIgnored(exp, now);
    Expiry.OrderIsSeconds(Local(exp), Expiry.UtcInstant(now));
  }

  /** A certificate that expired at eleven in GMT is still V at half past eleven. */
  lemma OffsetExample()
    ensures var exp, now := "240101120000+0100", "240101113000Z";
            && UtcCheck(exp) && Offset(exp) == 60 && Expiry.Utc(now) && !Expiry.MarksExpired(exp, now)
            && Expiry.Seconds(Local(exp)) - 60 * Offset(exp) <= Expiry.Seconds(Expiry.UtcInstant(now))
  {
    var exp, now := "240101120000+0100", "240101113000Z";
    assert Local(exp) == Expiry.Instant(2024, 1, 1, 12, 0, 0);
    assert Expiry.UtcInstant(now) == Expiry.Instant(2024, 1, 1, 11, 30, 0);
    assert Offset(exp) == 60;
    hide Expiry.MarksExpired, Offset;
    ZoneIgnored(exp, now);
  }

  /** The first twelve digits of a GeneralizedTime read as a UTCTime. */
  function Misread(s: string): Expiry.Instant
    requires GeneralizedCheck(s)
  {
    Expiry.Instant(Expiry.Century(Expiry.Pair(s, 0)), Expiry.Pair(s, 2), Expiry.Pair(s, 4), Expiry.Pair(s, 6),
                   Expiry.Pair(s, 8), Expiry.Pair(s, 10))
  }

  /** That is what decides about every GeneralizedTime the load check accepts, with or without seconds,
      fraction and zone. */
  lemma GeneralizedMisread(exp: string, now: string)
    requires GeneralizedCheck(exp) && Expiry.Utc(now)
    ensures Expiry.MarksExpired(exp, now) <==> Expiry.AtOrBefore(Misread(exp), Expiry.UtcInstant(now))
  {
    hide Expiry.AtOrBefore, Expiry.Y2k, StrCmp, StrNCmp, Fraction, Tail;
    assert forall i :: 0 <= i < 12 ==> now[..12][i] == now[i];
    assert Expiry.AllDigits(exp[..10]) && Expiry.AllDigits(now[..10]);
    Expiry.Y2kIsCentury(exp);
    Expiry.Y2kIsCentury(now);
    Expiry.TenDigits(exp, now);
    Expiry.Field(exp, now, 10);
    BehindTwelve(exp, now);
    OrderOfMisread(exp, now);
  }

  lemma BehindTwelve(exp: string, now: string)
    requires GeneralizedCheck(exp) && Expiry.Utc(now)
    ensures StrCmp(exp[12..], now[12..]) <= 0
  {
    assert now[12..] == "Z" && exp[12..][0] == exp[12];
    if exp[12] == 'Z' { assert exp[12..] == "Z"; }
  }

  lemma OrderOfMisread(exp: string, now: string)
    requires GeneralizedCheck(exp) && Expiry.Utc(now)
    ensures var l, n := Misread(exp), Expiry.UtcInstant(now);
            Expiry.AtOrBefore(l, n) <==>
            (if l.year != n.year then l.year < n.year
             else if l.month != n.month then l.month < n.month
             else if l.day != n.day then l.day < n.day
             else if l.hour != n.hour then l.hour < n.hour
             else if l.minute != n.minute then l.minute < n.minute
             else Expiry.Pair(exp, 10) <= n.second)
  {
    assert forall i :: 0 <= i < 12 ==> now[..12][i] == now[i];
  }

  // ---- the two forms of RFC 5280 ----

  ghost predicate InRange(t: Expiry.Instant) {
    && 1 <= t.month <= 12 && 1 <= t.day <= 31 && 0 <= t.hour <= 23 && 0 <= t.minute <= 59 && 0 <= t.second <= 59
  }

  /** ASN1_UTCTIME_check accepts a UTCTime of RFC 5280 exactly when its fields are in range; the day is
      not checked against the month. */
  lemma UtcCheckIff(s: string)
    ensures |s| == 13 && s[12] == 'Z' ==> (UtcCheck(s) <==> Expiry.Utc(s) && InRange(Expiry.UtcInstant(s)))
  {
    if |s| == 13 && s[12] == 'Z' { assert forall i :: 0 <= i < 12 ==> s[..12][i] == s[i]; }
  }

  /** And ASN1_GENERALIZEDTIME_check a GeneralizedTime of RFC 5280. */
  lemma GeneralizedCheckIff(s: string)
    ensures |s| == 15 && s[14] == 'Z' ==>
              (GeneralizedCheck(s) <==> Expiry.Generalized(s) && InRange(Expiry.GeneralizedInstant(s)))
  {
    if |s| == 15 && s[14] == 'Z' { assert forall i :: 0 <= i < 14 ==> s[..14][i] == s[i]; }
  }

  /** An offset behind the seconds is accepted up to twelve hours and 59 minutes. */
  lemma OffsetCheckIff(s: string)
    requires |s| == 17 && (s[12] == '+' || s[12] == '-')
    ensures UtcCheck(s) <==>
            && UtcCheck(s[..12] + "Z") && Expiry.AllDigits(s[13..])
            && Expiry.Pair(s[13..], 0) <= 12 && Expiry.Pair(s[13..], 2) <= 59
  {
    var z, offset := s[..12] + "Z", s[13..];
    assert forall i :: 0 <= i < 12 ==> z[i] == s[i];
    assert forall i :: 0 <= i < 4 ==> offset[i] == s[13 + i];
    assert z[12] == 'Z';
  }

  lemma {:induction false} DigitsEndIs(s: string, o: nat, e: nat)
    requires o <= e <= |s| && (forall i :: o <= i < e ==> Expiry.Digit(s[i])) && (e < |s| ==> !Expiry.Digit(s[e]))
    ensures DigitsEnd(s, o) == e
    decreases e - o
  {
    if o < e { DigitsEndIs(s, o + 1, e); }
  }

  /** A fraction of the second is accepted when it has at least one digit. */
  lemma FractionIff(b: string, d: string)
    requires |b| == 14 && Expiry.AllDigits(b) && Expiry.AllDigits(d)
    ensures GeneralizedCheck(b + "." + d + "Z") <==> GeneralizedCheck(b + "Z") && d != ""
  {
    var s, z := b + "." + d + "Z", b + "Z";
    assert forall i :: 0 <= i < 14 ==> s[i] == b[i] == z[i];
    assert s[14] == '.' && s[|s| - 1] == 'Z' && z[14] == 'Z';
    assert forall i :: 0 <= i < |d| ==> s[15 + i] == d[i];
    DigitsEndIs(s, 15, 15 + |d|);
  }
}
