/**
 The one alternative spelling of a UTC timestamp that may be tried as additional authenticated
 data (apps/web/src/crypto/encrypted-aad-timestamp.ts): the same instant, to the millisecond.
 The accepted shape is the UTC subset of RFC 3339, section 5.6.
 */
module AadTimestamp {
  import opened Wrappers
  import opened Text

  // ----- The calendar (RFC 3339, section 5.7 and Appendix C) -----

  predicate IsLeapYear(year: nat) {
    year % 4 == 0 && (year % 100 != 0 || year % 400 == 0)
  }

  function DaysInMonth(year: nat, month: nat): (d: nat)
    ensures d <= 31
  {
    if month in {1, 3, 5, 7, 8, 10, 12} then 31
    else if month in {4, 6, 9, 11} then 30
    else if month == 2 then (if IsLeapYear(year) then 29 else 28)
    else 0
  }

  /** The month table of the source. */
  function MonthDays(february: nat): (days: seq<nat>)
    ensures |days| == 12
  {
    [31, february, 31, 30, 31, 30, 31, 31, 30, 31, 30, 31]
  }

  lemma MonthTable(year: nat, month: nat)
    requires 1 <= month <= 12
    ensures DaysInMonth(year, month) ==
            MonthDays(if (year % 4 == 0 && year % 100 != 0) || year % 400 == 0 then 29 else 28)[month - 1]
  {
    FebruaryDays(year);
    var days := MonthDays(DaysInMonth(year, 2));
    assert days[0] == 31 && days[2] == 31 && days[3] == 30 && days[4] == 31 && days[5] == 30;
    assert days[6] == 31 && days[7] == 31 && days[8] == 30 && days[9] == 31 && days[10] == 30 && days[11] == 31;
  }

  lemma FebruaryDays(year: nat)
    ensures DaysInMonth(year, 2) ==
            if (year % 4 == 0 && year % 100 != 0) || year % 400 == 0 then 29 else 28
  {}

  function DaysBeforeMonth(year: nat, month: nat): nat {
    if month <= 1 then 0 else DaysBeforeMonth(year, month - 1) + DaysInMonth(year, month - 1)
  }

  function DaysInYear(year: nat): nat {
    DaysBeforeMonth(year, 13)
  }

  function DaysBeforeYear(year: nat): nat {
    if year <= 1 then 0 else DaysBeforeYear(year - 1) + DaysInYear(year - 1)
  }

  /** Days since the first of January of year 1. */
  function DayNumber(year: nat, month: nat, day: nat): nat
    requires day >= 1
  {
    DaysBeforeYear(year) + DaysBeforeMonth(year, month) + day - 1
  }

  predicate IsDate(year: nat, month: nat, day: nat) {
    year >= 1 && 1 <= month <= 12 && 1 <= day <= DaysInMonth(year, month)
  }

  lemma YearLength(year: nat)
    ensures DaysInYear(year) == if IsLeapYear(year) then 366 else 365
  {
    assert DaysBeforeMonth(year, 1) == 0 && DaysBeforeMonth(year, 2) == 31;
    assert DaysBeforeMonth(year, 3) == 31 + DaysInMonth(year, 2);
    assert DaysBeforeMonth(year, 5) == DaysBeforeMonth(year, 3) + 61;
    assert DaysBeforeMonth(year, 7) == DaysBeforeMonth(year, 5) + 61;
    assert DaysBeforeMonth(year, 9) == DaysBeforeMonth(year, 7) + 62;
    assert DaysBeforeMonth(year, 11) == DaysBeforeMonth(year, 9) + 61;
    assert DaysBeforeMonth(year, 13) == DaysBeforeMonth(year, 11) + 61;
  }

  lemma QuotientStep(n: nat)
    requires n >= 1
    ensures n / 4 == (n - 1) / 4 + (if n % 4 == 0 then 1 else 0)
    ensures n / 100 == (n - 1) / 100 + (if n % 100 == 0 then 1 else 0)
    ensures n / 400 == (n - 1) / 400 + (if n % 400 == 0 then 1 else 0)
    ensures n % 100 == 0 ==> n % 4 == 0
    ensures n % 400 == 0 ==> n % 100 == 0
  {}

  /** 365 days a year, and a leap day every fourth year but three in four hundred. */
  function ClosedForm(years: nat): int {
    365 * years + years / 4 - years / 100 + years / 400
  }

  lemma ClosedFormStep(n: nat)
    requires n >= 1
    ensures ClosedForm(n) == ClosedForm(n - 1) + if IsLeapYear(n) then 366 else 365
  {
    QuotientStep(n);
  }

  /** Counting year by year agrees with the closed Gregorian formula. */
  lemma {:induction false} GregorianYears(year: nat)
    requires year >= 1
    ensures DaysBeforeYear(year) == ClosedForm(year - 1)
  {
    if year > 1 {
      GregorianYears(year - 1);
      YearLength(year - 1);
      ClosedFormStep(year - 1);
    }
  }

  lemma {:induction false} MonthsAscend(year: nat, m: nat, n: nat)
    requires 1 <= m <= n
    ensures DaysBeforeMonth(year, m) <= DaysBeforeMonth(year, n)
  {
    if m < n { MonthsAscend(year, m, n - 1); }
  }

  lemma {:induction false} YearsAscend(a: nat, b: nat)
    requires 1 <= a <= b
    ensures DaysBeforeYear(a) <= DaysBeforeYear(b)
  {
    if a < b { YearsAscend(a, b - 1); }
  }

  lemma EarlierMonth(year: nat, m: nat, d: nat, m2: nat, d2: nat)
    requires IsDate(year, m, d) && IsDate(year, m2, d2) && m < m2
    ensures DaysBeforeMonth(year, m) + d < DaysBeforeMonth(year, m2) + d2
  {
    MonthsAscend(year, m + 1, m2);
  }

  lemma EarlierYear(y: nat, m: nat, d: nat, y2: nat, m2: nat, d2: nat)
    requires IsDate(y, m, d) && IsDate(y2, m2, d2) && y < y2
    ensures DayNumber(y, m, d) < DayNumber(y2, m2, d2)
  {
    MonthsAscend(y, m + 1, 13);
    YearsAscend(y + 1, y2);
  }

  predicate DateBefore(y: nat, m: nat, d: nat, y2: nat, m2: nat, d2: nat) {
    y < y2 || (y == y2 && (m < m2 || (m == m2 && d < d2)))
  }

  /** Later dates have larger day numbers, and only they. */
  lemma DayNumberOrder(y: nat, m: nat, d: nat, y2: nat, m2: nat, d2: nat)
    requires IsDate(y, m, d) && IsDate(y2, m2, d2)
    ensures DayNumber(y, m, d) < DayNumber(y2, m2, d2) <==> DateBefore(y, m, d, y2, m2, d2)
  {
    if y < y2 {
      EarlierYear(y, m, d, y2, m2, d2);
    } else if y2 < y {
      EarlierYear(y2, m2, d2, y, m, d);
    } else if m < m2 {
      EarlierMonth(y, m, d, m2, d2);
    } else if m2 < m {
      EarlierMonth(y, m2, d2, m, d);
    }
  }

  // ----- The text form -----

  predicate DigitsAt(s: string, i: nat, j: nat) {
    i <= j <= |s| && AllDigits(s[i..j])
  }

  /** The regular expression of the source, anchored at both ends. */
  predicate HasShape(s: string) {
    |s| >= 20 && s[|s| - 1] == 'Z' &&
    DigitsAt(s, 0, 4) && s[4] == '-' && DigitsAt(s, 5, 7) && s[7] == '-' && DigitsAt(s, 8, 10) && s[10] == 'T' &&
    DigitsAt(s, 11, 13) && s[13] == ':' && DigitsAt(s, 14, 16) && s[16] == ':' && DigitsAt(s, 17, 19) &&
    (|s| == 20 || (s[19] == '.' && 22 <= |s| <= 30 && DigitsAt(s, 20, |s| - 1)))
  }

  /** A run of digits of this width. */
  predicate AreDigits(s: string, n: nat) {
    |s| == n && AllDigits(s)
  }

  function DateTimeText(y: string, mo: string, d: string, h: string, mi: string, s: string): string {
    y + "-" + mo + "-" + d + "T" + h + ":" + mi + ":" + s
  }

  /** The parts of the string, each with its width, and what stands between them. */
  ghost predicate HasParts(v: string, y: string, mo: string, d: string, h: string, mi: string, s: string, f: string) {
    && AreDigits(y, 4) && AreDigits(mo, 2) && AreDigits(d, 2) && AreDigits(h, 2) && AreDigits(mi, 2) && AreDigits(s, 2)
    && |f| <= 9 && AllDigits(f)
    && v == DateTimeText(y, mo, d, h, mi, s) + (if f == "" then "" else "." + f) + "Z"
  }

  lemma PartsHaveShape(v: string, y: string, mo: string, d: string, h: string, mi: string, s: string, f: string)
    requires HasParts(v, y, mo, d, h, mi, s, f)
    ensures HasShape(v) && Fraction(v) == f
    ensures v[0..4] == y && v[5..7] == mo && v[8..10] == d && v[11..13] == h && v[14..16] == mi && v[17..19] == s
  {
    var t := DateTimeText(y, mo, d, h, mi, s);
    assert |t| == 19 && t[4] == '-' && t[7] == '-' && t[10] == 'T' && t[13] == ':' && t[16] == ':';
    assert t[0..4] == y && t[5..7] == mo && t[8..10] == d && t[11..13] == h && t[14..16] == mi && t[17..19] == s;
    assert v[..19] == t;
    assert forall i, j :: 0 <= i <= j <= 19 ==> v[i..j] == t[i..j];
    if f != "" { assert v[19] == '.' && v[20..|v| - 1] == f; }
  }

  lemma ShapeHasParts(v: string)
    requires HasShape(v)
    ensures HasParts(v, v[0..4], v[5..7], v[8..10], v[11..13], v[14..16], v[17..19], Fraction(v))
  {
    var t := DateTimeText(v[0..4], v[5..7], v[8..10], v[11..13], v[14..16], v[17..19]);
    assert |t| == 19;
    assert v[..19] == t;
    assert v == v[..19] + v[19..];
    if |v| == 20 { assert v[19..] == "" + "Z"; } else { assert v[19..] == "." + Fraction(v) + "Z"; }
  }

  /**
   The strings of the shape are exactly those printed from a year, month, day, hour, minute, second
   and up to nine decimals, and each comes from one such list of parts.
   */
  lemma ShapeExactly(v: string)
    ensures HasShape(v) <==> exists y, mo, d, h, mi, s, f :: HasParts(v, y, mo, d, h, mi, s, f)
  {
    if HasShape(v) { ShapeHasParts(v); }
    if y, mo, d, h, mi, s, f :| HasParts(v, y, mo, d, h, mi, s, f) { PartsHaveShape(v, y, mo, d, h, mi, s, f); }
  }

  function Fraction(s: string): (f: string)
    requires HasShape(s)
    ensures |f| <= 9 && AllDigits(f)
  {
    if |s| == 20 then "" else s[20..|s| - 1]
  }

  function Field(s: string, i: nat, j: nat): nat
    requires DigitsAt(s, i, j)
  {
    Number(s[i..j])
  }

  predicate HasNonZero(s: string) {
    exists i :: 0 <= i < |s| && '1' <= s[i] <= '9'
  }

  predicate FieldsInRange(s: string)
    requires HasShape(s)
  {
    var year, month, day := Field(s, 0, 4), Field(s, 5, 7), Field(s, 8, 10);
    year != 0 && 1 <= month <= 12 && 1 <= day && Field(s, 11, 13) <= 23 && Field(s, 14, 16) <= 59 &&
    Field(s, 17, 19) <= 59 && day <= DaysInMonth(year, month)
  }

  function Take3(f: string): string {
    if |f| <= 3 then f else f[..3]
  }

  function Drop3(f: string): string {
    if |f| <= 3 then "" else f[3..]
  }

  /** padEnd(3, "0") */
  function PadEnd3(f: string): (p: string)
    requires |f| <= 3
    ensures |p| == 3
  {
    f + "000"[|f|..]
  }

  function MillisecondForm(s: string): string
    requires HasShape(s)
  {
    s[..19] + "." + PadEnd3(Take3(Fraction(s))) + "Z"
  }

  /** historicalWebTimestampAADCandidate */
  function Candidate(s: string): Option<string> {
    if !HasShape(s) then None
    else if !FieldsInRange(s) || HasNonZero(Drop3(Fraction(s))) then None
    else if MillisecondForm(s) == s then None
    else Some(MillisecondForm(s))
  }

  // ----- What a timestamp denotes -----

  /** A time of the proleptic Gregorian calendar in UTC, years 1 to 9999, no leap second. */
  predicate IsTimestamp(s: string) {
    HasShape(s) && IsDate(Field(s, 0, 4), Field(s, 5, 7), Field(s, 8, 10)) &&
    Field(s, 11, 13) < 24 && Field(s, 14, 16) < 60 && Field(s, 17, 19) < 60
  }

  function Hours(s: string): nat
    requires IsTimestamp(s)
  {
    DayNumber(Field(s, 0, 4), Field(s, 5, 7), Field(s, 8, 10)) * 24 + Field(s, 11, 13)
  }

  function Minutes(s: string): nat
    requires IsTimestamp(s)
  {
    Hours(s) * 60 + Field(s, 14, 16)
  }

  function Seconds(s: string): nat
    requires IsTimestamp(s)
  {
    Minutes(s) * 60 + Field(s, 17, 19)
  }

  const NANOS: nat := 1000000000
  const NANOS_PER_MILLI: nat := 1000000

  function FractionNanos(f: string): nat
    requires |f| <= 9 && AllDigits(f)
  {
    Number(f) * Power10(9 - |f|)
  }

  /** Nanoseconds since the beginning of year 1. */
  function Instant(s: string): nat
    requires IsTimestamp(s)
  {
    Seconds(s) * NANOS + FractionNanos(Fraction(s))
  }

  predicate IsMillisecondForm(s: string) {
    IsTimestamp(s) && |s| == 24
  }

  // ----- Fractions -----

  lemma {:induction false} NumberOfConcat(a: string, b: string)
    requires AllDigits(a) && AllDigits(b)
    ensures AllDigits(a + b) && Number(a + b) == Number(a) * Power10(|b|) + Number(b)
  {
    if b == "" {
      assert a + b == a;
    } else {
      var front := b[..|b| - 1];
      NumberOfConcat(a, front);
      assert (a + b)[..|a + b| - 1] == a + front;
      assert Power10(|b|) == 10 * Power10(|b| - 1);
      TimesTen(Number(a), Power10(|b| - 1));
    }
  }

  lemma TimesTen(x: nat, p: nat)
    ensures 10 * (x * p) == x * (10 * p)
  {}

  lemma {:induction false} PowerOfSum(a: nat, b: nat)
    ensures Power10(a + b) == Power10(a) * Power10(b)
  {
    if a > 0 {
      PowerOfSum(a - 1, b);
      assert Power10(a) * Power10(b) == 10 * Power10(a - 1) * Power10(b);
    }
  }

  lemma {:induction false} ZeroWithoutDigits(f: string)
    requires AllDigits(f)
    ensures Number(f) == 0 <==> !HasNonZero(f)
  {
    if f != "" {
      var front, last := f[..|f| - 1], f[|f| - 1];
      ZeroWithoutDigits(front);
      if HasNonZero(front) {
        var i :| 0 <= i < |front| && '1' <= front[i] <= '9';
        assert f[i] == front[i];
      }
      if HasNonZero(f) {
        var i :| 0 <= i < |f| && '1' <= f[i] <= '9';
        if i < |front| { assert front[i] == f[i]; }
      }
    }
  }

  lemma SmallPowers()
    ensures Power10(0) == 1 && Power10(1) == 10 && Power10(2) == 100 && Power10(3) == 1000
    ensures Power10(6) == NANOS_PER_MILLI && Power10(9) == NANOS
  {
    assert Power10(4) == 10000 && Power10(5) == 100000;
    assert Power10(7) == 10000000 && Power10(8) == 100000000;
  }

  /** Up to three digits are padded to milliseconds without changing the value. */
  lemma ShortFraction(f: string)
    requires |f| <= 3 && AllDigits(f)
    ensures AllDigits(PadEnd3(f)) && FractionNanos(f) == Number(PadEnd3(f)) * NANOS_PER_MILLI
  {
    var zeros := "000"[|f|..];
    assert AllDigits(zeros) && !HasNonZero(zeros);
    ZeroWithoutDigits(zeros);
    NumberOfConcat(f, zeros);
    PowerOfSum(3 - |f|, 6);
    SmallPowers();
    Regroup(Number(f), Power10(3 - |f|), NANOS_PER_MILLI);
  }

  lemma Regroup(x: nat, p: nat, q: nat)
    ensures x * (p * q) == (x * p) * q
  {}

  /** Longer fractions split into milliseconds and a remainder below one millisecond. */
  lemma LongFraction(f: string)
    requires 3 < |f| <= 9 && AllDigits(f)
    ensures AllDigits(f[..3]) && AllDigits(f[3..])
    ensures FractionNanos(f) == Number(f[..3]) * NANOS_PER_MILLI + Number(f[3..]) * Power10(9 - |f|)
    ensures Number(f[3..]) * Power10(9 - |f|) < NANOS_PER_MILLI
    ensures Number(f[3..]) * Power10(9 - |f|) == 0 <==> !HasNonZero(f[3..])
  {
    var a, b, p := f[..3], f[3..], Power10(9 - |f|);
    assert f == a + b;
    NumberOfConcat(a, b);
    PowerOfSum(|b|, 9 - |f|);
    SmallPowers();
    assert Power10(|b|) * p == NANOS_PER_MILLI;
    Distribute(Number(a), Power10(|b|), p, Number(b));
    NumberBelowPower(b);
    ScaleBelow(Number(b), Power10(|b|), p);
    ZeroWithoutDigits(b);
  }

  lemma Distribute(x: nat, p: nat, q: nat, r: nat)
    ensures (x * p + r) * q == x * (p * q) + r * q
  {}

  lemma ScaleBelow(r: nat, p: nat, q: nat)
    requires r < p && q >= 1
    ensures r * q < p * q && (r * q == 0 <==> r == 0)
  {}

  /** The milliseconds of a fraction. */
  function Millis(f: string): nat
    requires |f| <= 9 && AllDigits(f)
  {
    ShortFraction(Take3(f));
    Number(PadEnd3(Take3(f)))
  }

  /** Nothing below the millisecond exactly when the code finds no digit to reject. */
  lemma FractionMillis(f: string)
    requires |f| <= 9 && AllDigits(f)
    ensures Millis(f) * NANOS_PER_MILLI <= FractionNanos(f) < (Millis(f) + 1) * NANOS_PER_MILLI
    ensures FractionNanos(f) == Millis(f) * NANOS_PER_MILLI <==> !HasNonZero(Drop3(f))
    ensures Millis(f) < 1000
  {
    ShortFraction(Take3(f));
    NumberBelowPower(PadEnd3(Take3(f)));
    SmallPowers();
    if |f| > 3 {
      LongFraction(f);
      assert PadEnd3(f[..3]) == f[..3];
    }
  }

  // ----- The millisecond form -----

  lemma FormKeepsFields(s: string)
    requires IsTimestamp(s)
    ensures var c := MillisecondForm(s);
            && |c| == 24 && IsTimestamp(c) && Seconds(c) == Seconds(s)
            && Fraction(c) == PadEnd3(Take3(Fraction(s)))
  {
    var c := MillisecondForm(s);
    ShortFraction(Take3(Fraction(s)));
    assert forall i :: 0 <= i < 19 ==> c[i] == s[i];
    assert c[0..4] == s[0..4] && c[5..7] == s[5..7] && c[8..10] == s[8..10];
    assert c[11..13] == s[11..13] && c[14..16] == s[14..16] && c[17..19] == s[17..19];
    assert c[20..23] == PadEnd3(Take3(Fraction(s)));
    assert c[23] == 'Z' && c[19] == '.';
  }

  lemma FormOfMillisecondForm(s: string)
    requires IsMillisecondForm(s)
    ensures MillisecondForm(s) == s
  {
    var f := Fraction(s);
    assert |f| == 3 && PadEnd3(Take3(f)) == f;
    assert s == s[..19] + s[19..20] + s[20..23] + s[23..24];
    assert s[19..20] == "." && s[23..24] == "Z";
  }

  /** Which strings get a candidate at all. */
  lemma CandidateExists(s: string)
    ensures Candidate(s).Some? <==>
            IsTimestamp(s) && Instant(s) % NANOS_PER_MILLI == 0 && !IsMillisecondForm(s)
  {
    if HasShape(s) && FieldsInRange(s) {
      var f := Fraction(s);
      FractionMillis(f);
      FormKeepsFields(s);
      WholeMillis(s);
      if IsMillisecondForm(s) { FormOfMillisecondForm(s); }
    }
  }

  lemma RemainderOf(q: nat, r: nat)
    requires r < NANOS_PER_MILLI
    ensures (q * NANOS_PER_MILLI + r) % NANOS_PER_MILLI == r
  {}

  lemma WholeExactly(seconds: nat, m: nat, nanos: nat)
    requires m * NANOS_PER_MILLI <= nanos < (m + 1) * NANOS_PER_MILLI
    ensures (seconds * NANOS + nanos) % NANOS_PER_MILLI == 0 <==> nanos == m * NANOS_PER_MILLI
  {
    var r: nat := nanos - m * NANOS_PER_MILLI;
    RemainderOf(seconds * 1000 + m, r);
    assert seconds * NANOS + nanos == (seconds * 1000 + m) * NANOS_PER_MILLI + r;
  }

  lemma WholeMillisOf(instant: nat, seconds: nat, f: string)
    requires |f| <= 9 && AllDigits(f) && instant == seconds * NANOS + FractionNanos(f)
    ensures instant % NANOS_PER_MILLI == 0 <==> !HasNonZero(Drop3(f))
  {
    FractionMillis(f);
    WholeExactly(seconds, Millis(f), FractionNanos(f));
  }

  lemma WholeMillis(s: string)
    requires IsTimestamp(s)
    ensures Instant(s) % NANOS_PER_MILLI == 0 <==> !HasNonZero(Drop3(Fraction(s)))
  {
    WholeMillisOf(Instant(s), Seconds(s), Fraction(s));
  }

  /** The candidate is the millisecond form of the same instant, and has no candidate itself. */
  lemma CandidateIsCanonical(s: string)
    requires Candidate(s).Some?
    ensures var c := Candidate(s).value;
            IsMillisecondForm(c) && c != s && Instant(c) == Instant(s) && Candidate(c) == None
  {
    var c := Candidate(s).value;
    CandidateExists(s);
    FormKeepsFields(s);
    FractionMillis(Fraction(s));
    ShortFraction(Fraction(c));
    assert PadEnd3(Fraction(c)) == Fraction(c);
    CandidateExists(c);
  }

  // ----- String order is chronological order -----

  /** One field and the separator behind it. */
  lemma FieldOrder(a: string, b: string, i: nat, j: nat)
    requires DigitsAt(a, i, j) && DigitsAt(b, i, j) && j < |a| == |b| && a[j] == b[j]
    ensures Before(a[i..], b[i..]) <==>
            Field(a, i, j) < Field(b, i, j) || (Field(a, i, j) == Field(b, i, j) && Before(a[j + 1..], b[j + 1..]))
  {
    assert a[i..] == a[i..j] + a[j..] && b[i..] == b[i..j] + b[j..];
    OrderOfConcat(a[i..j], a[j..], b[i..j], b[j..]);
    FixedWidthOrder(a[i..j], b[i..j]);
    assert a[j..] == [a[j]] + a[j + 1..] && b[j..] == [b[j]] + b[j + 1..];
    OrderOfConcat([a[j]], a[j + 1..], [b[j]], b[j + 1..]);
  }

  predicate TimeBefore(a: string, b: string)
    requires IsMillisecondForm(a) && IsMillisecondForm(b)
  {
    Field(a, 11, 13) < Field(b, 11, 13) || (Field(a, 11, 13) == Field(b, 11, 13) && (
    Field(a, 14, 16) < Field(b, 14, 16) || (Field(a, 14, 16) == Field(b, 14, 16) && (
    Field(a, 17, 19) < Field(b, 17, 19) || (Field(a, 17, 19) == Field(b, 17, 19) &&
    Field(a, 20, 23) < Field(b, 20, 23))))))
  }

  predicate SameDate(a: string, b: string)
    requires IsMillisecondForm(a) && IsMillisecondForm(b)
  {
    Field(a, 0, 4) == Field(b, 0, 4) && Field(a, 5, 7) == Field(b, 5, 7) && Field(a, 8, 10) == Field(b, 8, 10)
  }

  predicate FieldsBefore(a: string, b: string)
    requires IsMillisecondForm(a) && IsMillisecondForm(b)
  {
    DateBefore(Field(a, 0, 4), Field(a, 5, 7), Field(a, 8, 10), Field(b, 0, 4), Field(b, 5, 7), Field(b, 8, 10)) ||
    (SameDate(a, b) && TimeBefore(a, b))
  }

  lemma TimeTextOrder(a: string, b: string)
    requires IsMillisecondForm(a) && IsMillisecondForm(b)
    ensures Before(a[11..], b[11..]) <==> TimeBefore(a, b)
  {
    FieldOrder(a, b, 11, 13);
    FieldOrder(a, b, 14, 16);
    FieldOrder(a, b, 17, 19);
    FieldOrder(a, b, 20, 23);
    assert a[24..] == "" == b[24..];
  }

  lemma TextOrder(a: string, b: string)
    requires IsMillisecondForm(a) && IsMillisecondForm(b)
    ensures Before(a, b) <==> FieldsBefore(a, b)
  {
    FieldOrder(a, b, 0, 4);
    FieldOrder(a, b, 5, 7);
    FieldOrder(a, b, 8, 10);
    TimeTextOrder(a, b);
    assert a[0..] == a && b[0..] == b;
  }

  lemma InstantOfForm(s: string)
    requires IsMillisecondForm(s)
    ensures Instant(s) == (Seconds(s) * 1000 + Field(s, 20, 23)) * NANOS_PER_MILLI
    ensures Field(s, 20, 23) < 1000
  {
    ShortFraction(Fraction(s));
    assert PadEnd3(Fraction(s)) == Fraction(s);
    NumberBelowPower(Fraction(s));
    SmallPowers();
  }

  lemma InstantOrder(a: string, b: string)
    requires IsMillisecondForm(a) && IsMillisecondForm(b)
    ensures Instant(a) < Instant(b) <==> FieldsBefore(a, b)
  {
    InstantOfForm(a);
    InstantOfForm(b);
    var x, y := DayNumber(Field(a, 0, 4), Field(a, 5, 7), Field(a, 8, 10)),
                DayNumber(Field(b, 0, 4), Field(b, 5, 7), Field(b, 8, 10));
    DayNumberOrder(Field(a, 0, 4), Field(a, 5, 7), Field(a, 8, 10), Field(b, 0, 4), Field(b, 5, 7), Field(b, 8, 10));
    DayNumberOrder(Field(b, 0, 4), Field(b, 5, 7), Field(b, 8, 10), Field(a, 0, 4), Field(a, 5, 7), Field(a, 8, 10));
    MixedRadix(x, y, 24, Field(a, 11, 13), Field(b, 11, 13));
    MixedRadix(Hours(a), Hours(b), 60, Field(a, 14, 16), Field(b, 14, 16));
    MixedRadix(Minutes(a), Minutes(b), 60, Field(a, 17, 19), Field(b, 17, 19));
    MixedRadix(Seconds(a), Seconds(b), 1000, Field(a, 20, 23), Field(b, 20, 23));
  }

  lemma MixedRadix(x: nat, y: nat, p: nat, m: nat, n: nat)
    requires m < p && n < p
    ensures x * p + m < y * p + n <==> x < y || (x == y && m < n)
    ensures x * p + m == y * p + n <==> x == y && m == n
  {
    LeadingDigitDecides(x, y, p, m, n);
    LeadingDigitDecides(y, x, p, n, m);
  }

  /** On millisecond forms, comparing strings compares instants. */
  lemma StringOrderIsChronological(a: string, b: string)
    requires IsMillisecondForm(a) && IsMillisecondForm(b)
    ensures Before(a, b) <==> Instant(a) < Instant(b)
    ensures a == b <==> Instant(a) == Instant(b)
  {
    TextOrder(a, b);
    TextOrder(b, a);
    InstantOrder(a, b);
    InstantOrder(b, a);
    OrderTotal(a, b);
  }

  /** Two accepted spellings share their candidate exactly when they denote one instant. */
  lemma SameCandidateSameInstant(a: string, b: string)
    requires Candidate(a).Some? && Candidate(b).Some?
    ensures Candidate(a) == Candidate(b) <==> Instant(a) == Instant(b)
  {
    CandidateIsCanonical(a);
    CandidateIsCanonical(b);
    CandidateExists(a);
    CandidateExists(b);
    StringOrderIsChronological(Candidate(a).value, Candidate(b).value);
  }
}
