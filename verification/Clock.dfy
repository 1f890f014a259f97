/**
  Times as UTC calendar fields, their place on the time line, and their text in the
  RFC3339Nano layout of the Go standard library (section 5.6 of RFC 3339, nanoseconds
  with trailing zeros dropped).
 */
module Clock {
  import Text

  datatype Fields = Fields(year: int, month: nat, day: nat, hour: nat, minute: nat, second: nat, nano: nat)

  predicate Leap(year: int) {
    year % 4 == 0 && (year % 100 != 0 || year % 400 == 0)
  }

  function DaysInMonth(year: int, month: nat): (n: nat)
    ensures 28 <= n <= 31
  {
    if month == 2 then (if Leap(year) then 29 else 28)
    else if month == 4 || month == 6 || month == 9 || month == 11 then 30
    else 31
  }

  predicate Valid(t: Fields) {
    && 1 <= t.month <= 12 && 1 <= t.day <= DaysInMonth(t.year, t.month)
    && t.hour < 24 && t.minute < 60 && t.second < 60 && t.nano < 1_000_000_000
  }

  type Time = t: Fields | Valid(t) witness Fields(1970, 1, 1, 0, 0, 0, 0)

  /** The zero value of time.Time. */
  const ZERO: Time := Fields(1, 1, 1, 0, 0, 0, 0)

  // ---- position on the time line -----------------------------------------------------------

  function DaysBeforeYear(year: int): int {
    365 * (year - 1) + (year - 1) / 4 - (year - 1) / 100 + (year - 1) / 400
  }

  function DaysBeforeMonth(year: int, month: nat): nat {
    if month <= 1 then 0 else DaysBeforeMonth(year, month - 1) + DaysInMonth(year, month - 1)
  }

  const NANOS_PER_DAY: int := 86_400_000_000_000

  function NanoOfDay(t: Time): (n: int)
    ensures 0 <= n < NANOS_PER_DAY
  {
    ((t.hour * 60 + t.minute) * 60 + t.second) * 1_000_000_000 + t.nano
  }

  function DayNumber(t: Time): int {
    DaysBeforeYear(t.year) + DaysBeforeMonth(t.year, t.month) + t.day
  }

  /** Nanoseconds since 1970-01-01, unbounded. */
  function Nanos(t: Time): int {
    (DayNumber(t) - 719163) * NANOS_PER_DAY + NanoOfDay(t)
  }

  predicate Before(a: Time, b: Time) {
    Nanos(a) < Nanos(b)
  }

  /** Two's complement int64. */
  function Wrap64(n: int): (w: int)
    ensures -0x8000_0000_0000_0000 <= w < 0x8000_0000_0000_0000
    ensures FitsInt64(n) ==> w == n
  {
    (n + 0x8000_0000_0000_0000) % 0x1_0000_0000_0000_0000 - 0x8000_0000_0000_0000
  }

  predicate FitsInt64(n: int) {
    -0x8000_0000_0000_0000 <= n < 0x8000_0000_0000_0000
  }

  /** time.Time.UnixNano. */
  function UnixNano(t: Time): int {
    Wrap64(Nanos(t))
  }

  const TWO_64: int := 0x1_0000_0000_0000_0000

  /** How often the 64-bit range was passed; 0 from late September 1677 to 11 April 2262. */
  function Era(n: int): int {
    (n + 0x8000_0000_0000_0000) / TWO_64
  }

  /** Wrapping keeps the order of two instants exactly when they are further apart than the eras between
      them; for instants at most 2^64 nanoseconds apart, exactly when they are of one era. */
  lemma WrapKeepsOrder(a: int, b: int)
    requires a < b
    ensures Wrap64(a) < Wrap64(b) <==> b - a > TWO_64 * (Era(b) - Era(a))
    ensures b - a <= TWO_64 ==> (Wrap64(a) < Wrap64(b) <==> Era(a) == Era(b))
  {
    assert Wrap64(a) == a - TWO_64 * Era(a);
    assert Wrap64(b) == b - TWO_64 * Era(b);
  }

  /** On 12 April 2262 the stamps of midnight have fallen below those of the day before. */
  lemma OrderLost()
    ensures var a: Time, b: Time := Fields(2262, 4, 11, 0, 0, 0, 0), Fields(2262, 4, 12, 0, 0, 0, 0);
      Before(a, b) && UnixNano(b) < UnixNano(a)
  {
    assert DaysBeforeMonth(2262, 2) == 31;
    assert DaysBeforeMonth(2262, 3) == 59;
    assert DaysBeforeMonth(2262, 4) == 90;
  }

  lemma FourthYears(y: int)
    ensures y / 4 == (y - 1) / 4 + (if y % 4 == 0 then 1 else 0)
  {
  }

  lemma Centuries(y: int)
    ensures y / 100 == (y - 1) / 100 + (if y % 100 == 0 then 1 else 0)
    ensures y % 100 == 0 ==> y % 4 == 0
  {
  }

  lemma FourthCenturies(y: int)
    ensures y / 400 == (y - 1) / 400 + (if y % 400 == 0 then 1 else 0)
    ensures y % 400 == 0 ==> y % 100 == 0
  {
  }

  lemma YearLength(year: int)
    ensures DaysBeforeYear(year + 1) == DaysBeforeYear(year) + (if Leap(year) then 366 else 365)
  {
    FourthYears(year);
    Centuries(year);
    FourthCenturies(year);
  }

  lemma {:induction false} MonthsAreOrdered(year: int, m: nat, n: nat)
    requires 1 <= m < n
    ensures DaysBeforeMonth(year, m) + DaysInMonth(year, m) <= DaysBeforeMonth(year, n)
  {
    if m + 1 < n {
      MonthsAreOrdered(year, m, n - 1);
    }
  }

  lemma MonthsFillYear(y: int)
    ensures DaysBeforeMonth(y, 12) + 31 == if Leap(y) then 366 else 365
  {
    assert DaysBeforeMonth(y, 2) == 31;
    assert DaysBeforeMonth(y, 3) == 31 + DaysInMonth(y, 2);
    assert DaysBeforeMonth(y, 4) == DaysBeforeMonth(y, 3) + 31;
    assert DaysBeforeMonth(y, 5) == DaysBeforeMonth(y, 4) + 30;
    assert DaysBeforeMonth(y, 6) == DaysBeforeMonth(y, 5) + 31;
    assert DaysBeforeMonth(y, 7) == DaysBeforeMonth(y, 6) + 30;
    assert DaysBeforeMonth(y, 8) == DaysBeforeMonth(y, 7) + 31;
    assert DaysBeforeMonth(y, 9) == DaysBeforeMonth(y, 8) + 31;
    assert DaysBeforeMonth(y, 10) == DaysBeforeMonth(y, 9) + 30;
    assert DaysBeforeMonth(y, 11) == DaysBeforeMonth(y, 10) + 31;
    assert DaysBeforeMonth(y, 12) == DaysBeforeMonth(y, 11) + 30;
  }

  lemma DayFitsYear(t: Time)
    ensures 1 <= DayNumber(t) - DaysBeforeYear(t.year) <= (if Leap(t.year) then 366 else 365)
  {
    if t.month < 12 {
      MonthsAreOrdered(t.year, t.month, 12);
    }
    MonthsFillYear(t.year);
  }

  lemma {:induction false} YearsAreOrdered(y: int, z: int)
    requires y < z
    ensures DaysBeforeYear(y) + (if Leap(y) then 366 else 365) <= DaysBeforeYear(z)
    decreases z - y
  {
    YearLength(y);
    if y + 1 < z {
      YearsAreOrdered(y + 1, z);
    }
  }

  lemma DayNumberInjective(a: Time, b: Time)
    requires DayNumber(a) == DayNumber(b)
    ensures a.year == b.year && a.month == b.month && a.day == b.day
  {
    DayFitsYear(a);
    DayFitsYear(b);
    if a.year < b.year {
      YearsAreOrdered(a.year, b.year);
    } else if b.year < a.year {
      YearsAreOrdered(b.year, a.year);
    } else if a.month < b.month {
      MonthsAreOrdered(a.year, a.month, b.month);
    } else if b.month < a.month {
      MonthsAreOrdered(a.year, b.month, a.month);
    }
  }

  /** Two different UTC times are two different instants. */
  lemma NanosInjective(a: Time, b: Time)
    requires Nanos(a) == Nanos(b)
    ensures a == b
  {
    assert DayNumber(a) == DayNumber(b) && NanoOfDay(a) == NanoOfDay(b);
    DayNumberInjective(a, b);
  }

  /** a's fields come before b's in the order of the calendar and the clock. */
  predicate Earlier(a: Time, b: Time) {
    if a.year != b.year then a.year < b.year
    else if a.month != b.month then a.month < b.month
    else if a.day != b.day then a.day < b.day
    else if a.hour != b.hour then a.hour < b.hour
    else if a.minute != b.minute then a.minute < b.minute
    else if a.second != b.second then a.second < b.second
    else a.nano < b.nano
  }

  lemma EarlierDay(a: Time, b: Time)
    requires a.year < b.year || (a.year == b.year && (a.month < b.month || (a.month == b.month && a.day < b.day)))
    ensures DayNumber(a) < DayNumber(b)
  {
    DayFitsYear(a);
    DayFitsYear(b);
    if a.year < b.year {
      YearsAreOrdered(a.year, b.year);
    } else if a.month < b.month {
      MonthsAreOrdered(a.year, a.month, b.month);
    }
  }

  lemma EarlierInDay(a: Time, b: Time)
    requires a.year == b.year && a.month == b.month && a.day == b.day && Earlier(a, b)
    ensures NanoOfDay(a) < NanoOfDay(b)
  {
  }

  lemma EarlierIsBefore(a: Time, b: Time)
    requires Earlier(a, b)
    ensures Before(a, b)
  {
    if a.year == b.year && a.month == b.month && a.day == b.day {
      EarlierInDay(a, b);
    } else {
      EarlierDay(a, b);
    }
  }

  /** One instant is before another exactly when calendar and clock say so. */
  lemma BeforeIsEarlier(a: Time, b: Time)
    ensures Before(a, b) <==> Earlier(a, b)
  {
    if Earlier(a, b) {
      EarlierIsBefore(a, b);
    } else if a != b {
      EarlierIsBefore(b, a);
    }
  }

  /** The same time of the next day. */
  function NextDay(t: Time): Time {
    if t.day < DaysInMonth(t.year, t.month) then t.(day := t.day + 1)
    else if t.month < 12 then t.(day := 1, month := t.month + 1)
    else t.(day := 1, month := 1, year := t.year + 1)
  }

  /** The time a nanosecond later, as a clock turns. */
  function Tick(t: Time): Time {
    if t.nano < 999_999_999 then t.(nano := t.nano + 1)
    else if t.second < 59 then t.(nano := 0, second := t.second + 1)
    else if t.minute < 59 then t.(nano := 0, second := 0, minute := t.minute + 1)
    else if t.hour < 23 then t.(nano := 0, second := 0, minute := 0, hour := t.hour + 1)
    else NextDay(t.(nano := 0, second := 0, minute := 0, hour := 0))
  }

  lemma NextDayCounts(t: Time)
    ensures DayNumber(NextDay(t)) == DayNumber(t) + 1
  {
    if t.day == DaysInMonth(t.year, t.month) && t.month == 12 {
      YearLength(t.year);
      MonthsFillYear(t.year);
    }
  }

  /** Instants count the nanoseconds since the first of January 1970. */
  lemma TickCounts(t: Time)
    ensures Nanos(Tick(t)) == Nanos(t) + 1
    ensures Nanos(Fields(1970, 1, 1, 0, 0, 0, 0)) == 0
  {
    if t.hour == 23 && t.minute == 59 && t.second == 59 && t.nano == 999_999_999 {
      NextDayCounts(t.(nano := 0, second := 0, minute := 0, hour := 0));
    }
  }

  /** Every fourth year has a leap day, but only one in four centuries: 97 leap days in 400 years. */
  lemma FourHundredYears(year: int)
    ensures DaysBeforeYear(year + 400) == DaysBeforeYear(year) + 400 * 365 + 97
    ensures Leap(2024) && Leap(2000) && !Leap(1900) && !Leap(2023)
  {
  }

  // ---- text ---------------------------------------------------------------------------------

  /** At least four digits. */
  function MagnitudeText(m: nat): (s: string)
    ensures Text.AllDigits(s) && |s| > 0
  {
    if m < 10000 then Text.Padded(m, 4) else Text.Decimal(m)
  }

  function YearText(year: int): string {
    (if year < 0 then "-" else "") + MagnitudeText(if year < 0 then -year else year)
  }

  /** Digits without the zeros at their end. */
  function DropTrailingZeros(s: string): (r: string)
    ensures |r| <= |s| && r == s[..|r|]
    ensures forall i | |r| <= i < |s| :: s[i] == '0'
  {
    if s != [] && s[|s| - 1] == '0' then DropTrailingZeros(s[..|s| - 1]) else s
  }

  function FractionText(nano: nat): string {
    if nano == 0 then "" else "." + DropTrailingZeros(Text.Padded(nano, 9))
  }

  /** Everything after the dash that follows the year. */
  function RestText(t: Time): string {
    Text.Padded(t.month, 2) + ("-" + DayText(t))
  }

  function DayText(t: Time): string {
    Text.Padded(t.day, 2) + ("T" + HourText(t))
  }

  function HourText(t: Time): string {
    Text.Padded(t.hour, 2) + (":" + (Text.Padded(t.minute, 2) + (":" + SecondText(t))))
  }

  function SecondText(t: Time): string {
    Text.Padded(t.second, 2) + (FractionText(t.nano) + "Z")
  }

  function Format(t: Time): string {
    YearText(t.year) + "-" + RestText(t)
  }

  lemma PaddedInjective(a: nat, b: nat, width: nat)
    requires a < Text.Pow10(width) && b < Text.Pow10(width)
    requires Text.Padded(a, width) == Text.Padded(b, width)
    ensures a == b
  {
    Text.ValueOfPadded(a, width);
    Text.ValueOfPadded(b, width);
  }

  lemma Powers()
    ensures Text.Pow10(2) == 100 && Text.Pow10(4) == 10000 && Text.Pow10(9) == 1_000_000_000
  {
    assert Text.Pow10(3) == 1000;
    assert Text.Pow10(5) == 100000;
    assert Text.Pow10(7) == 10_000_000;
  }

  lemma {:induction false} DecimalIsLong(n: nat, k: nat)
    requires n >= Text.Pow10(k)
    ensures |Text.Decimal(n)| > k
  {
    if k > 0 {
      DecimalIsLong(n / 10, k - 1);
    }
  }

  lemma MagnitudeInjective(a: nat, b: nat)
    requires MagnitudeText(a) == MagnitudeText(b)
    ensures a == b
  {
    Powers();
    if a < 10000 { Text.ValueOfPadded(a, 4); } else { Text.ValueOfDecimal(a); DecimalIsLong(a, 4); }
    if b < 10000 { Text.ValueOfPadded(b, 4); } else { Text.ValueOfDecimal(b); DecimalIsLong(b, 4); }
  }

  lemma YearTextShape(year: int, r: string)
    ensures var m := MagnitudeText(if year < 0 then -year else year);
      var whole := YearText(year) + "-" + r;
      && '-' !in m
      && (year < 0 <==> whole[0] == '-')
      && (if year < 0 then whole[1..] else whole) == m + ['-'] + r
  {
    var m := MagnitudeText(if year < 0 then -year else year);
    if year < 0 {
      assert YearText(year) + "-" + r == ['-'] + (m + ['-'] + r);
    } else {
      assert YearText(year) + "-" + r == m + ['-'] + r;
    }
  }

  lemma YearInjective(a: int, r: string, b: int, s: string)
    requires YearText(a) + "-" + r == YearText(b) + "-" + s
    ensures a == b && r == s
  {
    YearTextShape(a, r);
    YearTextShape(b, s);
    var x := MagnitudeText(if a < 0 then -a else a);
    var y := MagnitudeText(if b < 0 then -b else b);
    Text.SplitFirst(x, r, y, s, '-');
    MagnitudeInjective(if a < 0 then -a else a, if b < 0 then -b else b);
  }

  lemma FractionInjective(a: nat, b: nat)
    requires a < 1_000_000_000 && b < 1_000_000_000
    requires FractionText(a) == FractionText(b)
    ensures a == b
  {
    Powers();
    if a != 0 && b != 0 {
      var s, t := Text.Padded(a, 9), Text.Padded(b, 9);
      assert FractionText(a)[1..] == DropTrailingZeros(s);
      assert FractionText(b)[1..] == DropTrailingZeros(t);
      assert s == t;
      PaddedInjective(a, b, 9);
    }
  }

  lemma PeelField(a: nat, r: string, b: nat, s: string)
    requires a < 100 && b < 100
    requires Text.Padded(a, 2) + r == Text.Padded(b, 2) + s
    ensures a == b && r == s
  {
    var whole := Text.Padded(a, 2) + r;
    assert whole[..2] == Text.Padded(a, 2) && whole[2..] == r;
    assert whole[..2] == Text.Padded(b, 2) && whole[2..] == s;
    Powers();
    PaddedInjective(a, b, 2);
  }

  lemma PeelSeparator(c: string, r: string, s: string)
    requires c + r == c + s
    ensures r == s
  {
    assert r == (c + r)[|c|..] && s == (c + s)[|c|..];
  }

  lemma SecondInjective(a: Time, b: Time)
    requires SecondText(a) == SecondText(b)
    ensures a.second == b.second && a.nano == b.nano
  {
    var x, y := FractionText(a.nano), FractionText(b.nano);
    PeelField(a.second, x + "Z", b.second, y + "Z");
    assert x == (x + "Z")[..|x + "Z"| - 1] && y == (y + "Z")[..|y + "Z"| - 1];
    FractionInjective(a.nano, b.nano);
  }

  lemma HourInjective(a: Time, b: Time)
    requires HourText(a) == HourText(b)
    ensures a.hour == b.hour && a.minute == b.minute && a.second == b.second && a.nano == b.nano
  {
    var x, y := Text.Padded(a.minute, 2) + (":" + SecondText(a)), Text.Padded(b.minute, 2) + (":" + SecondText(b));
    PeelField(a.hour, ":" + x, b.hour, ":" + y);
    PeelSeparator(":", x, y);
    PeelField(a.minute, ":" + SecondText(a), b.minute, ":" + SecondText(b));
    PeelSeparator(":", SecondText(a), SecondText(b));
    SecondInjective(a, b);
  }

  lemma RestInjective(a: Time, b: Time)
    requires RestText(a) == RestText(b)
    ensures a == b.(year := a.year)
  {
    PeelField(a.month, "-" + DayText(a), b.month, "-" + DayText(b));
    PeelSeparator("-", DayText(a), DayText(b));
    PeelField(a.day, "T" + HourText(a), b.day, "T" + HourText(b));
    PeelSeparator("T", HourText(a), HourText(b));
    HourInjective(a, b);
  }

  /** Two times print alike only if they are the same time. */
  lemma FormatInjective(a: Time, b: Time)
    requires Format(a) == Format(b)
    ensures a == b
  {
    YearInjective(a.year, RestText(a), b.year, RestText(b));
    RestInjective(a, b);
  }

  /** Two digits at a place of a text. */
  predicate Shows(s: string, at: nat, width: nat, n: nat) {
    at + width <= |s| && Text.AllDigits(s[at..at + width]) && Text.Value(s[at..at + width]) == n
  }

  predicate HasAt(s: string, at: nat, c: char) {
    at < |s| && s[at] == c
  }

  /** The field that a text continues with, and how it continues after that. */
  lemma FieldAt(s: string, at: nat, width: nat, n: nat, rest: string)
    requires at <= |s| && s[at..] == Text.Padded(n, width) + rest && n < Text.Pow10(width)
    ensures Shows(s, at, width, n) && s[at + width..] == rest
  {
    Text.ValueOfPadded(n, width);
    assert s[at..][..width] == Text.Padded(n, width) && s[at..][..width] == s[at..at + width];
    assert s[at..][width..] == rest && s[at..][width..] == s[at + width..];
  }

  lemma CharAt(s: string, at: nat, c: char, rest: string)
    requires at <= |s| && s[at..] == [c] + rest
    ensures HasAt(s, at, c) && s[at + 1..] == rest
  {
    assert s[at..][1..] == s[at + 1..];
  }

  predicate TimeAt(s: string, at: nat, t: Time) {
    && Shows(s, at, 2, t.hour) && HasAt(s, at + 2, ':') && Shows(s, at + 3, 2, t.minute) && HasAt(s, at + 5, ':')
    && Shows(s, at + 6, 2, t.second) && s[at + 8..] == FractionText(t.nano) + "Z"
  }

  lemma TimeFrom(s: string, at: nat, t: Time)
    requires at <= |s| && s[at..] == HourText(t)
    ensures TimeAt(s, at, t)
  {
    Powers();
    var m := Text.Padded(t.minute, 2) + (":" + SecondText(t));
    FieldAt(s, at, 2, t.hour, ":" + m);
    CharAt(s, at + 2, ':', m);
    FieldAt(s, at + 3, 2, t.minute, ":" + SecondText(t));
    CharAt(s, at + 5, ':', SecondText(t));
    FieldAt(s, at + 6, 2, t.second, FractionText(t.nano) + "Z");
  }

  lemma DateFrom(s: string, at: nat, t: Time)
    requires at <= |s| && s[at..] == RestText(t)
    ensures Shows(s, at, 2, t.month) && HasAt(s, at + 2, '-') && Shows(s, at + 3, 2, t.day) && HasAt(s, at + 5, 'T')
    ensures at + 6 <= |s| && s[at + 6..] == HourText(t)
  {
    Powers();
    FieldAt(s, at, 2, t.month, "-" + DayText(t));
    CharAt(s, at + 2, '-', DayText(t));
    FieldAt(s, at + 3, 2, t.day, "T" + HourText(t));
    CharAt(s, at + 5, 'T', HourText(t));
  }

  /** The layout of a time with a four-digit year: 2006-01-02T15:04:05, the fraction if any, and Z. */
  lemma FormatLayout(t: Time)
    requires 0 <= t.year < 10000
    ensures var s := Format(t);
      && Shows(s, 0, 4, t.year) && HasAt(s, 4, '-') && Shows(s, 5, 2, t.month) && HasAt(s, 7, '-')
      && Shows(s, 8, 2, t.day) && HasAt(s, 10, 'T') && TimeAt(s, 11, t)
  {
    var s := Format(t);
    Powers();
    assert s[0..] == Text.Padded(t.year, 4) + ("-" + RestText(t));
    FieldAt(s, 0, 4, t.year, "-" + RestText(t));
    CharAt(s, 4, '-', RestText(t));
    DateFrom(s, 5, t);
    TimeFrom(s, 11, t);
  }

  /** The fraction is nine digits without the zeros at their end, and missing if nothing is left. */
  lemma FractionLayout(nano: nat)
    requires 0 < nano < 1_000_000_000
    ensures var f := FractionText(nano);
      && 1 < |f| <= 10 && f[0] == '.' && f[|f| - 1] != '0'
      && Shows(f[1..] + seq(10 - |f|, _ => '0'), 0, 9, nano)
  {
    var digits := Text.Padded(nano, 9);
    assert Text.Value(digits) == nano by {
      Powers();
      Text.ValueOfPadded(nano, 9);
    }
    KeptAndZeros(digits);
    DroppedAll(digits);
    assert FractionText(nano)[1..] == DropTrailingZeros(digits);
    assert digits[0..9] == digits;
  }

  lemma KeptAndZeros(digits: string)
    requires Text.AllDigits(digits) && Text.Value(digits) > 0
    ensures var kept := DropTrailingZeros(digits);
      kept != [] && digits == kept + seq(|digits| - |kept|, _ => '0')
  {
    if DropTrailingZeros(digits) == [] {
      ZerosAreZero(digits);
    }
  }

  lemma {:induction false} ZerosAreZero(s: string)
    requires forall i | 0 <= i < |s| :: s[i] == '0'
    ensures Text.Value(s) == 0
  {
    if s != [] {
      ZerosAreZero(s[..|s| - 1]);
    }
  }

  lemma {:induction false} DroppedAll(s: string)
    ensures var r := DropTrailingZeros(s); r == [] || r[|r| - 1] != '0'
  {
    if s != [] && s[|s| - 1] == '0' {
      DroppedAll(s[..|s| - 1]);
    }
  }

  lemma FormatHasNoBar(t: Time)
    ensures '|' !in Format(t)
  {
    assert '|' !in YearText(t.year) by {
      Text.DigitsOnly(MagnitudeText(if t.year < 0 then -t.year else t.year), '|');
    }
    assert '|' !in SecondText(t) by {
      Text.DigitsOnly(Text.Padded(t.second, 2), '|');
      Text.DigitsOnly(Text.Padded(t.nano, 9), '|');
      assert '|' !in FractionText(t.nano);
    }
    assert '|' !in HourText(t) by {
      Text.DigitsOnly(Text.Padded(t.hour, 2), '|');
      Text.DigitsOnly(Text.Padded(t.minute, 2), '|');
    }
    assert '|' !in RestText(t) by {
      Text.DigitsOnly(Text.Padded(t.month, 2), '|');
      Text.DigitsOnly(Text.Padded(t.day, 2), '|');
      assert '|' !in DayText(t);
    }
  }
}
