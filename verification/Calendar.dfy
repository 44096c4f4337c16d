// The date arithmetic of ReportCache: a packed-decimal stamp of the PLC becomes
// milliseconds since the epoch (src/report/cache.rs:334-389).
module Calendar {
  import opened Prelude

  const MILLIS_AT_2000: int := 946684800000

  predicate IsLeapYear(year: int) {
    (year % 4 == 0 && year % 100 != 0) || year % 400 == 0
  }

  // ----- the reference: section 4.16 of the POSIX.1-2017 Base Definitions -----

  /** Days from 1 January 1970 to 1 January of `year`, in closed form. */
  function PosixYearDays(year: int): (days: int)
    ensures year >= 1970 ==> days >= 0
  {
    var tmYear := year - 1900;
    (tmYear - 70) * 365 + (tmYear - 69) / 4 - (tmYear - 1) / 100 + (tmYear + 299) / 400
  }

  /** tm_yday: days from 1 January to the given day of the same year. */
  function PosixYearDay(year: int, month: nat, day: nat): nat
    requires 1 <= month <= 12 && 1 <= day
  {
    [0, 31, 59, 90, 120, 151, 181, 212, 243, 273, 304, 334][month - 1]
    + (if month > 2 && IsLeapYear(year) then 1 else 0) + day - 1
  }

  /** Month lengths as in section 5.7 of RFC 3339. */
  function DaysInMonth(year: int, month: nat): nat
    requires 1 <= month <= 12
  {
    if month == 2 then (if IsLeapYear(year) then 29 else 28)
    else if month in {4, 6, 9, 11} then 30 else 31
  }

  predicate IsCivilDate(year: int, month: nat, day: nat) {
    1 <= month <= 12 && 1 <= day <= DaysInMonth(year, month)
  }

  /** What days_since_epoch promises: the closed formula on accepted months and days. */
  function DayNumber(year: int, month: nat, day: nat): Option<nat> {
    if month == 0 || month > 12 || day == 0 || day > 31 then None
    else Some((if year >= 1970 then PosixYearDays(year) else 0) + PosixYearDay(year, month, day))
  }

  lemma YearStep(year: int)
    ensures PosixYearDays(year + 1) == PosixYearDays(year) + (if IsLeapYear(year) then 366 else 365)
  {
    LeapTermsStep(year);
    assert year % 100 == 0 ==> year % 4 == 0 by { DivisorsNest(year); }
    assert year % 400 == 0 ==> year % 100 == 0 by { DivisorsNest(year); }
  }

  lemma LeapTermsStep(year: int)
    ensures (year - 1968) / 4 == (year - 1969) / 4 + (if year % 4 == 0 then 1 else 0)
    ensures (year - 1900) / 100 == (year - 1901) / 100 + (if year % 100 == 0 then 1 else 0)
    ensures (year - 1600) / 400 == (year - 1601) / 400 + (if year % 400 == 0 then 1 else 0)
  {
    DivisionStep(year, 4, 492);
    DivisionStep(year, 100, 19);
    DivisionStep(year, 400, 4);
  }

  lemma DivisionStep(n: int, k: nat, c: int)
    requires k > 0
    ensures (n - k * c) / k == (n - k * c - 1) / k + (if n % k == 0 then 1 else 0)
  {
    var q, r := n / k, n % k;
    assert n == k * q + r;
    assert k * (q - c) == k * q - k * c;
    QuotientIsUnique(n - k * c, k, q - c, r);
    if r == 0 {
      assert k * (q - c - 1) == k * (q - c) - k;
      QuotientIsUnique(n - k * c - 1, k, q - c - 1, k - 1);
    } else {
      QuotientIsUnique(n - k * c - 1, k, q - c, r - 1);
    }
  }

  lemma DivisorsNest(year: int)
    ensures year % 100 == 0 ==> year % 4 == 0
    ensures year % 400 == 0 ==> year % 100 == 0
  {
    if year % 100 == 0 {
      QuotientIsUnique(year, 4, 25 * (year / 100), 0);
    }
    if year % 400 == 0 {
      QuotientIsUnique(year, 100, 4 * (year / 400), 0);
    }
  }

  /** The year and month loops of the source compute the closed formula. */
  method DaysSinceEpoch(year: int, month: nat, day: nat) returns (r: Option<nat>)
    ensures r == DayNumber(year, month, day)
  {
    if month == 0 || month > 12 || day == 0 || day > 31 {
      return None;
    }
    var totalDays: nat := 0;
    var y := 1970;
    while y < year
      invariant 1970 <= y
      invariant year >= 1970 ==> y <= year
      invariant year < 1970 ==> y == 1970
      invariant totalDays == PosixYearDays(y)
    {
      YearStep(y);
      totalDays := totalDays + if IsLeapYear(y) then 366 else 365;
      y := y + 1;
    }
    ghost var beforeMonths := totalDays;
    var daysInMonths := [0, 31, 28, 31, 30, 31, 30, 31, 31, 30, 31, 30, 31];
    var m := 1;
    while m < month
      invariant 1 <= m <= month
      invariant totalDays == beforeMonths + PosixYearDay(year, m, 1)
    {
      totalDays := totalDays + daysInMonths[m];
      if m == 2 && IsLeapYear(year) {
        totalDays := totalDays + 1;
      }
      m := m + 1;
    }
    totalDays := totalDays + day - 1;
    return Some(totalDays);
  }

  // ----- the closed formula counts civil days -----

  /** The civil date that follows a civil date. */
  function NextDate(year: int, month: nat, day: nat): (int, nat, nat)
    requires IsCivilDate(year, month, day)
  {
    if day < DaysInMonth(year, month) then (year, month, day + 1)
    else if month < 12 then (year, month + 1, 1)
    else (year + 1, 1, 1)
  }

  /** Day numbers start at 0 on 1 January 1970 and grow by one from each civil date to the next. */
  lemma DayNumbersCountCivilDays(year: int, month: nat, day: nat)
    requires year >= 1970 && IsCivilDate(year, month, day)
    ensures DayNumber(1970, 1, 1) == Some(0)
    ensures var next := NextDate(year, month, day);
            DayNumber(next.0, next.1, next.2) == Some(DayNumber(year, month, day).value + 1)
  {
    YearStep(year);
  }

  lemma YearsAreOrdered(y1: int, y2: int)
    requires y1 < y2
    ensures PosixYearDays(y1) + (if IsLeapYear(y1) then 366 else 365) <= PosixYearDays(y2)
    decreases y2 - y1
  {
    YearStep(y1);
    if y1 + 1 < y2 {
      YearsAreOrdered(y1 + 1, y2);
    }
  }

  lemma DayNumberIsMonotone(y1: int, m1: nat, d1: nat, y2: int, m2: nat, d2: nat)
    requires 1970 <= y1 && IsCivilDate(y1, m1, d1)
    requires 1970 <= y2 && IsCivilDate(y2, m2, d2)
    requires y1 < y2 || (y1 == y2 && (m1 < m2 || (m1 == m2 && d1 < d2)))
    ensures DayNumber(y1, m1, d1).value < DayNumber(y2, m2, d2).value
  {
    if y1 < y2 {
      YearsAreOrdered(y1, y2);
    }
  }

  // ----- stamps -----

  /** bcd_to_u8: shift, mask and an 8-bit sum that stays below 166. */
  function BcdToU8(bcd: Byte): Byte {
    (bcd / 16) * 10 + bcd % 16
  }

  function SecondOfDay(stamp: seq<Byte>): nat
    requires |stamp| == 6
  {
    BcdToU8(stamp[3]) * 3600 + BcdToU8(stamp[4]) * 60 + BcdToU8(stamp[5])
  }

  function StampDay(stamp: seq<Byte>): Option<nat>
    requires |stamp| == 6
  {
    DayNumber(BcdToU8(stamp[0]) + 2000, BcdToU8(stamp[1]), BcdToU8(stamp[2]))
  }

  function StampMillis(stamp: seq<Byte>): Option<int>
    requires |stamp| == 6
  {
    match StampDay(stamp)
    case None => None
    case Some(days) => Some((days * 86400 + SecondOfDay(stamp)) * 1000)
  }

  /** Eight bytes must be there although only six are used. */
  function ExtractS7DateTime(data: seq<Byte>, offset: nat): Option<int> {
    if |data| < offset + 8 then None else StampMillis(data[offset..offset + 6])
  }

  /** Whatever the bytes, an extracted stamp is not before 2000 and fits an i64, as do the
      u64 intermediates; so the rejection of stamps before 2000 never fires. */
  lemma StampsStayInRange(data: seq<Byte>, offset: nat)
    requires ExtractS7DateTime(data, offset).Some?
    ensures MILLIS_AT_2000 <= ExtractS7DateTime(data, offset).value < 0x7FFF_FFFF_FFFF_FFFF
  {
    var year := BcdToU8(data[offset]) + 2000;
    assert PosixYearDays(2000) == 10957 && PosixYearDays(2166) < 72000;
    if year > 2000 {
      YearsAreOrdered(2000, year);
    }
    YearsAreOrdered(year, 2166);
  }

  /** Extraction succeeds exactly when eight bytes are there and month and day are plausible. */
  lemma ExtractsExactlyWhen(data: seq<Byte>, offset: nat)
    ensures ExtractS7DateTime(data, offset).Some? <==>
            && offset + 8 <= |data|
            && 1 <= BcdToU8(data[offset + 1]) <= 12
            && 1 <= BcdToU8(data[offset + 2]) <= 31
  {
  }

  predicate IsBcd(b: Byte) {
    b / 16 <= 9 && b % 16 <= 9
  }

  /** Six packed-decimal bytes that name a civil date and a time of day. */
  predicate IsCalendarStamp(stamp: seq<Byte>) {
    && |stamp| == 6
    && (forall b :: b in stamp ==> IsBcd(b))
    && IsCivilDate(BcdToU8(stamp[0]) + 2000, BcdToU8(stamp[1]), BcdToU8(stamp[2]))
    && BcdToU8(stamp[3]) <= 23 && BcdToU8(stamp[4]) <= 59 && BcdToU8(stamp[5]) <= 59
  }

  /** Lexicographic order of byte strings of one length. */
  predicate LexLess(a: seq<Byte>, b: seq<Byte>)
    requires |a| == |b|
  {
    a != [] && (a[0] < b[0] || (a[0] == b[0] && LexLess(a[1..], b[1..])))
  }

  lemma {:induction false} LexIsTotal(a: seq<Byte>, b: seq<Byte>)
    requires |a| == |b|
    ensures LexLess(a, b) || LexLess(b, a) || a == b
  {
    if a != [] {
      LexIsTotal(a[1..], b[1..]);
      assert a == [a[0]] + a[1..] && b == [b[0]] + b[1..];
    }
  }

  lemma {:induction false} LexFirstDifference(a: seq<Byte>, b: seq<Byte>) returns (k: nat)
    requires |a| == |b| && LexLess(a, b)
    ensures k < |a| && a[k] < b[k] && forall n :: 0 <= n < k ==> a[n] == b[n]
  {
    k := 0;
    if a[0] == b[0] {
      var k' := LexFirstDifference(a[1..], b[1..]);
      k := k' + 1;
      forall n | 0 <= n < k ensures a[n] == b[n] {
        if n > 0 {
          assert a[1..][n - 1] == b[1..][n - 1];
        }
      }
    }
  }

  lemma BcdIsMonotone(a: Byte, b: Byte)
    requires IsBcd(a) && IsBcd(b)
    ensures a < b <==> BcdToU8(a) < BcdToU8(b)
  {
  }

  lemma WithinTheDay(stamp: seq<Byte>)
    requires IsCalendarStamp(stamp)
    ensures StampDay(stamp).Some? && SecondOfDay(stamp) < 86400
  {
  }

  lemma EarlierDay(s: seq<Byte>, t: seq<Byte>, k: nat)
    requires IsCalendarStamp(s) && IsCalendarStamp(t) && k < 3
    requires BcdToU8(s[k]) < BcdToU8(t[k]) && forall n :: 0 <= n < k ==> s[n] == t[n]
    ensures StampDay(s).Some? && StampDay(t).Some? && StampDay(s).value < StampDay(t).value
  {
    var sy, sm, sd := BcdToU8(s[0]) + 2000, BcdToU8(s[1]), BcdToU8(s[2]);
    var ty, tm, td := BcdToU8(t[0]) + 2000, BcdToU8(t[1]), BcdToU8(t[2]);
    assert k >= 1 ==> sy == ty;
    assert k >= 2 ==> sm == tm;
    DayNumberIsMonotone(sy, sm, sd, ty, tm, td);
  }

  lemma LaterInTheDay(s: seq<Byte>, t: seq<Byte>, k: nat)
    requires IsCalendarStamp(s) && IsCalendarStamp(t) && 3 <= k < 6
    requires BcdToU8(s[k]) < BcdToU8(t[k]) && forall n :: 0 <= n < k ==> s[n] == t[n]
    ensures StampDay(s) == StampDay(t) && SecondOfDay(s) < SecondOfDay(t)
  {
    assert s[0] == t[0] && s[1] == t[1] && s[2] == t[2];
    assert k <= 3 || s[3] == t[3];
    assert k <= 4 || s[4] == t[4];
  }

  lemma EarlierBytesEarlierMillis(s: seq<Byte>, t: seq<Byte>)
    requires IsCalendarStamp(s) && IsCalendarStamp(t) && LexLess(s, t)
    ensures StampMillis(s).Some? && StampMillis(t).Some? && StampMillis(s).value < StampMillis(t).value
  {
    WithinTheDay(s);
    WithinTheDay(t);
    var d, e := StampDay(s).value, StampDay(t).value;
    assert d < e || (d == e && SecondOfDay(s) < SecondOfDay(t)) by {
      var k := LexFirstDifference(s, t);
      BcdIsMonotone(s[k], t[k]);
      if k < 3 {
        EarlierDay(s, t, k);
      } else {
        LaterInTheDay(s, t, k);
      }
    }
    MillisOrder(d, SecondOfDay(s), e, SecondOfDay(t));
  }

  lemma MillisOrder(d: nat, s: nat, e: nat, t: nat)
    requires s < 86400 && t < 86400 && (d < e || (d == e && s < t))
    ensures (d * 86400 + s) * 1000 < (e * 86400 + t) * 1000
  {
  }

  /** On calendar stamps, the order of the six bytes is the order of the milliseconds. */
  lemma StampOrderEmbedding(a: seq<Byte>, i: nat, b: seq<Byte>, j: nat)
    requires i + 8 <= |a| && IsCalendarStamp(a[i..i + 6])
    requires j + 8 <= |b| && IsCalendarStamp(b[j..j + 6])
    ensures ExtractS7DateTime(a, i).Some? && ExtractS7DateTime(b, j).Some?
    ensures ExtractS7DateTime(a, i).value < ExtractS7DateTime(b, j).value
            <==> LexLess(a[i..i + 6], b[j..j + 6])
    ensures ExtractS7DateTime(a, i) == ExtractS7DateTime(b, j) <==> a[i..i + 6] == b[j..j + 6]
  {
    var s, t := a[i..i + 6], b[j..j + 6];
    LexIsTotal(s, t);
    if LexLess(s, t) {
      EarlierBytesEarlierMillis(s, t);
    } else if LexLess(t, s) {
      EarlierBytesEarlierMillis(t, s);
    }
  }

  // ----- impossible dates -----

  /** Two dates of one year with one day number. */
  predicate SharesDay(year: int, m: nat, d: nat, month: nat, day: nat) {
    IsCivilDate(year, m, d) && (m != month || d != day) && DayNumber(year, m, d) == DayNumber(year, month, day)
  }

  /** An accepted date that is not on the calendar has the day number of a later civil date. */
  lemma OverflowsIntoNextMonth(year: int, month: nat, day: nat)
    requires 1 <= month <= 12 && 1 <= day <= 31 && !IsCivilDate(year, month, day)
    ensures month < 12 && day > DaysInMonth(year, month)
    ensures SharesDay(year, month + 1, day - DaysInMonth(year, month), month, day)
  {
  }

  /** Among the months and days the code accepts, exactly the impossible dates share their
      day number, and so their stamp, with another date that is on the calendar. */
  lemma ImpossibleDatesCollide(year: int, month: nat, day: nat)
    requires year >= 1970 && 1 <= month <= 12 && 1 <= day <= 31
    ensures !IsCivilDate(year, month, day) <==> exists m: nat, d: nat :: SharesDay(year, m, d, month, day)
  {
    if !IsCivilDate(year, month, day) {
      OverflowsIntoNextMonth(year, month, day);
    } else {
      forall m: nat, d: nat | IsCivilDate(year, m, d) && (m != month || d != day)
        ensures DayNumber(year, m, d) != DayNumber(year, month, day)
      {
        if m < month || (m == month && d < day) {
          DayNumberIsMonotone(year, m, d, year, month, day);
        } else {
          DayNumberIsMonotone(year, month, day, year, m, d);
        }
      }
    }
  }

  /** An instance in bytes: 30 February 2001 extracts as 2 March 2001. */
  lemma FebruaryThirtiethIsMarchSecond(stamp: seq<Byte>, other: seq<Byte>)
    requires stamp == [0x01, 0x02, 0x30, 0, 0, 0] && other == [0x01, 0x03, 0x02, 0, 0, 0]
    ensures StampMillis(stamp).Some? && StampMillis(stamp) == StampMillis(other)
  {
    hide DayNumber;
    assert stamp[0] == other[0] && stamp[3] == other[3] && stamp[4] == other[4] && stamp[5] == other[5];
    assert BcdToU8(stamp[0]) == 1 && BcdToU8(stamp[1]) == 2 && BcdToU8(stamp[2]) == 30;
    assert BcdToU8(other[1]) == 3 && BcdToU8(other[2]) == 2;
    FebruaryThirtieth(2001);
  }

  lemma FebruaryThirtieth(year: int)
    requires !IsLeapYear(year)
    ensures DayNumber(year, 2, 30).Some? && DayNumber(year, 2, 30) == DayNumber(year, 3, 2)
  {
  }

  // ----- calendar stamps are the seconds of a century -----

  const MILLIS_AT_2100: int := 4102444800000

  /** The civil date with this day number. */
  function CivilDateOf(days: nat): (date: (int, nat, nat))
    ensures date.0 >= 1970 && IsCivilDate(date.0, date.1, date.2)
    ensures DayNumber(date.0, date.1, date.2) == Some(days)
  {
    if days == 0 then (1970, 1, 1)
    else
      var before := CivilDateOf(days - 1);
      DayNumbersCountCivilDays(before.0, before.1, before.2);
      NextDate(before.0, before.1, before.2)
  }

  function ToBcd(n: nat): (b: Byte)
    requires n < 100
    ensures IsBcd(b) && BcdToU8(b) == n
  {
    n / 10 * 16 + n % 10
  }

  lemma YearsOfTheCentury(year: int)
    requires year >= 1970
    ensures year < 2000 <==> PosixYearDays(year) < 10957
    ensures year < 2100 <==> PosixYearDays(year) < 47482
    ensures year < 2000 ==> PosixYearDays(year) + (if IsLeapYear(year) then 366 else 365) <= 10957
    ensures year < 2100 ==> PosixYearDays(year) + (if IsLeapYear(year) then 366 else 365) <= 47482
  {
    assert PosixYearDays(2000) == 10957 && PosixYearDays(2100) == 47482;
    if year < 2000 {
      YearsAreOrdered(year, 2000);
    } else if 2000 < year {
      YearsAreOrdered(2000, year);
    }
    if year < 2100 {
      YearsAreOrdered(year, 2100);
    } else if 2100 < year {
      YearsAreOrdered(2100, year);
    }
  }

  /** A civil date is of the years 2000 to 2099 exactly when its day number is. */
  lemma DaysOfTheCentury(year: int, month: nat, day: nat)
    requires year >= 1970 && IsCivilDate(year, month, day)
    ensures 2000 <= year < 2100 <==> 10957 <= DayNumber(year, month, day).value < 47482
  {
    YearsOfTheCentury(year);
  }

  function DateBytes(days: nat): (b: seq<Byte>)
    requires 10957 <= days < 47482
    ensures |b| == 3 && forall x :: x in b ==> IsBcd(x)
    ensures IsCivilDate(BcdToU8(b[0]) + 2000, BcdToU8(b[1]), BcdToU8(b[2]))
    ensures DayNumber(BcdToU8(b[0]) + 2000, BcdToU8(b[1]), BcdToU8(b[2])) == Some(days)
  {
    var (year, month, day) := CivilDateOf(days);
    DaysOfTheCentury(year, month, day);
    hide DayNumber, BcdToU8;
    [ToBcd(year - 2000), ToBcd(month), ToBcd(day)]
  }

  function TimeBytes(time: nat): (b: seq<Byte>)
    requires time < 86400
    ensures |b| == 3 && forall x :: x in b ==> IsBcd(x)
    ensures BcdToU8(b[0]) <= 23 && BcdToU8(b[1]) <= 59 && BcdToU8(b[2]) <= 59
    ensures BcdToU8(b[0]) * 3600 + BcdToU8(b[1]) * 60 + BcdToU8(b[2]) == time
  {
    hide BcdToU8, IsBcd;
    var hour := time / 3600;
    var rest := time - hour * 3600;
    var minute := rest / 60;
    [ToBcd(hour), ToBcd(minute), ToBcd(rest - minute * 60)]
  }

  /** The stamp of a second, counted since the epoch. */
  function StampOf(second: nat): (stamp: seq<Byte>)
    requires MILLIS_AT_2000 <= second * 1000 < MILLIS_AT_2100
    ensures |stamp| == 6
  {
    DateBytes(second / 86400) + TimeBytes(second % 86400)
  }

  lemma StampOfIsACalendarStamp(second: nat)
    requires MILLIS_AT_2000 <= second * 1000 < MILLIS_AT_2100
    ensures IsCalendarStamp(StampOf(second)) && StampMillis(StampOf(second)) == Some(second * 1000)
  {
    hide DayNumber, BcdToU8, IsBcd, IsCivilDate, DateBytes, TimeBytes;
    var days, time := second / 86400, second % 86400;
    var stamp, date, clock := StampOf(second), DateBytes(days), TimeBytes(time);
    assert stamp[0] == date[0] && stamp[1] == date[1] && stamp[2] == date[2];
    assert stamp[3] == clock[0] && stamp[4] == clock[1] && stamp[5] == clock[2];
    assert StampDay(stamp) == Some(days) && SecondOfDay(stamp) == time;
    assert second == days * 86400 + time;
  }

  lemma AcceptedStampsAreWholeSeconds(stamp: seq<Byte>) returns (second: nat)
    requires |stamp| == 6 && StampMillis(stamp).Some?
    ensures StampMillis(stamp) == Some(second * 1000) && MILLIS_AT_2000 <= second * 1000
  {
    second := StampDay(stamp).value * 86400 + SecondOfDay(stamp);
    var data := stamp + [0, 0];
    assert data[0..6] == stamp;
    StampsStayInRange(data, 0);
    hide StampDay, SecondOfDay;
  }

  lemma CalendarStampsAreOfTheCentury(stamp: seq<Byte>)
    requires IsCalendarStamp(stamp)
    ensures StampMillis(stamp).Some? && MILLIS_AT_2000 <= StampMillis(stamp).value < MILLIS_AT_2100
  {
    WithinTheDay(stamp);
    assert IsBcd(stamp[0]);
    DaysOfTheCentury(BcdToU8(stamp[0]) + 2000, BcdToU8(stamp[1]), BcdToU8(stamp[2]));
    assert 10957 <= StampDay(stamp).value < 47482;
    hide StampDay, SecondOfDay, DayNumber, IsCalendarStamp, BcdToU8;
  }

  lemma CalendarStampsAreSeconds(stamp: seq<Byte>) returns (second: nat)
    requires IsCalendarStamp(stamp)
    ensures StampMillis(stamp) == Some(second * 1000)
    ensures MILLIS_AT_2000 <= second * 1000 < MILLIS_AT_2100
    ensures StampOf(second) == stamp
  {
    CalendarStampsAreOfTheCentury(stamp);
    second := AcceptedStampsAreWholeSeconds(stamp);
    StampOfIsACalendarStamp(second);
    var other := StampOf(second);
    hide StampMillis, IsCalendarStamp, StampOf;
    LexIsTotal(stamp, other);
    if LexLess(stamp, other) {
      EarlierBytesEarlierMillis(stamp, other);
    } else if LexLess(other, stamp) {
      EarlierBytesEarlierMillis(other, stamp);
    }
  }

  /** Calendar stamps are in bijection with the seconds from 2000 to 2099: extraction gives
      each second for the stamp `StampOf` it, and each calendar stamp is that of the second
      extracted from it. */
  lemma StampsAreTheSecondsOfTheCentury(data: seq<Byte>, offset: nat) returns (second: nat)
    requires offset + 8 <= |data| && IsCalendarStamp(data[offset..offset + 6])
    ensures MILLIS_AT_2000 <= second * 1000 < MILLIS_AT_2100
    ensures ExtractS7DateTime(data, offset) == Some(second * 1000)
    ensures StampOf(second) == data[offset..offset + 6]
  {
    second := CalendarStampsAreSeconds(data[offset..offset + 6]);
  }

  /** Extracting the stamp of a second gives that second. */
  lemma ExtractsTheSecond(data: seq<Byte>, offset: nat, second: nat)
    requires MILLIS_AT_2000 <= second * 1000 < MILLIS_AT_2100
    requires offset + 8 <= |data|
    ensures data[offset..offset + 6] == StampOf(second) ==> ExtractS7DateTime(data, offset) == Some(second * 1000)
  {
    StampOfIsACalendarStamp(second);
  }

  /** Whatever six bytes the code accepts, it gives the milliseconds of a calendar stamp
      exactly when these lie before 2100. So a stamp off the calendar, in its date, its time of
      day or its packed digits, is taken for another one exactly before 2100. */
  lemma AcceptedStampsCollideExactlyBefore2100(data: seq<Byte>, offset: nat)
    requires ExtractS7DateTime(data, offset).Some?
    ensures ExtractS7DateTime(data, offset).value < MILLIS_AT_2100
            <==> exists t :: IsCalendarStamp(t) && ExtractS7DateTime(t + [0, 0], 0) == ExtractS7DateTime(data, offset)
  {
    var second := AcceptedStampsAreWholeSeconds(data[offset..offset + 6]);
    hide StampMillis, IsCalendarStamp, StampOf;
    forall t | IsCalendarStamp(t) ensures ExtractS7DateTime(t + [0, 0], 0) == StampMillis(t) {
      StampIsExtracted(t);
    }
    if second * 1000 < MILLIS_AT_2100 {
      StampOfIsACalendarStamp(second);
    }
    forall t | IsCalendarStamp(t) && StampMillis(t) == Some(second * 1000) ensures second * 1000 < MILLIS_AT_2100 {
      CalendarStampsAreOfTheCentury(t);
    }
  }

  lemma StampIsExtracted(stamp: seq<Byte>)
    requires IsCalendarStamp(stamp)
    ensures |stamp| == 6 && ExtractS7DateTime(stamp + [0, 0], 0) == StampMillis(stamp)
  {
    assert (stamp + [0, 0])[0..6] == stamp;
    hide StampMillis;
  }

  // ----- the reference for every accepted stamp -----

  /** Seconds since the epoch, by the formula of section 4.16 of the POSIX.1-2017 Base
      Definitions, which takes fields beyond their ranges too. */
  function PosixSeconds(year: int, yearDay: int, hour: int, minute: int, second: int): int {
    var tmYear := year - 1900;
    second + minute * 60 + hour * 3600 + yearDay * 86400 + (tmYear - 70) * 31536000
    + (tmYear - 69) / 4 * 86400 - (tmYear - 1) / 100 * 86400 + (tmYear + 299) / 400 * 86400
  }

  /** Packed decimal digits count ten and one, valid digits or not. */
  lemma BcdCounts(b: Byte)
    ensures BcdToU8(b) == if b < 16 then b else 10 + BcdToU8(b - 16)
  {
    if b >= 16 {
      assert (b - 16) / 16 == b / 16 - 1;
    }
  }

  function FieldOf(data: seq<Byte>, offset: nat, i: nat): nat
    requires offset + i < |data|
  {
    BcdToU8(data[offset + i])
  }

  /** Every accepted stamp, on the calendar or off it, has the milliseconds of the formula for
      its fields, the day of the year being counted from the first of its month. */
  lemma ExtractionIsPosixTime(data: seq<Byte>, offset: nat)
    requires ExtractS7DateTime(data, offset).Some?
    ensures offset + 8 <= |data| && 1 <= FieldOf(data, offset, 1) <= 12
    ensures var year, month := 2000 + FieldOf(data, offset, 0), FieldOf(data, offset, 1);
            var yearDay := PosixYearDay(year, month, 1) + FieldOf(data, offset, 2) - 1;
            var seconds := PosixSeconds(year, yearDay, FieldOf(data, offset, 3), FieldOf(data, offset, 4),
                                        FieldOf(data, offset, 5));
            ExtractS7DateTime(data, offset) == Some(1000 * seconds)
  {
    hide BcdToU8;
    var stamp := data[offset..offset + 6];
    assert forall i :: 0 <= i < 6 ==> stamp[i] == data[offset + i];
  }
}
