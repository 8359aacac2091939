/** The slice of calendar arithmetic the EXDATE fallback window needs
    (app.js:76-79, 123-126): a proleptic Gregorian wall-clock time in a
    named zone, normalised the way an `ICAL.Time` is after `adjust`. */
module Civil {
  import Arith

  datatype CivilTime = CivilTime(year: int, month: int, day: int,
                                 hour: int, minute: int, second: int, zone: string)

  const SecondsPerDay := 86400

  predicate IsLeap(y: int) {
    y % 4 == 0 && (y % 100 != 0 || y % 400 == 0)
  }

  function DaysInMonth(y: int, m: int): (n: int)
    requires 1 <= m <= 12
    ensures 28 <= n <= 31
  {
    if m == 2 then (if IsLeap(y) then 29 else 28)
    else if m == 4 || m == 6 || m == 9 || m == 11 then 30
    else 31
  }

  function YearLength(y: int): int {
    if IsLeap(y) then 366 else 365
  }

  predicate Valid(t: CivilTime) {
    && 1 <= t.month <= 12
    && 1 <= t.day <= DaysInMonth(t.year, t.month)
    && 0 <= t.hour < 24 && 0 <= t.minute < 60 && 0 <= t.second < 60
  }

  /** Days of year `y` before the first of month `m`. */
  function DaysBeforeMonth(y: int, m: int): (n: int)
    requires 1 <= m <= 12
    ensures 0 <= n <= 31 * (m - 1)
  {
    if m == 1 then 0 else DaysBeforeMonth(y, m - 1) + DaysInMonth(y, m - 1)
  }

  /** Days from 1 January of year 1 to 1 January of year `y`. */
  function DaysBeforeYear(y: int): int {
    365 * (y - 1) + (y - 1) / 4 - (y - 1) / 100 + (y - 1) / 400
  }

  /** Consecutive day count: one more for each calendar day. */
  function DayNumber(t: CivilTime): int
    requires Valid(t)
  {
    DaysBeforeYear(t.year) + DaysBeforeMonth(t.year, t.month) + t.day - 1
  }

  function SecondOfDay(t: CivilTime): (s: int)
    requires Valid(t)
    ensures 0 <= s < SecondsPerDay
  {
    t.hour * 3600 + t.minute * 60 + t.second
  }

  /** Seconds since 0001-01-01T00:00:00 of the same zone's wall clock, the
      scale `subtractDateTz` and `addDuration` work on for floating times. */
  function Seconds(t: CivilTime): int
    requires Valid(t)
  {
    DayNumber(t) * SecondsPerDay + SecondOfDay(t)
  }

  // ---------------------------------------------------------------------
  // Year and month lengths

  /** Integer division by `d` steps up by one exactly at multiples of `d`. */
  lemma FloorStep(a: int, d: int)
    requires d > 0
    ensures (a + 1) / d - a / d == (if (a + 1) % d == 0 then 1 else 0)
  {
    var q, r := a / d, a % d;
    assert a == q * d + r;
    if r == d - 1 {
      Arith.DivModUnique(a + 1, d, q + 1, 0);
    } else {
      Arith.DivModUnique(a + 1, d, q, r + 1);
    }
  }

  lemma MultipleOf(y: int, k: int, d: int)
    requires k > 0 && d > 0 && y % (k * d) == 0
    ensures y % d == 0
  {
    var q := y / (k * d);
    assert y == q * (k * d);
    assert y == (q * k) * d + 0;
    Arith.DivModUnique(y, d, q * k, 0);
  }

  lemma LeapCount(y: int)
    ensures (if y % 4 == 0 then 1 else 0) - (if y % 100 == 0 then 1 else 0)
      + (if y % 400 == 0 then 1 else 0) == (if IsLeap(y) then 1 else 0)
  {
    if y % 400 == 0 { MultipleOf(y, 4, 100); }
    if y % 100 == 0 { MultipleOf(y, 25, 4); }
  }

  lemma DaysBeforeNextYear(y: int)
    ensures DaysBeforeYear(y + 1) == DaysBeforeYear(y) + YearLength(y)
  {
    FloorStep(y - 1, 4);
    FloorStep(y - 1, 100);
    FloorStep(y - 1, 400);
    LeapCount(y);
  }

  lemma DaysBeforeYearMonotone(y: int, z: int)
    requires y < z
    ensures DaysBeforeYear(y) + YearLength(y) <= DaysBeforeYear(z)
    decreases z - y
  {
    DaysBeforeNextYear(y);
    if y + 1 < z {
      DaysBeforeYearMonotone(y + 1, z);
    }
  }

  lemma DaysBeforeMonthMonotone(y: int, m: int, n: int)
    requires 1 <= m < n <= 12
    ensures DaysBeforeMonth(y, m) + DaysInMonth(y, m) <= DaysBeforeMonth(y, n)
    decreases n - m
  {
    if m + 1 < n {
      DaysBeforeMonthMonotone(y, m + 1, n);
    }
  }

  lemma WholeYear(y: int)
    ensures DaysBeforeMonth(y, 12) + DaysInMonth(y, 12) == YearLength(y)
  {
    var feb := DaysInMonth(y, 2);
    assert DaysBeforeMonth(y, 3) == 31 + feb;
    assert DaysBeforeMonth(y, 4) == 62 + feb;
    assert DaysBeforeMonth(y, 5) == 92 + feb;
    assert DaysBeforeMonth(y, 6) == 123 + feb;
    assert DaysBeforeMonth(y, 7) == 153 + feb;
    assert DaysBeforeMonth(y, 8) == 184 + feb;
    assert DaysBeforeMonth(y, 9) == 215 + feb;
    assert DaysBeforeMonth(y, 10) == 245 + feb;
    assert DaysBeforeMonth(y, 11) == 276 + feb;
    assert DaysBeforeMonth(y, 12) == 306 + feb;
  }

  // ---------------------------------------------------------------------
  // Stepping by calendar days

  /** The same wall-clock time on the following calendar day. */
  function NextDay(t: CivilTime): (r: CivilTime)
    requires Valid(t)
    ensures Valid(r)
  {
    if t.day < DaysInMonth(t.year, t.month) then t.(day := t.day + 1)
    else if t.month < 12 then t.(month := t.month + 1, day := 1)
    else t.(year := t.year + 1, month := 1, day := 1)
  }

  /** The same wall-clock time on the preceding calendar day. */
  function PrevDay(t: CivilTime): (r: CivilTime)
    requires Valid(t)
    ensures Valid(r)
  {
    if t.day > 1 then t.(day := t.day - 1)
    else if t.month > 1 then t.(month := t.month - 1, day := DaysInMonth(t.year, t.month - 1))
    else t.(year := t.year - 1, month := 12, day := 31)
  }

  predicate SameClock(a: CivilTime, b: CivilTime) {
    a.hour == b.hour && a.minute == b.minute && a.second == b.second && a.zone == b.zone
  }

  lemma NextDayNumber(t: CivilTime)
    requires Valid(t)
    ensures DayNumber(NextDay(t)) == DayNumber(t) + 1
    ensures SameClock(NextDay(t), t)
  {
    if t.day == DaysInMonth(t.year, t.month) && t.month == 12 {
      DaysBeforeNextYear(t.year);
      WholeYear(t.year);
    }
  }

  lemma PrevDayNumber(t: CivilTime)
    requires Valid(t)
    ensures DayNumber(PrevDay(t)) == DayNumber(t) - 1
    ensures SameClock(PrevDay(t), t)
  {
    if t.day == 1 && t.month == 1 {
      DaysBeforeNextYear(t.year - 1);
      WholeYear(t.year - 1);
    }
  }

  /** The day number pins down the calendar date. */
  lemma DayNumberInjective(a: CivilTime, b: CivilTime)
    requires Valid(a) && Valid(b) && DayNumber(a) == DayNumber(b)
    ensures a.year == b.year && a.month == b.month && a.day == b.day
  {
    if a.year < b.year {
      if a.month < 12 { DaysBeforeMonthMonotone(a.year, a.month, 12); }
      WholeYear(a.year);
      DaysBeforeYearMonotone(a.year, b.year);
      assert false;
    } else if b.year < a.year {
      if b.month < 12 { DaysBeforeMonthMonotone(b.year, b.month, 12); }
      WholeYear(b.year);
      DaysBeforeYearMonotone(b.year, a.year);
      assert false;
    } else if a.month < b.month {
      DaysBeforeMonthMonotone(a.year, a.month, b.month);
    } else if b.month < a.month {
      DaysBeforeMonthMonotone(a.year, b.month, a.month);
    }
  }

  /** Valid times with the same zone and the same second count are equal. */
  lemma SecondsInjective(a: CivilTime, b: CivilTime)
    requires Valid(a) && Valid(b) && a.zone == b.zone && Seconds(a) == Seconds(b)
    ensures a == b
  {
    var da, db := DayNumber(a), DayNumber(b);
    Arith.DivModUnique(Seconds(a), SecondsPerDay, da, SecondOfDay(a));
    Arith.DivModUnique(Seconds(b), SecondsPerDay, db, SecondOfDay(b));
    DayNumberInjective(a, b);
    Arith.DivModUnique(SecondOfDay(a), 3600, a.hour, a.minute * 60 + a.second);
    Arith.DivModUnique(SecondOfDay(b), 3600, b.hour, b.minute * 60 + b.second);
    Arith.DivModUnique(a.minute * 60 + a.second, 60, a.minute, a.second);
    Arith.DivModUnique(b.minute * 60 + b.second, 60, b.minute, b.second);
  }

  lemma NextPrevInverse(t: CivilTime)
    requires Valid(t)
    ensures PrevDay(NextDay(t)) == t && NextDay(PrevDay(t)) == t
  {
    NextDayNumber(t);
    PrevDayNumber(NextDay(t));
    PrevDayNumber(t);
    NextDayNumber(PrevDay(t));
    DayNumberInjective(PrevDay(NextDay(t)), t);
    DayNumberInjective(NextDay(PrevDay(t)), t);
  }

  /** `k` calendar days later (earlier when `k` is negative), same clock. */
  function AddDays(t: CivilTime, k: int): (r: CivilTime)
    requires Valid(t)
    ensures Valid(r)
    decreases if k < 0 then -k else k
  {
    if k == 0 then t
    else if k > 0 then AddDays(NextDay(t), k - 1)
    else AddDays(PrevDay(t), k + 1)
  }

  lemma {:induction false} AddDaysNumber(t: CivilTime, k: int)
    requires Valid(t)
    ensures DayNumber(AddDays(t, k)) == DayNumber(t) + k
    ensures SameClock(AddDays(t, k), t)
    decreases if k < 0 then -k else k
  {
    if k > 0 {
      NextDayNumber(t);
      AddDaysNumber(NextDay(t), k - 1);
    } else if k < 0 {
      PrevDayNumber(t);
      AddDaysNumber(PrevDay(t), k + 1);
    }
  }

  // ---------------------------------------------------------------------
  // Adding seconds with carry into the date

  /** A second of the day splits into the hour, minute and second `AddSeconds`
      writes. */
  lemma SplitClock(rem: int)
    requires 0 <= rem < SecondsPerDay
    ensures 0 <= rem / 3600 < 24 && 0 <= (rem % 3600) / 60 < 60 && 0 <= rem % 60 < 60
    ensures (rem / 3600) * 3600 + ((rem % 3600) / 60) * 60 + rem % 60 == rem
  {
    var h, r1 := rem / 3600, rem % 3600;
    var m, sec := r1 / 60, r1 % 60;
    assert rem == h * 3600 + r1;
    assert r1 == m * 60 + sec;
    assert rem == (h * 60 + m) * 60 + sec;
    Arith.DivModUnique(rem, 60, h * 60 + m, sec);
  }

  /** The time `n` seconds later on the same wall clock, carried into the
      date as `ICAL.Time` normalisation does: the second count moves by
      exactly `n` and the zone stays. */
  function AddSeconds(t: CivilTime, n: int): (r: CivilTime)
    requires Valid(t)
    ensures Valid(r)
    ensures Seconds(r) == Seconds(t) + n
    ensures r.zone == t.zone
  {
    var total := SecondOfDay(t) + n;
    var days, rem := total / SecondsPerDay, total % SecondsPerDay;
    var r := AddDays(t, days).(hour := rem / 3600, minute := (rem % 3600) / 60, second := rem % 60);
    AddDaysNumber(t, days);
    SplitClock(rem);
    assert SecondOfDay(r) == rem;
    assert DayNumber(r) == DayNumber(t) + days;
    assert total == days * SecondsPerDay + rem;
    assert (DayNumber(t) + days) * SecondsPerDay == DayNumber(t) * SecondsPerDay + days * SecondsPerDay;
    r
  }

  /** Shifting by the distance between two times of the same zone lands on
      the second one. */
  lemma AddSecondsDifference(a: CivilTime, b: CivilTime)
    requires Valid(a) && Valid(b) && a.zone == b.zone
    ensures AddSeconds(a, Seconds(b) - Seconds(a)) == b
  {
    SecondsInjective(AddSeconds(a, Seconds(b) - Seconds(a)), b);
  }

  /** `time.adjust(days, hours, minutes, seconds)`: the second count moves
      by the total of the four amounts, and the zone stays. */
  function Adjust(t: CivilTime, days: int, hours: int, minutes: int, seconds: int): (r: CivilTime)
    requires Valid(t)
    ensures Valid(r)
    ensures Seconds(r) == Seconds(t) + days * SecondsPerDay + hours * 3600 + minutes * 60 + seconds
    ensures r.zone == t.zone
  {
    AddSeconds(t, ((days * 24 + hours) * 60 + minutes) * 60 + seconds)
  }
}
