// The software clock: calendar dates from the year 2000 on and seconds since its start.
module Calendar {

  const DAY: nat := 86400
  const TWO32: nat := 0x1_0000_0000
  const EPOCH_OFFSET: nat := 946684800

  // The year counts from 2000.
  datatype DateTime = DateTime(day: nat, month: nat, year: nat, hour: nat, minute: nat, second: nat)

  // ---- The calendar ----

  predicate Leap(y: nat) {
    y % 4 == 0 && (y % 100 != 0 || y % 400 == 0)
  }

  function YearDays(y: nat): nat {
    if Leap(y) then 366 else 365
  }

  function MonthDays(m: nat, y: nat): (d: nat)
    requires 1 <= m <= 12
    ensures 28 <= d <= 31
  {
    if m == 2 then (if Leap(y) then 29 else 28)
    else if m == 4 || m == 6 || m == 9 || m == 11 then 30 else 31
  }

  predicate ValidDate(dt: DateTime) {
    && 1 <= dt.month <= 12 && 1 <= dt.day <= MonthDays(dt.month, 2000 + dt.year)
    && dt.hour < 24 && dt.minute < 60 && dt.second < 60
  }

  // Days from the start of 2000 to the start of year y.
  function DaysToYear(y: nat): nat
    requires y >= 2000
  {
    if y == 2000 then 0 else DaysToYear(y - 1) + YearDays(y - 1)
  }

  // Days from the start of the year to the start of month m; month 13 stands for the end.
  function DaysToMonth(m: nat, y: nat): nat
    requires 1 <= m <= 13
  {
    if m == 1 then 0 else DaysToMonth(m - 1, y) + MonthDays(m - 1, y)
  }

  function DayNumber(dt: DateTime): nat
    requires ValidDate(dt)
  {
    DaysToYear(2000 + dt.year) + DaysToMonth(dt.month, 2000 + dt.year) + dt.day - 1
  }

  function Seconds(dt: DateTime): nat
    requires ValidDate(dt)
  {
    DayNumber(dt) * DAY + dt.hour * 3600 + dt.minute * 60 + dt.second
  }

  // The leap years up to n by the rule of the Gregorian calendar.
  function Leaps(n: nat): int {
    n / 4 - n / 100 + n / 400
  }

  // The day count agrees with the closed form: 365 days a year and one more for each leap year.
  lemma {:induction false} DaysClosedForm(y: nat)
    requires y >= 2000
    ensures DaysToYear(y) == 365 * (y - 2000) + Leaps(y - 1) - Leaps(1999)
    decreases y
  {
    if y > 2000 {
      DaysClosedForm(y - 1);
      LeapsStep(y - 1);
    }
  }

  lemma LeapsStep(y: nat)
    requires y >= 1
    ensures Leaps(y) == Leaps(y - 1) + if Leap(y) then 1 else 0
  {
    Multiple(y, 4);
    Multiple(y, 100);
    Multiple(y, 400);
    Divides(y);
  }

  lemma Divides(y: nat)
    ensures y % 400 == 0 ==> y % 100 == 0
    ensures y % 100 == 0 ==> y % 4 == 0
  {
    assert y % 400 == 0 ==> y == 100 * (4 * (y / 400));
    assert y % 100 == 0 ==> y == 4 * (25 * (y / 100));
  }

  lemma Multiple(y: nat, k: nat)
    requires y >= 1 && (k == 4 || k == 100 || k == 400)
    ensures y / k == (y - 1) / k + if y % k == 0 then 1 else 0
  {
  }

  function DaysBetween(x: nat, y: nat): nat
    requires x <= y
  {
    if x == y then 0 else DaysBetween(x, y - 1) + YearDays(y - 1)
  }

  lemma {:induction false} BetweenClosedForm(x: nat, y: nat)
    requires 1 <= x <= y
    ensures DaysBetween(x, y) == 365 * (y - x) + Leaps(y - 1) - Leaps(x - 1)
    decreases y
  {
    hide Leap, Leaps;
    if x < y {
      BetweenClosedForm(x, y - 1);
      LeapsStep(y - 1);
    }
  }

  // The offset is the time from the start of 1970 to the start of 2000.
  lemma OffsetIsThirtyYears()
    ensures EPOCH_OFFSET == 86400 * DaysBetween(1970, 2000)
  {
    hide DaysBetween;
    BetweenClosedForm(1970, 2000);
    assert Leaps(1999) == 484 && Leaps(1969) == 477;
  }

  // The lengths of the months, as the source's table has them.
  lemma MonthLengths(m: nat, y: nat)
    requires 1 <= m <= 12
    ensures MonthDays(m, y) == [31, if Leap(y) then 29 else 28, 31, 30, 31, 30, 31, 31, 30, 31, 30, 31][m - 1]
  {
  }

  lemma YearIsTwelveMonths(y: nat)
    ensures DaysToMonth(13, y) == YearDays(y)
  {
    MonthStep(1, y);
    MonthStep(2, y);
    MonthStep(3, y);
    MonthStep(4, y);
    MonthStep(5, y);
    MonthStep(6, y);
    MonthStep(7, y);
    MonthStep(8, y);
    MonthStep(9, y);
    MonthStep(10, y);
    MonthStep(11, y);
    MonthStep(12, y);
  }

  lemma MonthStep(m: nat, y: nat)
    requires 1 <= m <= 12
    ensures DaysToMonth(m + 1, y) == DaysToMonth(m, y) + MonthDays(m, y)
  {
  }

  lemma {:induction false} MonthsGrow(m: nat, n: nat, y: nat)
    requires 1 <= m < n <= 13
    ensures DaysToMonth(m, y) + MonthDays(m, y) <= DaysToMonth(n, y)
    decreases n
  {
    if m + 1 < n {
      MonthsGrow(m, n - 1, y);
    }
  }

  lemma {:induction false} YearsGrow(x: nat, y: nat)
    requires 2000 <= x < y
    ensures DaysToYear(x) + YearDays(x) <= DaysToYear(y)
    decreases y
  {
    if x + 1 < y {
      YearsGrow(x, y - 1);
    }
  }

  lemma DayInYear(dt: DateTime)
    requires ValidDate(dt)
    ensures DaysToMonth(dt.month, 2000 + dt.year) + dt.day - 1 < YearDays(2000 + dt.year)
  {
    MonthsGrow(dt.month, 13, 2000 + dt.year);
    YearIsTwelveMonths(2000 + dt.year);
  }

  // Two dates with the same day number are the same date.
  lemma DayNumberInjective(a: DateTime, b: DateTime)
    requires ValidDate(a) && ValidDate(b) && DayNumber(a) == DayNumber(b)
    ensures a.year == b.year && a.month == b.month && a.day == b.day
  {
    DayInYear(a);
    DayInYear(b);
    if a.year < b.year {
      YearsGrow(2000 + a.year, 2000 + b.year);
    } else if b.year < a.year {
      YearsGrow(2000 + b.year, 2000 + a.year);
    } else if a.month < b.month {
      MonthsGrow(a.month, b.month, 2000 + a.year);
    } else if b.month < a.month {
      MonthsGrow(b.month, a.month, 2000 + a.year);
    }
  }

  // Different dates have different second counts.
  lemma SecondsInjective(a: DateTime, b: DateTime)
    requires ValidDate(a) && ValidDate(b) && Seconds(a) == Seconds(b)
    ensures a == b
  {
    TimeOfDay(DayNumber(a), a.hour, a.minute, a.second);
    TimeOfDay(DayNumber(b), b.hour, b.minute, b.second);
    DayNumberInjective(a, b);
  }

  lemma TimeOfDay(days: nat, h: nat, m: nat, s: nat)
    requires h < 24 && m < 60 && s < 60
    ensures var t := days * DAY + h * 3600 + m * 60 + s;
            t / DAY == days && t % DAY / 3600 == h && t % DAY % 3600 / 60 == m && t % DAY % 3600 % 60 == s
  {
    var r := h * 3600 + m * 60 + s;
    assert r < DAY && r / 3600 == h && r % 3600 == m * 60 + s;
  }

  // ---- Conversions ----

  method DateTimeToEpoch(dt: DateTime) returns (epoch: nat)
    requires ValidDate(dt)
    ensures epoch == Seconds(dt) % TWO32
  {
    var days, fullYear := 0, 2000 + dt.year;
    var year := 2000;
    while year < fullYear
      invariant 2000 <= year <= fullYear && days == DaysToYear(year)
    {
      days := days + if Leap(year) then 366 else 365;
      year := year + 1;
    }
    var m := 1;
    while m < dt.month
      invariant 1 <= m <= dt.month && days == DaysToYear(fullYear) + DaysToMonth(m, fullYear)
    {
      days := days + MonthDays(m, fullYear);
      m := m + 1;
    }
    days := days + dt.day - 1;
    epoch := (days * DAY + dt.hour * 3600 + dt.minute * 60 + dt.second) % TWO32;
  }

  method EpochToDateTime(epoch: nat) returns (dt: DateTime)
    ensures ValidDate(dt) && Seconds(dt) == epoch
  {
    var days: nat := epoch / DAY;
    var rem: nat := epoch % DAY;
    var hour: nat := rem / 3600;
    rem := rem % 3600;
    var minute: nat, second: nat := rem / 60, rem % 60;
    ghost var total := days;
    var year: nat, done := 2000, false;
    while !done
      invariant year >= 2000 && total == DaysToYear(year) + days
      invariant done ==> days < YearDays(year)
      decreases !done, days
    {
      var daysInYear := if Leap(year) then 366 else 365;
      if days >= daysInYear {
        days := days - daysInYear;
        year := year + 1;
      } else {
        done := true;
      }
    }
    var month: nat, found := 1, false;
    ghost var dayOfYear := days;
    YearIsTwelveMonths(year);
    while !found
      invariant 1 <= month <= 12 && dayOfYear == DaysToMonth(month, year) + days
      invariant found ==> days < MonthDays(month, year)
      decreases !found, days
    {
      var dim := MonthDays(month, year);
      MonthStep(month, year);
      if days >= dim {
        days := days - dim;
        month := month + 1;
      } else {
        found := true;
      }
    }
    dt := DateTime(days + 1, month, year - 2000, hour, minute, second);
  }

  // ---- The running clock ----

  // Every 32-bit second count survives the two conversions.
  method EpochRoundTrip(epoch: nat) returns (back: nat)
    requires epoch < TWO32
    ensures back == epoch
  {
    hide Seconds;
    var dt := EpochToDateTime(epoch);
    back := DateTimeToEpoch(dt);
  }

  // The next second as the clock computes it: after the year 2099 comes the year 2000.
  function Tick(dt: DateTime): (r: DateTime)
    requires ValidDate(dt)
    ensures ValidDate(r)
  {
    if dt.second + 1 < 60 then dt.(second := dt.second + 1)
    else if dt.minute + 1 < 60 then dt.(second := 0, minute := dt.minute + 1)
    else if dt.hour + 1 < 24 then dt.(second := 0, minute := 0, hour := dt.hour + 1)
    else NextDay(dt.(second := 0, minute := 0, hour := 0))
  }

  function NextDay(dt: DateTime): (r: DateTime)
    requires ValidDate(dt)
    ensures ValidDate(r)
  {
    if dt.day + 1 <= MonthDays(dt.month, 2000 + dt.year) then dt.(day := dt.day + 1)
    else if dt.month + 1 <= 12 then dt.(day := 1, month := dt.month + 1)
    else if dt.year + 1 <= 99 then dt.(day := 1, month := 1, year := dt.year + 1)
    else dt.(day := 1, month := 1, year := 0)
  }

  predicate EndOfYear(dt: DateTime) {
    dt.month == 12 && dt.day == 31 && dt.hour == 23 && dt.minute == 59 && dt.second == 59
  }

  // One tick is one second exactly as long as the year does not wrap around.
  lemma TickIsOneSecond(dt: DateTime)
    requires ValidDate(dt)
    ensures Seconds(Tick(dt)) == Seconds(dt) + 1 <==> !(EndOfYear(dt) && dt.year >= 99)
    ensures EndOfYear(dt) && dt.year >= 99 ==> Tick(dt) == DateTime(1, 1, 0, 0, 0, 0)
  {
    hide DayNumber;
    if dt.hour == 23 && dt.minute == 59 && dt.second == 59 {
      NextDayIsOneDay(dt.(second := 0, minute := 0, hour := 0));
      SameDay(dt, dt.(second := 0, minute := 0, hour := 0));
    } else {
      SameDay(dt, Tick(dt));
    }
  }

  lemma SameDay(a: DateTime, b: DateTime)
    requires ValidDate(a) && ValidDate(b) && a.year == b.year && a.month == b.month && a.day == b.day
    ensures DayNumber(a) == DayNumber(b)
  {
  }

  lemma NextDayIsOneDay(dt: DateTime)
    requires ValidDate(dt)
    ensures DayNumber(NextDay(dt)) == DayNumber(dt) + 1 <==> !(dt.month == 12 && dt.day == 31 && dt.year >= 99)
  {
    var y := 2000 + dt.year;
    MonthStep(dt.month, y);
    YearIsTwelveMonths(y);
    if dt.month == 12 && dt.day == 31 {
      assert DaysToYear(y + 1) == DaysToYear(y) + YearDays(y);
      if dt.year >= 99 {
        YearsGrow(2000, y);
      }
    }
  }

  lemma WrapAdd(a: nat, b: nat)
    ensures (a % TWO32 + b) % TWO32 == (a + b) % TWO32
  {
    assert a + b == a / TWO32 * TWO32 + (a % TWO32 + b);
  }

  class Clock {
    var rtc: DateTime
    var days: nat
    var hours: nat
    var minutes: nat
    var seconds: nat

    ghost predicate Valid()
      reads this
    {
      ValidDate(rtc) && days < TWO32 && hours < 24 && minutes < 60 && seconds < 60
    }

    // How long the clock has been running.
    function Uptime(): nat
      reads this
    {
      days * DAY + hours * 3600 + minutes * 60 + seconds
    }

    constructor ()
      ensures Valid() && rtc == DateTime(1, 10, 25, 23, 59, 0) && Uptime() == 0
    {
      rtc := DateTime(1, 10, 25, 23, 59, 0);
      days, hours, minutes, seconds := 0, 0, 0, 0;
    }

    method Update()
      requires Valid()
      modifies this
      ensures Valid() && rtc == Tick(old(rtc))
      ensures Uptime() == (old(Uptime()) + 1) % (TWO32 * DAY)
    {
      rtc := rtc.(second := rtc.second + 1);
      if rtc.second >= 60 {
        rtc := rtc.(second := 0, minute := rtc.minute + 1);
        if rtc.minute >= 60 {
          rtc := rtc.(minute := 0, hour := rtc.hour + 1);
          if rtc.hour >= 24 {
            rtc := rtc.(hour := 0, day := rtc.day + 1);
            if rtc.day > MonthDays(rtc.month, 2000 + rtc.year) {
              rtc := rtc.(day := 1, month := rtc.month + 1);
              if rtc.month > 12 {
                rtc := rtc.(month := 1, year := rtc.year + 1);
                if rtc.year > 99 {
                  rtc := rtc.(year := 0);
                }
              }
            }
          }
        }
      }
      UpdateUptime();
    }

    method UpdateUptime()
      requires days < TWO32 && hours < 24 && minutes < 60 && seconds < 60
      modifies this`days, this`hours, this`minutes, this`seconds
      ensures days < TWO32 && hours < 24 && minutes < 60 && seconds < 60
      ensures Uptime() == (old(Uptime()) + 1) % (TWO32 * DAY)
    {
      seconds := seconds + 1;
      if seconds >= 60 {
        seconds := 0;
        minutes := minutes + 1;
        if minutes >= 60 {
          minutes := 0;
          hours := hours + 1;
          if hours >= 24 {
            hours := 0;
            days := (days + 1) % TWO32;
          }
        }
      }
    }

    // Times before 2000 are refused.
    method SetEpoch(epoch: nat)
      requires Valid() && epoch < TWO32
      modifies this`rtc
      ensures Valid()
      ensures if epoch < EPOCH_OFFSET then rtc == old(rtc) else Seconds(rtc) == epoch - EPOCH_OFFSET
    {
      if epoch < EPOCH_OFFSET {
        return;
      }
      rtc := EpochToDateTime(epoch - EPOCH_OFFSET);
    }

    method GetEpoch() returns (epoch: nat)
      requires Valid()
      ensures epoch == (Seconds(rtc) + EPOCH_OFFSET) % TWO32
    {
      hide Seconds;
      var s := DateTimeToEpoch(rtc);
      WrapAdd(Seconds(rtc), EPOCH_OFFSET);
      epoch := (s + EPOCH_OFFSET) % TWO32;
    }

    // The clock can be set to any second from 2000 on and read back.
    method SetThenGet(epoch: nat) returns (back: nat)
      requires Valid() && epoch < TWO32
      modifies this`rtc
      ensures Valid() && (epoch >= EPOCH_OFFSET ==> back == epoch)
    {
      SetEpoch(epoch);
      back := GetEpoch();
    }
  }
}
