/** ngx_parse_time.c: the three date formats of section 5.6.7 of RFC 9110, and the formula that turns a date into
    seconds since 1970. */
module HttpDate {

  datatype Option<T> = None | Some(value: T)

  /** A point in time; months count from 0. */
  datatype Stamp = Stamp(year: nat, month: nat, day: nat, hour: nat, min: nat, sec: nat)

  /* ---- the calendar ---- */

  predicate Leap(year: int) {
    year % 4 == 0 && (year % 100 != 0 || year % 400 == 0)
  }

  function YearLength(year: int): int {
    if Leap(year) then 366 else 365
  }

  /** mday[], but for the month that depends on the year */
  function MonthLength(year: int, month: int): int
    requires 0 <= month < 12
  {
    if month == 1 then if Leap(year) then 29 else 28
    else if month == 3 || month == 5 || month == 8 || month == 10 then 30 else 31
  }

  /** The days of the years before a year, from year 0 on. */
  function DaysBeforeYear(year: nat): int {
    if year == 0 then 0 else DaysBeforeYear(year - 1) + YearLength(year - 1)
  }

  function DaysBeforeMonth(year: int, month: int): int
    requires 0 <= month < 12
    decreases month
  {
    if month == 0 then 0 else DaysBeforeMonth(year, month - 1) + MonthLength(year, month - 1)
  }

  /** The days from 1 January 1970, found by adding up years and months. */
  function DayCount(year: nat, month: nat, day: nat): int
    requires month < 12
  {
    DaysBeforeYear(year) - DaysBeforeYear(1970) + DaysBeforeMonth(year, month) + day - 1
  }

  function Seconds(s: Stamp): int
    requires s.month < 12
  {
    DayCount(s.year, s.month, s.day) * 86400 + s.hour * 3600 + s.min * 60 + s.sec
  }

  predicate IsDate(year: nat, month: nat, day: nat) {
    month < 12 && 1 <= day <= MonthLength(year, month)
  }

  /** What is accepted: the day may be 0, which counts as the day before the first. */
  predicate Accepted(s: Stamp) {
    s.month < 12 && s.day <= MonthLength(s.year, s.month) && s.hour <= 23 && s.min <= 59 && s.sec <= 59
  }

  /** The day after a date. */
  function NextDay(year: nat, month: nat, day: nat): (r: (nat, nat, nat))
    requires IsDate(year, month, day)
    ensures IsDate(r.0, r.1, r.2)
  {
    if day < MonthLength(year, month) then (year, month, day + 1)
    else if month < 11 then (year, month + 1, 1)
    else (year + 1, 0, 1)
  }

  /* ---- Gauss' formula ---- */

  const TWO64: int := 0x1_0000_0000_0000_0000

  /** A time_t of the same bits. */
  function Signed(x: int): int {
    if x >= TWO64 / 2 then x - TWO64 else x
  }

  /** The formula for a year that starts in March, with months from 1. */
  function March(year: int, month: int, day: int): int {
    365 * year + year / 4 - year / 100 + year / 400 + 367 * month / 12 - 30 + day - 1 - 719527 + 31 + 28
  }

  /** The year and the month are shifted; a year before year 0 wraps around, being unsigned. */
  function Gauss(year: nat, month: nat, day: nat): int {
    if month - 1 <= 0 then March((year - 1) % TWO64, month + 11, day) else March(year, month - 1, day)
  }

  /** What is computed, in 64 bits; a sum or product is the same whether it is reduced at once or at the end. */
  function Time(s: Stamp): int {
    (Gauss(s.year, s.month, s.day) * 86400 + s.hour * 3600 + s.min * 60 + s.sec) % TWO64
  }

  /** Rounding up to k, one year later. */
  lemma Quarters(z: nat)
    ensures (z + 4) / 4 == (z + 3) / 4 + if z % 4 == 0 then 1 else 0
  {
  }

  lemma Centuries(z: nat)
    ensures (z + 100) / 100 == (z + 99) / 100 + if z % 100 == 0 then 1 else 0
  {
    var q, r := z / 100, z % 100;
    assert z == 100 * q + r && (z + 100) / 100 == q + 1;
    var a := (z + 99) / 100;
    assert 100 * a <= z + 99 < 100 * a + 100;
  }

  lemma Cycles(z: nat)
    ensures (z + 400) / 400 == (z + 399) / 400 + if z % 400 == 0 then 1 else 0
  {
    var q, r := z / 400, z % 400;
    assert z == 400 * q + r && (z + 400) / 400 == q + 1;
    var a := (z + 399) / 400;
    assert 400 * a <= z + 399 < 400 * a + 400;
  }

  lemma Multiples(z: nat)
    ensures (z % 100 == 0 ==> z % 4 == 0) && (z % 400 == 0 ==> z % 100 == 0)
  {
    if z % 100 == 0 {
      assert z == 4 * (25 * (z / 100));
    }
    if z % 400 == 0 {
      assert z == 100 * (4 * (z / 400));
    }
  }

  lemma {:induction false} YearsClosed(year: nat)
    ensures DaysBeforeYear(year) == 365 * year + (year + 3) / 4 - (year + 99) / 100 + (year + 399) / 400
  {
    if year > 0 {
      YearsClosed(year - 1);
      Quarters(year - 1);
      Centuries(year - 1);
      Cycles(year - 1);
      Multiples(year - 1);
    }
  }

  lemma EpochClosed()
    ensures DaysBeforeYear(1970) == 719528
  {
    hide DaysBeforeYear;
    YearsClosed(1970);
  }

  lemma MonthsClosed(year: nat, month: nat)
    requires month < 12
    ensures DaysBeforeMonth(year, month) ==
              if month < 2 then 367 * (month + 11) / 12 - 30 - 306
              else 59 + (if Leap(year) then 1 else 0) + 367 * (month - 1) / 12 - 30
  {
    assert DaysBeforeMonth(year, 0) == 0;
    assert DaysBeforeMonth(year, 1) == 31;
    assert DaysBeforeMonth(year, 2) == DaysBeforeMonth(year, 1) + MonthLength(year, 1);
    assert DaysBeforeMonth(year, 3) == DaysBeforeMonth(year, 2) + 31;
    assert DaysBeforeMonth(year, 4) == DaysBeforeMonth(year, 3) + 30;
    assert DaysBeforeMonth(year, 5) == DaysBeforeMonth(year, 4) + 31;
    assert DaysBeforeMonth(year, 6) == DaysBeforeMonth(year, 5) + 30;
    assert DaysBeforeMonth(year, 7) == DaysBeforeMonth(year, 6) + 31;
    assert DaysBeforeMonth(year, 8) == DaysBeforeMonth(year, 7) + 31;
    assert DaysBeforeMonth(year, 9) == DaysBeforeMonth(year, 8) + 30;
    assert DaysBeforeMonth(year, 10) == DaysBeforeMonth(year, 9) + 31;
    assert DaysBeforeMonth(year, 11) == DaysBeforeMonth(year, 10) + 30;
  }

  /** The formula counts days, for every year but those that start before year 0. */
  lemma GaussCounts(year: nat, month: nat, day: nat)
    requires month < 12 && year < TWO64 && (year >= 1 || month >= 2)
    ensures Gauss(year, month, day) == DayCount(year, month, day)
  {
    hide DaysBeforeYear;
    hide DaysBeforeMonth;
    YearsClosed(year);
    EpochClosed();
    MonthsClosed(year, month);
    hide Leap;
    if month < 2 {
      YearBefore(year);
    } else {
      YearSoFar(year);
    }
  }

  lemma YearSoFar(year: nat)
    ensures year / 4 - year / 100 + year / 400 ==
              (year + 3) / 4 - (year + 99) / 100 + (year + 399) / 400 - 1 + if Leap(year) then 1 else 0
  {
    Quarters(year);
    Centuries(year);
    Cycles(year);
    Multiples(year);
    YearOf(year);
  }

  lemma YearBefore(year: nat)
    requires year >= 1
    ensures (year - 1) / 4 - (year - 1) / 100 + (year - 1) / 400 ==
        (year + 3) / 4 - (year + 99) / 100 + (year + 399) / 400 - 1
  {
    assert year + 3 == (year - 1) + 4 && year + 99 == (year - 1) + 100 && year + 399 == (year - 1) + 400;
    YearOf(year - 1);
  }

  lemma YearOf(year: nat)
    ensures (year + 4) / 4 == year / 4 + 1 && (year + 100) / 100 == year / 100 + 1
    ensures (year + 400) / 400 == year / 400 + 1
  {
  }

  /** The next day has the next number. */
  lemma ConsecutiveDays(year: nat, month: nat, day: nat)
    requires IsDate(year, month, day)
    ensures var (y, m, d) := NextDay(year, month, day); DayCount(y, m, d) == DayCount(year, month, day) + 1
  {
    if day == MonthLength(year, month) && month == 11 {
      MonthsClosed(year, 11);
    }
  }

  /** So does the formula, and days that come later have larger numbers. */
  lemma ConsecutiveNumbers(year: nat, month: nat, day: nat)
    requires IsDate(year, month, day) && year + 1 < TWO64 && (year >= 1 || month >= 2)
    ensures var (y, m, d) := NextDay(year, month, day); Gauss(y, m, d) == Gauss(year, month, day) + 1
  {
    var (y, m, d) := NextDay(year, month, day);
    GaussCounts(year, month, day);
    GaussCounts(y, m, d);
    ConsecutiveDays(year, month, day);
  }

  lemma {:induction false} YearsGrow(a: nat, b: nat)
    requires a < b
    ensures DaysBeforeYear(a) + YearLength(a) <= DaysBeforeYear(b)
    decreases b - a
  {
    if a + 1 < b {
      YearsGrow(a + 1, b);
    }
  }

  lemma {:induction false} MonthsGrow(year: int, a: nat, b: nat)
    requires a < b < 12
    ensures DaysBeforeMonth(year, a) + MonthLength(year, a) <= DaysBeforeMonth(year, b)
    decreases b - a
  {
    if a + 1 < b {
      MonthsGrow(year, a + 1, b);
    }
  }

  /** Two dates have the same number only if they are the same. */
  lemma DifferentDays(y1: nat, m1: nat, d1: nat, y2: nat, m2: nat, d2: nat)
    requires IsDate(y1, m1, d1) && IsDate(y2, m2, d2)
    requires y1 < y2 || (y1 == y2 && (m1 < m2 || (m1 == m2 && d1 < d2)))
    ensures DayCount(y1, m1, d1) < DayCount(y2, m2, d2)
  {
    if y1 < y2 {
      YearsGrow(y1, y2);
      MonthsClosed(y1, 11);
      if m1 < 11 {
        MonthsGrow(y1, m1, 11);
      }
      if m2 > 0 {
        MonthsGrow(y2, 0, m2);
      }
    } else if m1 < m2 {
      MonthsGrow(y1, m1, m2);
    }
  }

  lemma YearZero(month: nat, day: nat)
    requires month < 2
    ensures Gauss(0, month, day) == DayCount(0, month, day) + 365 * TWO64 + 4473335437874566267
  {
    hide DaysBeforeYear;
    hide DaysBeforeMonth;
    YearsClosed(0);
    EpochClosed();
    MonthsClosed(0, month);
  }

  lemma {:induction false} DayBounds(s: Stamp)
    requires Accepted(s) && s.year <= 9999
    ensures -1_000_000 <= DayCount(s.year, s.month, s.day) <= 4_000_000
  {
    hide DaysBeforeYear;
    hide DaysBeforeMonth;
    YearsClosed(s.year);
    EpochClosed();
    MonthsClosed(s.year, s.month);
  }

  lemma WrapSigned(x: int)
    requires -TWO64 / 2 <= x < TWO64 / 2
    ensures Signed(x % TWO64) == x
  {
  }

  /** How many seconds a date in the first two months of year 0 is too late. */
  const ZERO_YEAR_ERROR: int := 10368

  /** The constant, in seconds, is that many more than a multiple of 2^64. */
  lemma WrapOff(x: int)
    ensures (x + (365 * TWO64 + 4473335437874566267) * 86400) % TWO64 == (x + ZERO_YEAR_ERROR) % TWO64
  {
    assert (365 * TWO64 + 4473335437874566267) * 86400 == 31556952 * TWO64 + ZERO_YEAR_ERROR;
    assert (x + ZERO_YEAR_ERROR + 31556952 * TWO64) % TWO64 == (x + ZERO_YEAR_ERROR) % TWO64;
  }

  /** The time is that of the calendar unless the date is in the first two months of year 0, and then it is not. */
  lemma TimeRight(s: Stamp)
    requires Accepted(s) && s.year <= 9999
    ensures Signed(Time(s)) == Seconds(s) <==> s.year >= 1 || s.month >= 2
    ensures Signed(Time(s)) == Seconds(s) + if s.year >= 1 || s.month >= 2 then 0 else ZERO_YEAR_ERROR
  {
    hide DaysBeforeYear;
    hide DaysBeforeMonth;
    DayBounds(s);
    if s.year >= 1 || s.month >= 2 {
      GaussCounts(s.year, s.month, s.day);
      WrapSigned(Seconds(s));
    } else {
      YearZero(s.month, s.day);
      WrapOff(Seconds(s));
      WrapSigned(Seconds(s) + ZERO_YEAR_ERROR);
    }
  }

  /* ---- the formats ---- */

  predicate Digit(c: char) {
    '0' <= c <= '9'
  }

  function Value(c: char): nat
    requires Digit(c)
  {
    (c - '0') as nat
  }

  predicate Digits(v: string, p: nat, n: nat) {
    p + n <= |v| && forall i :: p <= i < p + n ==> Digit(v[i])
  }

  function Two(v: string, p: nat): nat
    requires Digits(v, p, 2)
  {
    Value(v[p]) * 10 + Value(v[p + 1])
  }

  function Four(v: string, p: nat): nat
    requires Digits(v, p, 4)
  {
    Value(v[p]) * 1000 + Value(v[p + 1]) * 100 + Value(v[p + 2]) * 10 + Value(v[p + 3])
  }

  /** The month that three letters stand for; few of them are looked at. */
  function MonthOf(v: string, p: nat): (m: Option<nat>)
    requires p + 3 <= |v|
    ensures m.Some? ==> m.value < 12
  {
    if v[p] == 'J' then Some(if v[p + 1] == 'a' then 0 else if v[p + 2] == 'n' then 5 else 6)
    else if v[p] == 'F' then Some(1)
    else if v[p] == 'M' then Some(if v[p + 2] == 'r' then 2 else 4)
    else if v[p] == 'A' then Some(if v[p + 1] == 'p' then 3 else 7)
    else if v[p] == 'S' then Some(8)
    else if v[p] == 'O' then Some(9)
    else if v[p] == 'N' then Some(10)
    else if v[p] == 'D' then Some(11)
    else None
  }

  /** A time of day with a blank in front of it. */
  predicate ClockAt(v: string, p: nat) {
    && p + 9 <= |v| && v[p] == ' ' && Digits(v, p + 1, 2) && v[p + 3] == ':' && Digits(v, p + 4, 2) && v[p + 6] == ':'
    && Digits(v, p + 7, 2)
  }

  function WithClock(v: string, p: nat, year: nat, month: nat, day: nat): Stamp
    requires ClockAt(v, p)
  {
    Stamp(year, month, day, Two(v, p + 1), Two(v, p + 4), Two(v, p + 7))
  }

  predicate InRange(s: Stamp) {
    s.month < 12 && s.year <= 9999
  }

  /** 10 Nov 2002 23:50:13 */
  function Read822(v: string, p: nat): (r: Option<Stamp>)
    ensures r.Some? ==> InRange(r.value) && p + 18 <= |v|
  {
    if p + 20 <= |v| && Digits(v, p, 2) && v[p + 2] == ' ' && MonthOf(v, p + 3).Some? && v[p + 6] == ' '
      && Digits(v, p + 7, 4)
       && ClockAt(v, p + 11)
    then Some(WithClock(v, p + 11, Four(v, p + 7), MonthOf(v, p + 3).value, Two(v, p)))
    else None
  }

  function Century(year: nat): nat {
    if year < 70 then 2000 + year else 1900 + year
  }

  /** 10-Dec-02 23:50:13 */
  function Read850(v: string, p: nat): (r: Option<Stamp>)
    ensures r.Some? ==> InRange(r.value) && p + 18 <= |v|
  {
    if p + 18 <= |v| && Digits(v, p, 2) && v[p + 2] == '-' && MonthOf(v, p + 3).Some? && v[p + 6] == '-'
      && Digits(v, p + 7, 2)
       && ClockAt(v, p + 9)
    then Some(WithClock(v, p + 9, Century(Two(v, p + 7)), MonthOf(v, p + 3).value, Two(v, p)))
    else None
  }

  /** 23:50:13 2002, after a month and a day */
  function ReadTail(v: string, p: nat, month: nat, day: nat): (r: Option<Stamp>)
    ensures r.Some? ==> r.value.year <= 9999 && r.value.month == month && p + 14 <= |v|
  {
    if p + 14 <= |v| && ClockAt(v, p) && v[p + 9] == ' ' && Digits(v, p + 10, 4)
    then Some(WithClock(v, p, Four(v, p + 10), month, day))
    else None
  }

  /** Dec 10 23:50:13 2002; a day of one digit may have a blank more in front of it. */
  function ReadIsoc(v: string, p: nat): (r: Option<Stamp>)
    ensures r.Some? ==> InRange(r.value) && p + 18 <= |v|
  {
    if p + 18 > |v| || MonthOf(v, p).None? then None
    else
      var month := MonthOf(v, p).value;
      var q := if v[p + 4] == ' ' then p + 5 else p + 4;
      if !Digit(v[q]) then None
      else if v[q + 1] == ' ' then ReadTail(v, q + 1, month, Value(v[q]))
      else if Digit(v[q + 1]) then ReadTail(v, q + 2, month, Two(v, q))
      else None
  }

  /** Where the name of the day of the week ends. */
  function WeekdayEnd(v: string, p: nat): (q: nat)
    requires p <= |v|
    ensures p <= q <= |v|
    decreases |v| - p
  {
    if p == |v| || v[p] == ',' || v[p] == ' ' then p else WeekdayEnd(v, p + 1)
  }

  function SkipBlanks(v: string, p: nat): (q: nat)
    requires p <= |v|
    ensures p <= q <= |v|
    decreases |v| - p
  {
    if p == |v| || v[p] != ' ' then p else SkipBlanks(v, p + 1)
  }

  /** The point in time that a text is a date for. */
  function Read(v: string): (r: Option<Stamp>)
    ensures r.Some? ==> InRange(r.value)
  {
    var w := WeekdayEnd(v, 0);
    if w == |v| then None
    else
      var p := SkipBlanks(v, w + 1);
      if v[w] == ' ' then ReadIsoc(v, p) else if Read822(v, p).Some? then Read822(v, p) else Read850(v, p)
  }

  datatype Format = Unknown | Rfc822 | Rfc850 | Isoc

  /** ngx_parse_http_time; with a time_t of 32 bits, a time that does not fit is refused. */
  method ParseHttpTime(value: string, narrow: bool) returns (r: Option<int>)
    ensures r.Some? <==>
        Read(value).Some? && Accepted(Read(value).value) && (narrow ==> Time(Read(value).value) <= 0x7fffffff)
    ensures r.Some? ==> r.value == Signed(Time(Read(value).value))
  {
    hide Read;
    var s := ParseStamp(value);
    if s.None? || s.value.hour > 23 || s.value.min > 59 || s.value.sec > 59 {
      return None;
    }
    var Stamp(year, month, day, hour, min, sec) := s.value;
    if day == 29 && month == 1 {
      if year % 4 != 0 || (year % 100 == 0 && year % 400 != 0) {
        return None;
      }
    } else if day > if month == 1 then 28 else MonthLength(year, month) {
      return None;
    }
    var m, y: int := month - 1, year;
    if m <= 0 {
      m := m + 12;
      y := (y - 1) % TWO64;
    }
    var time := ((365 * y + y / 4 - y / 100 + y / 400 + 367 * m / 12 - 30 + day - 1 - 719527 + 31 + 28) * 86400
                 + hour * 3600 + min * 60 + sec) % TWO64;
    if narrow && time > 0x7fffffff {
      return None;
    }
    r := Some(Signed(time));
  }

  /** The part of ngx_parse_http_time that reads the text; every character it looks at is inside. */
  method ParseStamp(v: string) returns (r: Option<Stamp>)
    ensures r == Read(v)
  {
    hide Read822;
    hide Read850;
    hide ReadIsoc;
    var fmt := Unknown;
    var p := 0;
    var end := |v|;
    while p < end
      invariant p <= end && fmt == Unknown && WeekdayEnd(v, 0) == WeekdayEnd(v, p)
    {
      if v[p] == ',' {
        break;
      }
      if v[p] == ' ' {
        fmt := Isoc;
        break;
      }
      p := p + 1;
    }
    p := p + 1;
    while p < end
      invariant WeekdayEnd(v, 0) < end ==> p <= end && SkipBlanks(v, WeekdayEnd(v, 0) + 1) == SkipBlanks(v, p)
      invariant WeekdayEnd(v, 0) == end ==> p == end + 1
    {
      if v[p] != ' ' {
        break;
      }
      p := p + 1;
    }
    if end - p < 18 {
      return None;
    }
    if fmt == Isoc {
      r := ParseIsoc(v, p);
    } else {
      r := ParseComma(v, p);
    }
  }

  method ParseComma(v: string, start: nat) returns (r: Option<Stamp>)
    requires start + 18 <= |v|
    ensures r == if Read822(v, start).Some? then Read822(v, start) else Read850(v, start)
  {
    var p := start;
    if v[p] < '0' || v[p] > '9' || v[p + 1] < '0' || v[p + 1] > '9' {
      return None;
    }
    var day := Two(v, p);
    p := p + 2;
    var fmt := Rfc850;
    if v[p] == ' ' {
      if |v| - p < 18 {
        return None;
      }
      fmt := Rfc822;
    } else if v[p] != '-' {
      return None;
    }
    p := p + 1;
    var month := MonthOf(v, p);
    if month.None? {
      return None;
    }
    p := p + 3;
    if (fmt == Rfc822 && v[p] != ' ') || (fmt == Rfc850 && v[p] != '-') {
      return None;
    }
    p := p + 1;
    var year;
    if fmt == Rfc822 {
      if v[p] < '0' || v[p] > '9' || v[p + 1] < '0' || v[p + 1] > '9'
         || v[p + 2] < '0' || v[p + 2] > '9' || v[p + 3] < '0' || v[p + 3] > '9' {
        return None;
      }
      year := Four(v, p);
      p := p + 4;
    } else {
      if v[p] < '0' || v[p] > '9' || v[p + 1] < '0' || v[p + 1] > '9' {
        return None;
      }
      year := Century(Two(v, p));
      p := p + 2;
    }
    r := ParseClock(v, p, year, month.value, day);
  }

  method ParseClock(v: string, start: nat, year: nat, month: nat, day: nat) returns (r: Option<Stamp>)
    requires start + 9 <= |v|
    ensures r == if ClockAt(v, start) then Some(WithClock(v, start, year, month, day)) else None
  {
    var p := start;
    if v[p] != ' ' {
      return None;
    }
    p := p + 1;
    if v[p] < '0' || v[p] > '9' || v[p + 1] < '0' || v[p + 1] > '9' {
      return None;
    }
    var hour := Two(v, p);
    p := p + 2;
    if v[p] != ':' {
      return None;
    }
    p := p + 1;
    if v[p] < '0' || v[p] > '9' || v[p + 1] < '0' || v[p + 1] > '9' {
      return None;
    }
    var min := Two(v, p);
    p := p + 2;
    if v[p] != ':' {
      return None;
    }
    p := p + 1;
    if v[p] < '0' || v[p] > '9' || v[p + 1] < '0' || v[p + 1] > '9' {
      return None;
    }
    r := Some(Stamp(year, month, day, hour, min, Two(v, p)));
  }

  method ParseIsoc(v: string, start: nat) returns (r: Option<Stamp>)
    requires start + 18 <= |v|
    ensures r == ReadIsoc(v, start)
  {
    hide ReadTail;
    hide MonthOf;
    var p := start;
    var month := MonthOf(v, p);
    if month.None? {
      return None;
    }
    p := p + 3;
    p := p + 1;
    if v[p] == ' ' {
      p := p + 1;
    }
    if v[p] < '0' || v[p] > '9' {
      return None;
    }
    var day := Value(v[p]);
    p := p + 1;
    if v[p] != ' ' {
      if v[p] < '0' || v[p] > '9' {
        return None;
      }
      day := day * 10 + Value(v[p]);
      p := p + 1;
    }
    if |v| - p < 14 {
      return None;
    }
    r := ParseTail(v, p, month.value, day);
  }

  method ParseTail(v: string, start: nat, month: nat, day: nat) returns (r: Option<Stamp>)
    requires start + 14 <= |v|
    ensures r == ReadTail(v, start, month, day)
  {
    var p := start;
    r := ParseClock(v, p, 0, month, day);
    if r.None? {
      return;
    }
    p := p + 9;
    if v[p] != ' ' {
      return None;
    }
    p := p + 1;
    if v[p] < '0' || v[p] > '9' || v[p + 1] < '0' || v[p + 1] > '9'
       || v[p + 2] < '0' || v[p + 2] > '9' || v[p + 3] < '0' || v[p + 3] > '9' {
      return None;
    }
    r := Some(r.value.(year := Four(v, p)));
  }

  /* ---- what is written in a format is read back ---- */

  function Char(n: nat): char
    requires n < 10
  {
    '0' + n as char
  }

  function Print2(n: nat): (r: string)
    requires n < 100
    ensures |r| == 2
  {
    [Char(n / 10), Char(n % 10)]
  }

  function Print4(n: nat): (r: string)
    requires n < 10000
    ensures |r| == 4
  {
    [Char(n / 1000), Char(n / 100 % 10), Char(n / 10 % 10), Char(n % 10)]
  }

  function MonthName(m: nat): (r: string)
    requires m < 12
    ensures |r| == 3
  {
    match m
    case 0 => "Jan" case 1 => "Feb" case 2 => "Mar" case 3 => "Apr" case 4 => "May" case 5 => "Jun"
    case 6 => "Jul" case 7 => "Aug" case 8 => "Sep" case 9 => "Oct" case 10 => "Nov" case _ => "Dec"
  }

  /** A stamp that can be written. */
  predicate Printable(s: Stamp) {
    s.year < 10000 && s.month < 12 && s.day < 100 && s.hour < 100 && s.min < 100 && s.sec < 100
  }

  function PrintClock(s: Stamp): (r: string)
    requires Printable(s)
    ensures |r| == 9
  {
    " " + Print2(s.hour) + ":" + Print2(s.min) + ":" + Print2(s.sec)
  }

  function Print822(s: Stamp): string
    requires Printable(s)
  {
    Print2(s.day) + " " + MonthName(s.month) + " " + Print4(s.year) + PrintClock(s)
  }

  function Print850(s: Stamp): string
    requires Printable(s)
  {
    Print2(s.day) + "-" + MonthName(s.month) + "-" + Print2(s.year % 100) + PrintClock(s)
  }

  function PrintIsoc(s: Stamp): string
    requires Printable(s)
  {
    MonthName(s.month) + " " + (if s.day < 10 then [' ', Char(s.day)] else Print2(s.day)) + PrintClock(s) +
      " " + Print4(s.year)
  }

  /** A text is in v at p. */
  predicate At(v: string, p: nat, t: string) {
    p + |t| <= |v| && v[p..p + |t|] == t
  }

  lemma AtParts(v: string, p: nat, a: string, b: string)
    requires At(v, p, a + b)
    ensures At(v, p, a) && At(v, p + |a|, b)
  {
    var t := a + b;
    assert v[p..p + |a|] == v[p..p + |t|][..|a|] == t[..|a|];
    assert v[p + |a|..p + |a| + |b|] == v[p..p + |t|][|a|..] == t[|a|..];
  }

  lemma At2(v: string, p: nat, n: nat)
    requires n < 100 && At(v, p, Print2(n))
    ensures Digits(v, p, 2) && Two(v, p) == n
  {
    assert v[p] == v[p..p + 2][0] && v[p + 1] == v[p..p + 2][1];
  }

  lemma CharValue(n: nat)
    requires n < 10
    ensures Digit(Char(n)) && Value(Char(n)) == n
  {
  }

  lemma FourDigits(n: nat)
    ensures n / 1000 * 1000 + n / 100 % 10 * 100 + n / 10 % 10 * 10 + n % 10 == n
  {
    var a := n / 10;
    var b := a / 10;
    var c := b / 10;
    assert n / 100 == b && n / 1000 == c;
  }

  lemma At4(v: string, p: nat, n: nat)
    requires n < 10000 && At(v, p, Print4(n))
    ensures Digits(v, p, 4) && Four(v, p) == n
  {
    hide Char;
    hide Value;
    hide Digit;
    var t := Print4(n);
    assert v[p] == v[p..p + 4][0] == t[0] && v[p + 1] == v[p..p + 4][1] == t[1];
    assert v[p + 2] == v[p..p + 4][2] == t[2] && v[p + 3] == v[p..p + 4][3] == t[3];
    CharValue(n / 1000);
    CharValue(n / 100 % 10);
    CharValue(n / 10 % 10);
    CharValue(n % 10);
    FourDigits(n);
  }

  lemma At1(v: string, p: nat, t: string)
    requires |t| == 1 && At(v, p, t)
    ensures p < |v| && v[p] == t[0]
  {
    assert v[p] == v[p..p + 1][0];
  }

  lemma AtMonth(v: string, p: nat, m: nat)
    requires m < 12 && At(v, p, MonthName(m))
    ensures p + 3 <= |v| && MonthOf(v, p) == Some(m)
  {
    var t := MonthName(m);
    assert v[p] == v[p..p + 3][0] == t[0] && v[p + 1] == v[p..p + 3][1] == t[1] && v[p + 2] == v[p..p + 3][2] == t[2];
  }

  lemma AtClock(v: string, p: nat, s: Stamp)
    requires Printable(s) && At(v, p, PrintClock(s))
    ensures ClockAt(v, p) && WithClock(v, p, s.year, s.month, s.day) == s
  {
    hide At;
    hide Print2;
    hide Digits;
    var h, m, c := Print2(s.hour), Print2(s.min), Print2(s.sec);
    AtParts(v, p, " " + h + ":" + m + ":", c);
    At2(v, p + 7, s.sec);
    AtParts(v, p, " " + h + ":" + m, ":");
    At1(v, p + 6, ":");
    AtParts(v, p, " " + h + ":", m);
    At2(v, p + 4, s.min);
    AtParts(v, p, " " + h, ":");
    At1(v, p + 3, ":");
    AtParts(v, p, " ", h);
    At2(v, p + 1, s.hour);
    At1(v, p, " ");
  }

  lemma Reads822(v: string, p: nat, s: Stamp)
    requires Printable(s) && At(v, p, Print822(s))
    ensures Read822(v, p) == Some(s)
  {
    hide At;
    hide Print2;
    hide Print4;
    hide PrintClock;
    hide Digits;
    hide MonthName;
    hide MonthOf;
    hide ClockAt;
    var d, m, y := Print2(s.day), MonthName(s.month), Print4(s.year);
    AtParts(v, p, d + " " + m + " " + y, PrintClock(s));
    AtClock(v, p + 11, s);
    AtParts(v, p, d + " " + m + " ", y);
    At4(v, p + 7, s.year);
    AtParts(v, p, d + " " + m, " ");
    At1(v, p + 6, " ");
    AtParts(v, p, d + " ", m);
    AtMonth(v, p + 3, s.month);
    AtParts(v, p, d, " ");
    At1(v, p + 2, " ");
    At2(v, p, s.day);
  }

  lemma Reads850(v: string, p: nat, s: Stamp)
    requires Printable(s) && 1970 <= s.year < 2070 && At(v, p, Print850(s))
    ensures Read822(v, p).None? && Read850(v, p) == Some(s)
  {
    hide At;
    hide Print2;
    hide PrintClock;
    hide Digits;
    hide MonthName;
    hide MonthOf;
    hide ClockAt;
    var d, m, y := Print2(s.day), MonthName(s.month), Print2(s.year % 100);
    AtParts(v, p, d + "-" + m + "-" + y, PrintClock(s));
    AtClock(v, p + 9, s);
    AtParts(v, p, d + "-" + m + "-", y);
    At2(v, p + 7, s.year % 100);
    AtParts(v, p, d + "-" + m, "-");
    At1(v, p + 6, "-");
    AtParts(v, p, d + "-", m);
    AtMonth(v, p + 3, s.month);
    AtParts(v, p, d, "-");
    At1(v, p + 2, "-");
    At2(v, p, s.day);
  }

  lemma ReadsIsoc(v: string, p: nat, s: Stamp)
    requires Printable(s) && At(v, p, PrintIsoc(s))
    ensures ReadIsoc(v, p) == Some(s)
  {
    hide At;
    hide Print2;
    hide Print4;
    hide PrintClock;
    hide Digits;
    hide MonthName;
    hide MonthOf;
    hide ClockAt;
    var m, d, c := MonthName(s.month), if s.day < 10 then [' ', Char(s.day)] else Print2(s.day), PrintClock(s);
    AtParts(v, p, m + " " + d + c + " ", Print4(s.year));
    At4(v, p + 16, s.year);
    AtParts(v, p, m + " " + d + c, " ");
    At1(v, p + 15, " ");
    AtParts(v, p, m + " " + d, c);
    AtClock(v, p + 6, s);
    AtParts(v, p, m + " ", d);
    AtDay(v, p + 4, s.day, d);
    AtParts(v, p, m, " ");
    At1(v, p + 3, " ");
    AtMonth(v, p, s.month);
    ClockBlank(v, p + 6);
  }

  lemma ClockBlank(v: string, p: nat)
    requires ClockAt(v, p)
    ensures p + 9 <= |v| && v[p] == ' '
  {
  }

  lemma AtDay(v: string, p: nat, day: nat, d: string)
    requires day < 100 && d == (if day < 10 then [' ', Char(day)] else Print2(day)) && At(v, p, d)
    ensures p + 2 <= |v|
    ensures if day < 10 then v[p] == ' ' && Digit(v[p + 1]) && Value(v[p + 1]) == day
            else v[p] != ' ' && Digit(v[p]) && Digit(v[p + 1]) && v[p + 1] != ' ' && Digits(v, p, 2) && Two(v, p) == day
  {
    if day < 10 {
      assert v[p] == v[p..p + 2][0] && v[p + 1] == v[p..p + 2][1];
      CharValue(day);
    } else {
      At2(v, p, day);
    }
  }

  /** The name of a day, or anything else without a comma or a blank. */
  predicate Plain(t: string) {
    ',' !in t && ' ' !in t
  }

  lemma {:induction false} WeekdayEndIs(v: string, p: nat, q: nat)
    requires p <= q < |v| && Plain(v[p..q]) && (v[q] == ',' || v[q] == ' ')
    ensures WeekdayEnd(v, p) == q
    decreases q - p
  {
    if p < q {
      assert v[p..q] == [v[p]] + v[p + 1..q];
      WeekdayEndIs(v, p + 1, q);
    }
  }

  lemma Parts(a: string, b: string, t: string, c: string)
    ensures At(a + b + t + c, 0, a) && At(a + b + t + c, |a|, b) && At(a + b + t + c, |a| + |b|, t)
  {
    var v := a + b + t + c;
    assert v[..|a|] == a && v[|a|..|a| + |b|] == b && v[|a| + |b|..|a| + |b| + |t|] == t;
  }

  /** Where the date starts, after the day of the week. */
  lemma DateStart(v: string, weekday: string, gap: string, t: string, rest: string)
    requires v == weekday + gap + t + rest && Plain(weekday) && (gap == ", " || gap == " ") && |t| > 0 && t[0] != ' '
    ensures WeekdayEnd(v, 0) == |weekday| < |v| && v[|weekday|] == gap[0]
    ensures SkipBlanks(v, |weekday| + 1) == |weekday| + |gap| && At(v, |weekday| + |gap|, t)
  {
    var w, p := |weekday|, |weekday| + |gap|;
    Parts(weekday, gap, t, rest);
    assert v[p] == v[p..p + |t|][0];
    assert v[w] == v[w..w + |gap|][0];
    assert v[0..w] == weekday;
    WeekdayEndIs(v, 0, w);
    hide WeekdayEnd;
    hide At;
    if gap == ", " {
      assert v[w + 1] == v[w..w + |gap|][1];
      assert SkipBlanks(v, w + 1) == SkipBlanks(v, p);
    }
  }

  lemma FirstDigit(n: nat)
    requires n < 100
    ensures Print2(n)[0] != ' '
  {
  }

  /** The format that is preferred. */
  lemma ReadBack822(weekday: string, s: Stamp, rest: string)
    requires Plain(weekday) && Printable(s)
    ensures Read(weekday + ", " + Print822(s) + rest) == Some(s)
  {
    hide Read822;
    hide Read850;
    hide WeekdayEnd;
    hide SkipBlanks;
    hide PrintClock;
    FirstDigit(s.day);
    var v := weekday + ", " + Print822(s) + rest;
    DateStart(v, weekday, ", ", Print822(s), rest);
    Reads822(v, |weekday| + 2, s);
  }

  /** The format with years of two digits, which stand for 1970 to 2069. */
  lemma ReadBack850(weekday: string, s: Stamp, rest: string)
    requires Plain(weekday) && Printable(s) && 1970 <= s.year < 2070
    ensures Read(weekday + ", " + Print850(s) + rest) == Some(s)
  {
    hide Read822;
    hide Read850;
    hide WeekdayEnd;
    hide SkipBlanks;
    hide PrintClock;
    FirstDigit(s.day);
    var v := weekday + ", " + Print850(s) + rest;
    DateStart(v, weekday, ", ", Print850(s), rest);
    Reads850(v, |weekday| + 2, s);
  }

  /** The format of asctime. */
  lemma ReadBackIsoc(weekday: string, s: Stamp, rest: string)
    requires Plain(weekday) && Printable(s)
    ensures Read(weekday + " " + PrintIsoc(s) + rest) == Some(s)
  {
    hide ReadIsoc;
    hide WeekdayEnd;
    hide SkipBlanks;
    hide PrintClock;
    var v := weekday + " " + PrintIsoc(s) + rest;
    DateStart(v, weekday, " ", PrintIsoc(s), rest);
    ReadsIsoc(v, |weekday| + 1, s);
  }

  /* ---- what is accepted ---- */

  /** Every date of the calendar with a time of day is accepted, the day 0 of a month too, and nothing else. */
  lemma AllDates(year: nat, month: nat, day: nat, hour: nat, min: nat, sec: nat)
    ensures Accepted(Stamp(year, month, day, hour, min, sec)) <==>
            (IsDate(year, month, day) || (month < 12 && day == 0)) && hour < 24 && min < 60 && sec < 60
  {
  }

  /** Where a time_t has 32 bits, the times that do not fit, and those before 1970, are refused. */
  lemma Narrow(s: Stamp)
    requires Accepted(s) && 1 <= s.year <= 9999
    ensures Time(s) <= 0x7fffffff <==> 0 <= Seconds(s) <= 0x7fffffff
  {
    hide Seconds;
    hide Gauss;
    DayBounds(s);
    SecondBounds(s);
    GaussCounts(s.year, s.month, s.day);
    TimeIs(s);
  }

  lemma SecondBounds(s: Stamp)
    requires Accepted(s) && -1_000_000 <= DayCount(s.year, s.month, s.day) <= 4_000_000
    ensures -TWO64 / 2 <= Seconds(s) < TWO64 / 2
  {
    hide DayCount;
  }

  lemma TimeIs(s: Stamp)
    requires Accepted(s) && Gauss(s.year, s.month, s.day) == DayCount(s.year, s.month, s.day)
    ensures Time(s) == Seconds(s) % TWO64
  {
    hide Gauss;
    hide DayCount;
  }

  lemma ExampleDigits()
    ensures Print2(0) == "00" && Print2(6) == "06" && Print2(8) == "08" && Print2(49) == "49" && Print2(37) == "37"
    ensures Print2(94) == "94" && Print4(1994) == "1994" && Char(6) == '6'
  {
  }

  lemma ExampleClock(s: Stamp)
    requires Printable(s) && s.hour == 8 && s.min == 49 && s.sec == 37
    ensures PrintClock(s) == " 08:49:37"
  {
    ExampleDigits();
    hide Print2;
  }

  lemma Text822(s: Stamp)
    requires s == Stamp(1994, 10, 6, 8, 49, 37)
    ensures "Sun" + ", " + Print822(s) + " GMT" == "Sun, 06 Nov 1994 08:49:37 GMT"
  {
    ExampleDigits();
    ExampleClock(s);
    hide Print2;
    hide Print4;
    hide PrintClock;
    assert Print822(s) == "06 Nov 1994 08:49:37";
  }

  lemma Text850(s: Stamp)
    requires s == Stamp(1994, 10, 6, 8, 49, 37)
    ensures "Sunday" + ", " + Print850(s) + " GMT" == "Sunday, 06-Nov-94 08:49:37 GMT"
  {
    ExampleDigits();
    ExampleClock(s);
    hide Print2;
    hide Print4;
    hide PrintClock;
    assert Print850(s) == "06-Nov-94 08:49:37";
  }

  lemma TextIsoc(s: Stamp)
    requires s == Stamp(1994, 10, 6, 8, 49, 37)
    ensures "Sun" + " " + PrintIsoc(s) == "Sun Nov  6 08:49:37 1994"
  {
    ExampleDigits();
    ExampleClock(s);
    hide Print2;
    hide Print4;
    hide PrintClock;
    assert PrintIsoc(s) == "Nov  6 08:49:37 1994";
  }

  /** The example of RFC 9110 in its three formats. */
  lemma Example(s: Stamp)
    requires s == Stamp(1994, 10, 6, 8, 49, 37)
    ensures Read("Sun, 06 Nov 1994 08:49:37 GMT") == Some(s)
    ensures Read("Sunday, 06-Nov-94 08:49:37 GMT") == Some(s)
    ensures Read("Sun Nov  6 08:49:37 1994") == Some(s)
  {
    hide *;
    PlainDays(s);
    Text822(s);
    Text850(s);
    TextIsoc(s);
    ReadBack822("Sun", s, " GMT");
    ReadBack850("Sunday", s, " GMT");
    ReadBackIsoc("Sun", s, "");
    assert "Sun" + " " + PrintIsoc(s) + "" == "Sun" + " " + PrintIsoc(s);
  }

  lemma PlainDays(s: Stamp)
    requires s == Stamp(1994, 10, 6, 8, 49, 37)
    ensures Plain("Sun") && Plain("Sunday") && Printable(s)
  {
  }

  /** The time of the example. */
  lemma ExampleTime()
    ensures var s := Stamp(1994, 10, 6, 8, 49, 37); Accepted(s) && Signed(Time(s)) == 784111777
  {
  }

  /* ---- day 0 ---- */

  /** What is accepted is a date unless its day is 0, and then it counts as the day before the first of the month. */
  lemma DayZero(s: Stamp, year: nat, month: nat, day: nat)
    requires Accepted(s)
    ensures IsDate(s.year, s.month, s.day) <==> s.day >= 1
    ensures s.day == 0 && IsDate(year, month, day) && NextDay(year, month, day) == (s.year, s.month, 1) ==>
              DayCount(s.year, s.month, s.day) == DayCount(year, month, day)
  {
    hide DaysBeforeYear;
    hide DaysBeforeMonth;
    if IsDate(year, month, day) {
      ConsecutiveDays(year, month, day);
    }
  }

  lemma DayZeroText()
    ensures "Sun" + ", " + Print822(Stamp(1994, 10, 0, 8, 49, 37)) + " GMT" == "Sun, 00 Nov 1994 08:49:37 GMT"
  {
    var s := Stamp(1994, 10, 0, 8, 49, 37);
    ExampleDigits();
    ExampleClock(s);
    hide Print2;
    hide Print4;
    hide PrintClock;
    assert Print822(s) == "00 Nov 1994 08:49:37";
  }

  /** An example: the day before 1 November 1994. */
  lemma DayZeroAccepted()
    ensures var s := Stamp(1994, 10, 0, 8, 49, 37);
            && Read("Sun, 00 Nov 1994 08:49:37 GMT") == Some(s) && Accepted(s) && !IsDate(s.year, s.month, s.day)
            && Seconds(s) == Seconds(s.(month := 9, day := 31))
  {
    hide Read;
    hide DaysBeforeYear;
    hide DaysBeforeMonth;
    var s := Stamp(1994, 10, 0, 8, 49, 37);
    hide Print822;
    DayZeroText();
    ReadBack822("Sun", s, " GMT");
    DayZero(s, 1994, 9, 31);
  }
}
