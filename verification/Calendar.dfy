/** Calendar arithmetic of stdlib/time.kod: days since 1970-01-01 and Gregorian dates, over all integers. */
module Calendar {
  import opened Kod

  datatype Date = Date(year: int, month: int, day: int)

  datatype Utc = Utc(date: Date, hour: int, minute: int, second: int)

  /** `_floor_div`: a truncating quotient, lowered by one when the remainder is negative. */
  function FloorDiv(a: int, b: int): int
    requires b > 0
  {
    var q := TruncDiv(a, b);
    if TruncMod(a, b) < 0 then q - 1 else q
  }

  /** It rounds down, and leaves a remainder in `0..b`. */
  lemma FloorDivSpec(a: int, b: int)
    requires b > 0
    ensures 0 <= a - FloorDiv(a, b) * b < b
  {
    TruncSpec(a, b);
    var q := TruncDiv(a, b);
    assert (q - 1) * b == b * q - b;
  }

  lemma QuotientUnique(a: int, b: int, q: int, r: int)
    requires b > 0 && 0 <= r < b && a == q * b + r
    ensures a / b == q && a % b == r && FloorDiv(a, b) == q
  {
    var p := FloorDiv(a, b);
    FloorDivSpec(a, b);
    assert p * b == b * p && q * b == b * q;
    DivUnique(a, b, q, r);
    DivUnique(a, b, p, a - p * b);
  }

  /** Kod's `year % 4 == 0 and (year % 100 != 0 or year % 400 == 0)`. */
  predicate IsLeap(year: int)
  {
    TruncMod(year, 4) == 0 && (TruncMod(year, 100) != 0 || TruncMod(year, 400) == 0)
  }

  function DaysInMonth(year: int, month: int): int
  {
    if month == 2 then (if IsLeap(year) then 29 else 28)
    else if month == 4 || month == 6 || month == 9 || month == 11 then 30
    else 31
  }

  predicate ValidDate(d: Date)
  {
    1 <= d.month <= 12 && 1 <= d.day <= DaysInMonth(d.year, d.month)
  }

  /** `_days_from_civil`. */
  function DaysFromCivil(d: Date): int
  {
    var y := if d.month <= 2 then d.year - 1 else d.year;
    var shifted := if d.month <= 2 then d.month + 9 else d.month - 3;
    var era := FloorDiv(y, 400);
    var yoe := y - era * 400;
    var doy := TruncDiv(153 * shifted + 2, 5) + d.day - 1;
    var doe := yoe * 365 + TruncDiv(yoe, 4) - TruncDiv(yoe, 100) + doy;
    era * 146097 + doe - 719468
  }

  /** The year of an era of 400 that day `doe` falls in. */
  function YearOfEra(doe: int): int
    requires 0 <= doe
  {
    (doe - doe / 1460 + doe / 36524 - doe / 146096) / 365
  }

  /** The calendar part of `utc`. */
  function CivilFromDays(days: int): Date
  {
    var z := days + 719468;
    var era := FloorDiv(z, 146097);
    var doe := z - era * 146097;
    FloorDivSpec(z, 146097);
    var yoe := YearOfEra(doe);
    var doy := doe - (365 * yoe + TruncDiv(yoe, 4) - TruncDiv(yoe, 100));
    var mp := TruncDiv(5 * doy + 2, 153);
    var day := doy - TruncDiv(153 * mp + 2, 5) + 1;
    if mp >= 10 then Date(yoe + era * 400 + 1, mp - 9, day) else Date(yoe + era * 400, mp + 3, day)
  }

  // ----- An era by centuries, four-year spans, years and days -----

  /** A year that starts in March, counted within its era: century, span, year in the span. */
  predicate InEra(c: int, q: int, r: int)
  {
    0 <= c <= 3 && 0 <= q <= 24 && 0 <= r <= 3
  }

  /** Whether the February that ends such a year has 29 days. */
  predicate EndsLong(c: int, q: int, r: int)
  {
    r == 3 && (q < 24 || c == 3)
  }

  predicate InYear(c: int, q: int, r: int, s: int)
  {
    0 <= s <= 365 && (s == 365 ==> EndsLong(c, q, r))
  }

  lemma YearParts(c: int, q: int, r: int)
    requires InEra(c, q, r)
    ensures var yoe := 100 * c + 4 * q + r;
            0 <= yoe < 400 && yoe / 4 == 25 * c + q && yoe / 100 == c
  {
  }

  /** Hinnant's formula finds the year of every day of an era. */
  lemma YearOfEraIsRight(c: int, q: int, r: int, s: int)
    requires InEra(c, q, r) && InYear(c, q, r, s)
    ensures var doe := 36524 * c + 1461 * q + 365 * r + s;
            0 <= doe < 146097 && YearOfEra(doe) == 100 * c + 4 * q + r
  {
    var doe := 36524 * c + 1461 * q + 365 * r + s;
    var k := if 24 * c + q + 365 * r + s >= 1460 then 1 else 0;
    var last := if doe == 146096 then 1 else 0;
    QuotientUnique(doe, 1460, 25 * c + q + k, 24 * c + q + 365 * r + s - 1460 * k);
    QuotientUnique(doe, 36524, c + last, doe - 36524 * (c + last));
    QuotientUnique(doe, 146096, last, doe - 146096 * last);
    QuotientUnique(doe - (25 * c + q + k) + c, 365, 100 * c + 4 * q + r, s - k);
  }

  /** Every day of an era is a day of one of its years. */
  lemma DayOfEra(doe: int) returns (c: int, q: int, r: int, s: int)
    requires 0 <= doe < 146097
    ensures InEra(c, q, r) && InYear(c, q, r, s)
    ensures doe == 36524 * c + 1461 * q + 365 * r + s
  {
    c := if doe / 36524 > 3 then 3 else doe / 36524;
    var inCentury := doe - 36524 * c;
    q := inCentury / 1461;
    var inSpan := inCentury - 1461 * q;
    r := if inSpan / 365 > 3 then 3 else inSpan / 365;
    s := inSpan - 365 * r;
  }

  lemma LeapIsEndsLong(era: int, c: int, q: int, r: int)
    requires InEra(c, q, r)
    ensures IsLeap(400 * era + 100 * c + 4 * q + r + 1) <==> EndsLong(c, q, r)
  {
    hide TruncMod, FloorDiv;
    var y := 400 * era + 100 * c + 4 * q + r + 1;
    ZeroRemainder(y, 4);
    ZeroRemainder(y, 100);
    ZeroRemainder(y, 400);
    var span := if r == 3 then 1 else 0;
    QuotientUnique(y, 4, 100 * era + 25 * c + q + span, r + 1 - 4 * span);
    if r == 3 {
      var century := if q == 24 then 1 else 0;
      QuotientUnique(y, 100, 4 * era + c + century, 4 * q + 4 - 100 * century);
      if q == 24 {
        var whole := if c == 3 then 1 else 0;
        QuotientUnique(y, 400, era + whole, 100 * (c + 1) - 400 * whole);
      }
    }
  }

  lemma ZeroRemainder(a: int, b: int)
    requires b > 0
    ensures TruncMod(a, b) == 0 <==> a % b == 0
  {
    TruncSpec(a, b);
    if TruncMod(a, b) == 0 {
      QuotientUnique(a, b, TruncDiv(a, b), 0);
    }
    if a % b == 0 && a < 0 {
      assert -a == (-(a / b)) * b;
      QuotientUnique(-a, b, -(a / b), 0);
    }
  }

  // ----- Months of a year that starts in March -----

  /** The first day of March-based month `mp`. */
  function MonthStart(mp: int): int
    requires 0 <= mp <= 12
  {
    (153 * mp + 2) / 5
  }

  /** Day `s` of the year is day `s - MonthStart(mp)` of month `mp`, and of no other month. */
  lemma MonthOfDay(s: int, mp: int)
    requires 0 <= s <= 365 && 0 <= mp <= 11
    ensures (5 * s + 2) / 153 == mp <==> MonthStart(mp) <= s < MonthStart(mp + 1)
  {
  }

  /** A month's length is what `_days_in_month` says, with the last February cut short. */
  lemma MonthLength(era: int, c: int, q: int, r: int, mp: int)
    requires InEra(c, q, r) && 0 <= mp <= 11
    ensures var y := 400 * era + 100 * c + 4 * q + r;
            var long := MonthStart(mp + 1) - MonthStart(mp);
            if mp >= 10 then DaysInMonth(y + 1, mp - 9) == if mp == 11 then (if EndsLong(c, q, r) then 29 else 28) else long
            else DaysInMonth(y, mp + 3) == long
    ensures MonthStart(11) == 337
  {
    LeapIsEndsLong(era, c, q, r);
  }

  // ----- Dates by their parts -----

  /** The date of day `s` of the March-based year `(era, c, q, r)`, in its month `mp`. */
  function DateOf(era: int, c: int, q: int, r: int, s: int, mp: int): Date
    requires 0 <= mp <= 11
  {
    var y := 400 * era + 100 * c + 4 * q + r;
    var day := s - MonthStart(mp) + 1;
    if mp >= 10 then Date(y + 1, mp - 9, day) else Date(y, mp + 3, day)
  }

  function DayNumber(era: int, c: int, q: int, r: int, s: int): int
  {
    era * 146097 + 36524 * c + 1461 * q + 365 * r + s - 719468
  }

  lemma NumberOfParts(era: int, c: int, q: int, r: int, s: int, mp: int)
    requires InEra(c, q, r) && 0 <= mp <= 11
    ensures DaysFromCivil(DateOf(era, c, q, r, s, mp)) == DayNumber(era, c, q, r, s)
  {
    hide FloorDiv;
    var yoe := 100 * c + 4 * q + r;
    YearParts(c, q, r);
    QuotientUnique(era * 400 + yoe, 400, era, yoe);
  }

  lemma PartsOfNumber(era: int, c: int, q: int, r: int, s: int, mp: int)
    requires InEra(c, q, r) && InYear(c, q, r, s) && 0 <= mp <= 11
    requires MonthStart(mp) <= s < MonthStart(mp + 1)
    ensures CivilFromDays(DayNumber(era, c, q, r, s)) == DateOf(era, c, q, r, s, mp)
  {
    hide YearOfEra, FloorDiv;
    var doe := 36524 * c + 1461 * q + 365 * r + s;
    YearOfEraIsRight(c, q, r, s);
    QuotientUnique(era * 146097 + doe, 146097, era, doe);
    YearParts(c, q, r);
    MonthOfDay(s, mp);
  }

  lemma MonthAt(s: int) returns (mp: int)
    requires 0 <= s <= 365
    ensures 0 <= mp <= 11 && MonthStart(mp) <= s < MonthStart(mp + 1)
  {
    mp := (5 * s + 2) / 153;
    MonthOfDay(s, mp);
  }

  lemma PartsOfDate(d: Date) returns (era: int, c: int, q: int, r: int, s: int, mp: int)
    requires ValidDate(d)
    ensures InEra(c, q, r) && InYear(c, q, r, s) && 0 <= mp <= 11
    ensures MonthStart(mp) <= s < MonthStart(mp + 1)
    ensures d == DateOf(era, c, q, r, s, mp)
  {
    var y := if d.month <= 2 then d.year - 1 else d.year;
    mp := if d.month <= 2 then d.month + 9 else d.month - 3;
    era := y / 400;
    var yoe := y % 400;
    c, q, r := yoe / 100, yoe % 100 / 4, yoe % 4;
    assert yoe == 100 * c + 4 * q + r;
    s := MonthStart(mp) + d.day - 1;
    MonthLength(era, c, q, r, mp);
    if mp == 11 {
      assert MonthStart(12) == 367;
    }
  }

  // ----- The three laws -----

  /** Every day number is the number of a valid date: the one `utc` gives. */
  lemma DaysRoundTrip(days: int)
    ensures ValidDate(CivilFromDays(days))
    ensures DaysFromCivil(CivilFromDays(days)) == days
  {
    hide CivilFromDays, DaysFromCivil, DaysInMonth, FloorDiv;
    var z := days + 719468;
    var era := FloorDiv(z, 146097);
    FloorDivSpec(z, 146097);
    var c, q, r, s := DayOfEra(z - era * 146097);
    var mp := MonthAt(s);
    PartsOfNumber(era, c, q, r, s, mp);
    NumberOfParts(era, c, q, r, s, mp);
    MonthLength(era, c, q, r, mp);
  }

  /** Every valid date comes back from its day number. */
  lemma DateRoundTrip(d: Date)
    requires ValidDate(d)
    ensures CivilFromDays(DaysFromCivil(d)) == d
  {
    var era, c, q, r, s, mp := PartsOfDate(d);
    NumberOfParts(era, c, q, r, s, mp);
    PartsOfNumber(era, c, q, r, s, mp);
  }

  /** The day after a date in the Gregorian calendar. */
  function NextDate(d: Date): Date
  {
    if d.day < DaysInMonth(d.year, d.month) then d.(day := d.day + 1)
    else if d.month < 12 then Date(d.year, d.month + 1, 1)
    else Date(d.year + 1, 1, 1)
  }

  lemma DayAfter(d: Date)
    requires ValidDate(d)
    ensures DaysFromCivil(NextDate(d)) == DaysFromCivil(d) + 1
  {
    hide DaysFromCivil, IsLeap;
    var era, c, q, r, s, mp := PartsOfDate(d);
    NumberOfParts(era, c, q, r, s, mp);
    MonthLength(era, c, q, r, mp);
    if d.day < DaysInMonth(d.year, d.month) {
      NumberOfParts(era, c, q, r, s + 1, mp);
    } else if mp < 11 {
      NumberOfParts(era, c, q, r, s + 1, mp + 1);
    } else {
      MarchFirst(era, c, q, r, s);
    }
  }

  /** The step from the last of February to the first of March, across spans, centuries and eras. */
  lemma MarchFirst(era: int, c: int, q: int, r: int, s: int)
    requires InEra(c, q, r) && s == if EndsLong(c, q, r) then 365 else 364
    ensures DaysFromCivil(Date(400 * era + 100 * c + 4 * q + r + 1, 3, 1)) == DayNumber(era, c, q, r, s) + 1
  {
    hide DaysFromCivil;
    if r < 3 {
      NumberOfParts(era, c, q, r + 1, 0, 0);
    } else if q < 24 {
      NumberOfParts(era, c, q + 1, 0, 0, 0);
    } else if c < 3 {
      NumberOfParts(era, c + 1, 0, 0, 0, 0);
    } else {
      NumberOfParts(era + 1, 0, 0, 0, 0, 0);
    }
  }

  /**
   Successive Gregorian dates get successive numbers and 1970-01-01 gets 0, which together
   with the round trips fixes the numbering of all dates.
   */
  lemma DatesAreNumberedInOrder(d: Date)
    requires ValidDate(d)
    ensures ValidDate(NextDate(d)) && DaysFromCivil(NextDate(d)) == DaysFromCivil(d) + 1
    ensures CivilFromDays(DaysFromCivil(d) + 1) == NextDate(d)
    ensures DaysFromCivil(Date(1970, 1, 1)) == 0
  {
    DayAfter(d);
    DateRoundTrip(NextDate(d));
    QuotientUnique(1969, 400, 4, 369);
  }

  // ----- The time of day -----

  /** `utc` without the nanoseconds. */
  function UtcOf(seconds: int): Utc
  {
    var days := FloorDiv(seconds, 86400);
    var rest := seconds - days * 86400;
    Utc(CivilFromDays(days), TruncDiv(rest, 3600), TruncDiv(TruncMod(rest, 3600), 60), TruncMod(rest, 60))
  }

  predicate ValidUtc(u: Utc)
  {
    ValidDate(u.date) && 0 <= u.hour <= 23 && 0 <= u.minute <= 59 && 0 <= u.second <= 59
  }

  function SecondsOf(u: Utc): int
  {
    DaysFromCivil(u.date) * 86400 + u.hour * 3600 + u.minute * 60 + u.second
  }

  lemma UtcRoundTrip(seconds: int)
    ensures ValidUtc(UtcOf(seconds)) && SecondsOf(UtcOf(seconds)) == seconds
  {
    hide CivilFromDays, DaysFromCivil, FloorDiv, ValidDate;
    var days := FloorDiv(seconds, 86400);
    FloorDivSpec(seconds, 86400);
    DaysRoundTrip(days);
    var rest := seconds - days * 86400;
    assert rest == rest / 3600 * 3600 + rest % 3600 / 60 * 60 + rest % 60;
  }

  lemma UtcIsUnique(u: Utc)
    requires ValidUtc(u)
    ensures UtcOf(SecondsOf(u)) == u
  {
    hide CivilFromDays, DaysFromCivil, ValidDate;
    var rest := u.hour * 3600 + u.minute * 60 + u.second;
    QuotientUnique(SecondsOf(u), 86400, DaysFromCivil(u.date), rest);
    DateRoundTrip(u.date);
    QuotientUnique(rest, 3600, u.hour, u.minute * 60 + u.second);
    QuotientUnique(rest % 3600, 60, u.minute, u.second);
  }
}
