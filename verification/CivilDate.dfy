/** The build date: seconds since the epoch to a civil date, over every u64. */
module CivilDate {
  import opened Texts

  newtype u64 = x: int | 0 <= x < 0x1_0000_0000_0000_0000
  newtype i64 = x: int | -0x8000_0000_0000_0000 <= x < 0x8000_0000_0000_0000

  datatype Civil = Civil(year: i64, month: i64, day: i64)

  /** The first half of the source's chain of divisions: the era of 400 years that begin in March, the year
      in it, and the day of that year. The type `i64` has every intermediate value in range. */
  datatype EraDay = EraDay(era: i64, yearOfEra: i64, dayOfYear: i64)

  function EraDayOf(seconds: u64): (d: EraDay)
    ensures 0 <= d.era <= 0x1_0000_0000_0000 && 0 <= d.yearOfEra < 500 && -10 <= d.dayOfYear < 1000
  {
    var days := (seconds / 86_400) as i64 + 719_468;
    var era := days / 146_097;
    var dayOfEra := days % 146_097;
    var yearOfEra := (dayOfEra - dayOfEra / 1_460 + dayOfEra / 36_524 - dayOfEra / 146_096) / 365;
    var dayOfYear := dayOfEra - (365 * yearOfEra + yearOfEra / 4 - yearOfEra / 100);
    EraDay(era, yearOfEra, dayOfYear)
  }

  /** The second half: the month and the day of it, and the year that begins in January. */
  function DateOf(seconds: u64): Civil {
    var EraDay(era, yearOfEra, dayOfYear) := EraDayOf(seconds);
    var shiftedMonth := (5 * dayOfYear + 2) / 153;
    var day := dayOfYear - (153 * shiftedMonth + 2) / 5 + 1;
    var month := if shiftedMonth < 10 then shiftedMonth + 3 else shiftedMonth - 9;
    var year := yearOfEra + era * 400 + (if month <= 2 then 1 else 0);
    Civil(year, month, day)
  }

  // --- The Gregorian calendar, from its own rules -------------------------------------

  /** A calendar date; the rules of RFC 3339, section 5.7 and Appendix C. */
  datatype Date = Date(year: int, month: int, day: int)

  predicate IsLeap(year: int) { year % 4 == 0 && (year % 100 != 0 || year % 400 == 0) }

  function MonthLength(year: int, month: int): int {
    if month == 2 then (if IsLeap(year) then 29 else 28)
    else if month == 4 || month == 6 || month == 9 || month == 11 then 30
    else 31
  }

  predicate IsDate(d: Date) { 1 <= d.month <= 12 && 1 <= d.day <= MonthLength(d.year, d.month) }

  function NextDate(d: Date): Date {
    if d.day < MonthLength(d.year, d.month) then d.(day := d.day + 1)
    else if d.month < 12 then Date(d.year, d.month + 1, 1)
    else Date(d.year + 1, 1, 1)
  }

  /** The days of the years from 1970 on before `year`. */
  function DaysBeforeYear(year: int): int
    requires year >= 1970
  {
    if year == 1970 then 0 else DaysBeforeYear(year - 1) + (if IsLeap(year - 1) then 366 else 365)
  }

  function DaysBeforeMonth(year: int, month: int): int
    requires 1 <= month <= 12
    decreases month
  {
    if month == 1 then 0 else DaysBeforeMonth(year, month - 1) + MonthLength(year, month - 1)
  }

  /** The days from 1970-01-01 to the date. */
  function DayNumber(d: Date): int
    requires d.year >= 1970 && IsDate(d)
  {
    DaysBeforeYear(d.year) + DaysBeforeMonth(d.year, d.month) + d.day - 1
  }

  function AsDate(c: Civil): Date { Date(c.year as int, c.month as int, c.day as int) }

  // --- The divisions ------------------------------------------------------------------

  /** The days of the first `y` years of an era, years beginning in March. */
  function DaysOfYears(y: int): int { 365 * y + y / 4 - y / 100 }

  /** Whether the era's year `y`, beginning in March, ends with a leap day. */
  predicate EndsLeap(y: int) { IsLeap(y + 1) }

  function YearOfEra(dayOfEra: int): int {
    (dayOfEra - dayOfEra / 1_460 + dayOfEra / 36_524 - dayOfEra / 146_096) / 365
  }

  lemma YearInCentury(century: int, r: int)
    requires 0 <= century < 4 && 0 <= r < 36524
    ensures var z := (r - (r + 24 * century) / 1460) / 365;
            && YearOfEra(36524 * century + r) == 100 * century + z && 0 <= z < 100
            && 365 * z + z / 4 <= r <= 365 * z + z / 4 + 365
            && (r == 365 * z + z / 4 + 365 ==> z % 4 == 3 && z < 99)
  {
    var dayOfEra := 36524 * century + r;
    assert dayOfEra / 1460 == 25 * century + (r + 24 * century) / 1460;
    assert dayOfEra / 36524 == century;
    assert dayOfEra / 146096 == 0;
  }

  lemma CenturyAndYear(century: int, z: int)
    requires 0 <= century < 4 && 0 <= z < 100
    ensures DaysOfYears(100 * century + z) == 36524 * century + 365 * z + z / 4
    ensures z % 4 == 3 && z < 99 ==> EndsLeap(100 * century + z)
  {
    var y := 100 * century + z;
    assert y / 4 == 25 * century + z / 4;
    assert y / 100 == century;
    if z % 4 == 3 && z < 99 {
      assert (y + 1) % 4 == 0;
      assert (y + 1) % 100 == z + 1;
    }
  }

  /** The year of the era is the one the day lies in. */
  lemma YearOfEraIsRight(dayOfEra: int)
    requires 0 <= dayOfEra < 146_097
    ensures var y := YearOfEra(dayOfEra);
            && 0 <= y < 400
            && 0 <= dayOfEra - DaysOfYears(y) <= (if EndsLeap(y) then 365 else 364)
  {
    if dayOfEra == 146_096 {
      assert YearOfEra(dayOfEra) == 399;
    } else {
      var century, r := dayOfEra / 36524, dayOfEra % 36524;
      assert dayOfEra == 36524 * century + r;
      YearInCentury(century, r);
      CenturyAndYear(century, (r - (r + 24 * century) / 1460) / 365);
    }
  }

  /** The days before a month of a year that begins in March. */
  function DaysBeforeShifted(m: int): int { (153 * m + 2) / 5 }

  /** The month and the day of a day of a year that begins in March. */
  lemma MonthIsRight(dayOfYear: int)
    requires 0 <= dayOfYear <= 365
    ensures var m := (5 * dayOfYear + 2) / 153;
            && 0 <= m <= 11
            && DaysBeforeShifted(m) <= dayOfYear < DaysBeforeShifted(m + 1)
            && (m == 11 ==> dayOfYear - DaysBeforeShifted(m) <= 28)
  {
  }

  /** The day number of a date, by whole years beginning in March since March 1st of the year 0. */
  function ShiftedDayNumber(d: Date): int
    requires 1 <= d.month <= 12
  {
    var y := if d.month <= 2 then d.year - 1 else d.year;
    var m := if d.month <= 2 then d.month + 9 else d.month - 3;
    365 * y + y / 4 - y / 100 + y / 400 + DaysBeforeShifted(m) + d.day - 1
  }

  function DaysBeforeYearShifted(year: int): int {
    var y := year - 1;
    365 * y + y / 4 - y / 100 + y / 400 + 306
  }

  lemma {:induction false} DaysBeforeYearIs(year: int)
    requires year >= 1970
    ensures DaysBeforeYear(year) == DaysBeforeYearShifted(year) - 719_468
  {
    if year > 1970 {
      DaysBeforeYearIs(year - 1);
      YearStep(year - 1);
    }
  }

  lemma YearStep(year: int)
    requires year >= 1
    ensures DaysBeforeYearShifted(year + 1) == DaysBeforeYearShifted(year) + (if IsLeap(year) then 366 else 365)
  {
    Quotients(year, 4);
    Quotients(year, 100);
    Quotients(year, 400);
    LeapDays(year);
    assert DaysBeforeYearShifted(year + 1) == 365 * year + year / 4 - year / 100 + year / 400 + 306;
  }

  /** A leap day every fourth year but not every hundredth, and yet every four hundredth. */
  lemma LeapDays(year: int)
    ensures (if IsLeap(year) then 1 else 0)
            == (if year % 4 == 0 then 1 else 0) - (if year % 100 == 0 then 1 else 0)
              + (if year % 400 == 0 then 1 else 0)
  {
    if year % 100 == 0 {
      assert year == 4 * (25 * (year / 100));
    }
    if year % 400 == 0 {
      assert year == 100 * (4 * (year / 400));
    }
  }

  lemma Quotients(n: int, k: int)
    requires n >= 1 && (k == 4 || k == 100 || k == 400)
    ensures n / k == (n - 1) / k + (if n % k == 0 then 1 else 0)
  {
  }

  lemma MonthsFromJanuary(year: int, month: int)
    requires 1 <= month <= 12
    ensures DaysBeforeMonth(year, month) ==
            if month <= 2 then 31 * (month - 1)
            else DaysBeforeShifted(month - 3) + 59 + (if IsLeap(year) then 1 else 0)
  {
    if month > 1 {
      MonthsFromJanuary(year, month - 1);
    }
  }

  /** Counting by years that begin in March counts the same days as counting by the calendar. */
  lemma ShiftedDayNumberIs(d: Date)
    requires d.year >= 1970 && IsDate(d)
    ensures DayNumber(d) == ShiftedDayNumber(d) - 719_468
  {
    DaysBeforeYearIs(d.year);
    MonthsFromJanuary(d.year, d.month);
    YearStep(d.year);
  }

  // --- The date -----------------------------------------------------------------------

  /** The days of whole eras and of the years after them. */
  lemma DaysOfEras(y: int, era: int)
    requires 0 <= y < 400
    ensures var year := y + 400 * era;
            365 * year + year / 4 - year / 100 + year / 400 == 146_097 * era + DaysOfYears(y)
  {
    var year := y + 400 * era;
    assert year / 4 == y / 4 + 100 * era;
    assert year / 100 == y / 100 + 4 * era;
    assert year / 400 == era;
  }

  /** The date of a day of a year that begins in March. */
  function DateInYear(year: int, dayOfYear: int): Date {
    var m := (5 * dayOfYear + 2) / 153;
    var month := if m < 10 then m + 3 else m - 9;
    Date(year + (if month <= 2 then 1 else 0), month, dayOfYear - DaysBeforeShifted(m) + 1)
  }

  lemma MonthAndDay(year: int, dayOfYear: int)
    requires 0 <= dayOfYear <= (if IsLeap(year + 1) then 365 else 364)
    ensures var d := DateInYear(year, dayOfYear);
            && IsDate(d) && d.year >= year
            && ShiftedDayNumber(d) == 365 * year + year / 4 - year / 100 + year / 400 + dayOfYear
            && (dayOfYear >= 306 ==> d.year == year + 1)
  {
    MonthIsRight(dayOfYear);
  }

  /** The date of day `n` since March 1st of the year 0, from its era, year and day of the year. */
  lemma Parts(n: int, era: int, y: int, dayOfYear: int)
    requires n >= 719_468 && era == n / 146_097 && y == YearOfEra(n % 146_097)
    requires dayOfYear == n % 146_097 - DaysOfYears(y)
    ensures var d := DateInYear(y + era * 400, dayOfYear); IsDate(d) && 1970 <= d.year && ShiftedDayNumber(d) == n
  {
    YearOfEraIsRight(n % 146_097);
    DaysOfEras(y, era);
    LeapInEra(y + 1, era);
    MonthAndDay(y + era * 400, dayOfYear);
    SinceTheEpoch(n, y, dayOfYear);
  }

  lemma LeapInEra(y: int, era: int)
    ensures IsLeap(y + era * 400) == IsLeap(y)
  {
    Periodic(y, 100 * era, 4);
    Periodic(y, 4 * era, 100);
    Periodic(y, era, 400);
  }

  lemma Periodic(y: int, times: int, k: int)
    requires k == 4 || k == 100 || k == 400
    ensures (y + k * times) % k == y % k
  {
  }

  lemma SinceTheEpoch(n: int, y: int, dayOfYear: int)
    requires n >= 719_468 && y == YearOfEra(n % 146_097) && dayOfYear == n % 146_097 - DaysOfYears(y)
    ensures y + n / 146_097 * 400 >= 1970 || (y + n / 146_097 * 400 == 1969 && dayOfYear >= 306)
  {
    YearOfEraIsRight(n % 146_097);
  }

  /** The source's integers are these parts: nothing wraps. */
  lemma EraDayHasParts(seconds: u64, n: int)
    requires n == seconds as int / 86_400 + 719_468
    ensures var d := EraDayOf(seconds);
            && d.era as int == n / 146_097 && d.yearOfEra as int == YearOfEra(n % 146_097)
            && d.dayOfYear as int == n % 146_097 - DaysOfYears(YearOfEra(n % 146_097))
  {
  }

  lemma DateHasParts(seconds: u64)
    ensures var d := EraDayOf(seconds);
            AsDate(DateOf(seconds)) == DateInYear(d.yearOfEra as int + d.era as int * 400, d.dayOfYear as int)
  {
  }

  lemma ShiftedDate(seconds: u64, n: int)
    requires n == seconds as int / 86_400 + 719_468
    ensures var d := AsDate(DateOf(seconds)); IsDate(d) && d.year >= 1970 && ShiftedDayNumber(d) == n
  {
    var d := EraDayOf(seconds);
    var era, y, dayOfYear := d.era as int, d.yearOfEra as int, d.dayOfYear as int;
    assert era == n / 146_097 && y == YearOfEra(n % 146_097) && dayOfYear == n % 146_097 - DaysOfYears(y) by {
      EraDayHasParts(seconds, n);
    }
    DateHasParts(seconds);
    Parts(n, era, y, dayOfYear);
  }

  /** The date of every second is a date of the Gregorian calendar, from 1970 on, and its day number,
      counted by the calendar's own rules, is the number of whole days since the epoch. */
  lemma DateIsRight(seconds: u64)
    ensures var d := AsDate(DateOf(seconds));
            && IsDate(d) && d.year >= 1970
            && DayNumber(d) == seconds as int / 86_400
  {
    ShiftedDate(seconds, seconds as int / 86_400 + 719_468);
    ShiftedDayNumberIs(AsDate(DateOf(seconds)));
  }

  // --- One date for one day -----------------------------------------------------------

  /** The calendar's next date has the next day number. */
  lemma NextDateCounts(d: Date)
    requires IsDate(d) && d.year >= 1970
    ensures IsDate(NextDate(d)) && NextDate(d).year >= 1970 && DayNumber(NextDate(d)) == DayNumber(d) + 1
  {
    if d.day < MonthLength(d.year, d.month) {
    } else if d.month < 12 {
    } else {
      MonthsFromJanuary(d.year, 12);
    }
  }

  lemma {:induction false} LaterYearsCountMore(y: int, z: int)
    requires 1970 <= y < z
    ensures DaysBeforeYear(z) >= DaysBeforeYear(y) + (if IsLeap(y) then 366 else 365)
    decreases z - y
  {
    if z > y + 1 {
      LaterYearsCountMore(y, z - 1);
    }
  }

  lemma DayOfYearBound(d: Date)
    requires IsDate(d)
    ensures 0 <= DaysBeforeMonth(d.year, d.month) + d.day - 1 < (if IsLeap(d.year) then 366 else 365)
  {
    MonthsFromJanuary(d.year, d.month);
  }

  lemma {:induction false} LaterMonthsCountMore(year: int, m: int, k: int)
    requires 1 <= m < k <= 12
    ensures DaysBeforeMonth(year, k) >= DaysBeforeMonth(year, m) + MonthLength(year, m)
    decreases k
  {
    if k > m + 1 {
      LaterMonthsCountMore(year, m, k - 1);
    }
  }

  /** Of two dates the later one, year by year, month by month and day by day, has the larger day number. */
  lemma LaterDatesCountMore(a: Date, b: Date)
    requires IsDate(a) && IsDate(b) && a.year >= 1970
    requires a.year < b.year || (a.year == b.year && (a.month < b.month || (a.month == b.month && a.day < b.day)))
    ensures DayNumber(a) < DayNumber(b)
  {
    if a.year < b.year {
      DayOfYearBound(a);
      DayOfYearBound(b);
      LaterYearsCountMore(a.year, b.year);
    } else if a.month < b.month {
      LaterMonthsCountMore(a.year, a.month, b.month);
    }
  }

  /** Two dates with one day number are the same date. */
  lemma DayNumberIsInjective(a: Date, b: Date)
    requires IsDate(a) && IsDate(b) && a.year >= 1970 && b.year >= 1970 && DayNumber(a) == DayNumber(b)
    ensures a == b
  {
    if a.year < b.year || (a.year == b.year && (a.month < b.month || (a.month == b.month && a.day < b.day))) {
      LaterDatesCountMore(a, b);
    } else if a != b {
      LaterDatesCountMore(b, a);
    }
  }

  /** Seconds have one date exactly when they share a day. */
  lemma OneDateForOneDay(s: u64, t: u64)
    ensures s as int / 86_400 == t as int / 86_400 <==> DateOf(s) == DateOf(t)
  {
    DateIsRight(s);
    DateIsRight(t);
    var a, b := AsDate(DateOf(s)), AsDate(DateOf(t));
    if DayNumber(a) == DayNumber(b) {
      DayNumberIsInjective(a, b);
    }
  }

  /** Consecutive days have consecutive dates of the calendar, across months, years and leap days. */
  lemma DaysFollowTheCalendar(s: u64, t: u64)
    requires s as int / 86_400 + 1 == t as int / 86_400
    ensures AsDate(DateOf(t)) == NextDate(AsDate(DateOf(s)))
  {
    DateIsRight(s);
    DateIsRight(t);
    NextDateCounts(AsDate(DateOf(s)));
    DayNumberIsInjective(AsDate(DateOf(t)), NextDate(AsDate(DateOf(s))));
  }

  // --- The date's text ----------------------------------------------------------------

  const DIGITS := "0123456789"

  function Decimal(n: nat): (text: string)
    ensures |text| > 0
  {
    if n < 10 then [DIGITS[n]] else Decimal(n / 10) + [DIGITS[n % 10]]
  }

  /** The decimal text of `n`, with zeros in front up to `width` characters. */
  function Padded(n: nat, width: nat): (text: string)
    ensures |text| >= width
  {
    Zeros(if |Decimal(n)| < width then width - |Decimal(n)| else 0) + Decimal(n)
  }

  function Zeros(count: nat): (text: string)
    ensures |text| == count
  {
    if count == 0 then "" else "0" + Zeros(count - 1)
  }

  /** The year in four digits at least, the month and the day in two, a hyphen between each. */
  function TextOf(d: Date): string
    requires IsDate(d) && d.year >= 0
  {
    Padded(d.year, 4) + "-" + Padded(d.month, 2) + "-" + Padded(d.day, 2)
  }

  /** Reads a date's text back: the last two fields have two digits. */
  function Read(text: string): Date
    requires |text| >= 6
  {
    Date(Number(text[..|text| - 6]), Number(text[|text| - 5..|text| - 3]), Number(text[|text| - 2..]))
  }

  lemma {:induction false} NumberOfDecimal(n: nat)
    ensures Number(Decimal(n)) == n
  {
    if n < 10 {
      assert Number("") == 0;
    } else {
      NumberOfDecimal(n / 10);
      assert (Decimal(n / 10) + [DIGITS[n % 10]])[..|Decimal(n / 10)|] == Decimal(n / 10);
    }
  }

  lemma {:induction false} ZerosCountNothing(count: nat, text: string)
    ensures Number(Zeros(count) + text) == Number(text)
    decreases |text|, count
  {
    if text == "" {
      assert Zeros(count) + text == Zeros(count);
      if count > 0 {
        ZerosAtEnd(count - 1);
        assert (Zeros(count - 1) + "0")[..count - 1] == Zeros(count - 1);
        ZerosCountNothing(count - 1, text);
        assert Zeros(count - 1) + text == Zeros(count - 1);
      }
    } else {
      var n := |text|;
      assert (Zeros(count) + text)[..count + n - 1] == Zeros(count) + text[..n - 1];
      ZerosCountNothing(count, text[..n - 1]);
    }
  }

  lemma {:induction false} ZerosAtEnd(count: nat)
    ensures Zeros(count + 1) == Zeros(count) + "0"
  {
    if count > 0 {
      ZerosAtEnd(count - 1);
    }
  }

  lemma NumberOfPadded(n: nat, width: nat)
    ensures Number(Padded(n, width)) == n
    ensures n < 100 ==> |Padded(n, 2)| == 2
  {
    NumberOfDecimal(n);
    ZerosCountNothing(if |Decimal(n)| < width then width - |Decimal(n)| else 0, Decimal(n));
    if n < 100 {
      assert n < 10 || |Decimal(n / 10)| == 1;
    }
  }

  lemma FieldsAreShort(d: Date)
    requires IsDate(d)
    ensures 0 < d.month < 100 && 0 < d.day < 100
  {
  }

  /** A date's text reads back as the date. */
  lemma TextReadsBack(d: Date)
    requires IsDate(d) && d.year >= 0
    ensures |TextOf(d)| >= 10 && Read(TextOf(d)) == d
  {
    FieldsAreShort(d);
    NumberOfPadded(d.year, 4);
    NumberOfPadded(d.month, 2);
    NumberOfPadded(d.day, 2);
    FieldsRead(Padded(d.year, 4), Padded(d.month, 2), Padded(d.day, 2));
  }

  lemma FieldsRead(y: string, m: string, day: string)
    requires |m| == |day| == 2
    ensures Read(y + "-" + m + "-" + day) == Date(Number(y), Number(m), Number(day))
  {
    var text := y + "-" + m + "-" + day;
    assert text[..|text| - 6] == y && text[|text| - 5..|text| - 3] == m && text[|text| - 2..] == day;
  }

  function BuildDate(seconds: u64): (text: string)
    ensures |text| >= 10
  {
    DateIsRight(seconds);
    TextReadsBack(AsDate(DateOf(seconds)));
    TextOf(AsDate(DateOf(seconds)))
  }

  /** The build date's text names the day: it reads back as the calendar's date of that day, and two builds
      have one text exactly when they share a day. */
  lemma BuildDateNamesTheDay(s: u64, t: u64)
    ensures var d := Read(BuildDate(s)); IsDate(d) && d.year >= 1970 && DayNumber(d) == s as int / 86_400
    ensures BuildDate(s) == BuildDate(t) <==> s as int / 86_400 == t as int / 86_400
  {
    DateIsRight(s);
    DateIsRight(t);
    TextReadsBack(AsDate(DateOf(s)));
    TextReadsBack(AsDate(DateOf(t)));
    OneDateForOneDay(s, t);
  }
}
