/** Day numbers of civil dates, used for the age of curated examples.

    The reference is counting: `Next` is the day after a date under the
    Gregorian rules (RFC 3339, section 5.7 and Appendix C). */
module Calendar {
  import opened Wrappers
  import opened Decimal
  import opened Text

  // ---- the Gregorian rules ------------------------------------------------------

  datatype Date = Date(year: int, month: int, day: int)

  const EPOCH := Date(1970, 1, 1)

  predicate Leap(year: int) {
    year % 4 == 0 && (year % 100 != 0 || year % 400 == 0)
  }

  function MonthLength(leap: bool, month: int): int {
    if month == 2 then (if leap then 29 else 28)
    else if month == 4 || month == 6 || month == 9 || month == 11 then 30
    else 31
  }

  function DaysInMonth(year: int, month: int): int {
    MonthLength(Leap(year), month)
  }

  predicate Valid(d: Date) {
    1 <= d.month <= 12 && 1 <= d.day <= DaysInMonth(d.year, d.month)
  }

  function Next(d: Date): Date {
    if d.day < DaysInMonth(d.year, d.month) then d.(day := d.day + 1)
    else if d.month < 12 then Date(d.year, d.month + 1, 1)
    else Date(d.year + 1, 1, 1)
  }

  predicate Before(a: Date, b: Date) {
    || a.year < b.year
    || (a.year == b.year && a.month < b.month)
    || (a.year == b.year && a.month == b.month && a.day < b.day)
  }

  /** `n` days later, counted one at a time. */
  function Advance(d: Date, n: nat): Date {
    if n == 0 then d else Next(Advance(d, n - 1))
  }

  // ---- the closed form --------------------------------------------------------------

  /** Rust's integer division, which truncates toward zero. */
  function TruncDiv(a: int, b: int): int
    requires b > 0
  {
    if a >= 0 then a / b else -((-a) / b)
  }

  /** The year that starts in March. */
  function MarchYear(year: int, month: int): int {
    year - (if month <= 2 then 1 else 0)
  }

  function Era(marchYear: int): int {
    TruncDiv(if marchYear >= 0 then marchYear else marchYear - 399, 400)
  }

  function DayOfYear(month: int, day: int): int {
    (153 * (month + (if month > 2 then -3 else 9)) + 2) / 5 + day - 1
  }

  function DayOfEra(yearOfEra: int, dayOfYear: int): int {
    yearOfEra * 365 + yearOfEra / 4 - yearOfEra / 100 + dayOfYear
  }

  function DaysFromCivil(year: int, month: int, day: int): int {
    var y := MarchYear(year, month);
    var era := Era(y);
    var yoe := y - era * 400;
    var doe := DayOfEra(yoe, DayOfYear(month, day));
    era * 146_097 + doe - 719_468
  }

  function DayNumber(d: Date): int {
    DaysFromCivil(d.year, d.month, d.day)
  }

  // ---- the closed form counts days ---------------------------------------------------

  /** Days in all March years before `y`, up to a constant. */
  function YearDays(y: int): int {
    365 * y + y / 4 - y / 100 + y / 400
  }

  lemma ErasAreYears(y: int)
    ensures Era(y) == y / 400
    ensures Era(y) * 146_097 + DayOfEra(y - Era(y) * 400, 0) == YearDays(y)
  {
    var e, r := y / 400, y % 400;
    assert y == 400 * e + r;
    assert y / 4 == 100 * e + r / 4;
    assert y / 100 == 4 * e + r / 100;
  }

  lemma DayNumberIsYearPlusDay(year: int, month: int, day: int)
    ensures DaysFromCivil(year, month, day) ==
            YearDays(MarchYear(year, month)) + DayOfYear(month, day) - 719_468
  {
    ErasAreYears(MarchYear(year, month));
  }

  lemma QuotientSteps(y: int)
    ensures y / 4 == (y - 1) / 4 + (if y % 4 == 0 then 1 else 0)
    ensures y / 100 == (y - 1) / 100 + (if y % 100 == 0 then 1 else 0)
    ensures y / 400 == (y - 1) / 400 + (if y % 400 == 0 then 1 else 0)
  {
  }

  lemma MultipleOf100(y: int, k: int)
    requires y == 100 * k
    ensures y % 100 == 0
  {
  }

  lemma MultipleOf4(y: int, k: int)
    requires y == 4 * k
    ensures y % 4 == 0
  {
  }

  lemma MultiplesNest(y: int)
    ensures y % 400 == 0 ==> y % 100 == 0
    ensures y % 100 == 0 ==> y % 4 == 0
  {
    if y % 400 == 0 {
      MultipleOf100(y, 4 * (y / 400));
    }
    if y % 100 == 0 {
      MultipleOf4(y, 25 * (y / 100));
    }
  }

  lemma YearLength(y: int)
    ensures YearDays(y) == YearDays(y - 1) + (if Leap(y) then 366 else 365)
  {
    QuotientSteps(y);
    MultiplesNest(y);
  }

  lemma {:induction false} YearsAccumulate(y: int, n: nat)
    ensures YearDays(y + n) >= YearDays(y) + 365 * n
  {
    if n != 0 {
      YearsAccumulate(y, n - 1);
      YearLength(y + n);
    }
  }

  /** Each month starts where the one before it ended; March starts the year. */
  lemma MonthsJoin(leap: bool, month: int)
    requires 1 <= month <= 12
    ensures month != 2 && month != 12 ==>
              DayOfYear(month + 1, 1) == DayOfYear(month, MonthLength(leap, month)) + 1
    ensures DayOfYear(1, 1) == DayOfYear(12, MonthLength(leap, 12)) + 1
    ensures DayOfYear(3, 1) == 0
    ensures DayOfYear(2, MonthLength(leap, 2)) + 1 == if leap then 366 else 365
  {
  }

  lemma NextIsValid(d: Date)
    requires Valid(d)
    ensures Valid(Next(d))
  {
  }

  lemma NextWithinYear(d: Date)
    requires Valid(d) && MarchYear(Next(d).year, Next(d).month) == MarchYear(d.year, d.month)
    ensures DayOfYear(Next(d).month, Next(d).day) == DayOfYear(d.month, d.day) + 1
  {
    MonthsJoin(Leap(d.year), d.month);
  }

  lemma NextOpensYear(d: Date)
    requires Valid(d) && MarchYear(Next(d).year, Next(d).month) != MarchYear(d.year, d.month)
    ensures d.month == 2 && Next(d) == Date(d.year, 3, 1)
    ensures DayOfYear(2, d.day) + 1 == if Leap(d.year) then 366 else 365
  {
  }

  /** The next day has the next number. */
  lemma NextAddsOne(d: Date)
    requires Valid(d)
    ensures Valid(Next(d)) && DayNumber(Next(d)) == DayNumber(d) + 1
  {
    NextIsValid(d);
    var n := Next(d);
    var y := MarchYear(d.year, d.month);
    DayNumberIsYearPlusDay(d.year, d.month, d.day);
    DayNumberIsYearPlusDay(n.year, n.month, n.day);
    if MarchYear(n.year, n.month) == y {
      NextWithinYear(d);
    } else {
      NextOpensYear(d);
      YearLength(d.year);
      assert DayOfYear(3, 1) == 0;
    }
  }

  lemma DayOfYearRange(d: Date)
    requires Valid(d)
    ensures 0 <= DayOfYear(d.month, d.day)
    ensures DayOfYear(d.month, d.day) < (if Leap(MarchYear(d.year, d.month) + 1) then 366 else 365)
  {
  }

  /** Within one March year a later month starts after every day of an earlier one. */
  lemma MonthsAccumulate(m: int, n: int, leap: bool, i: int, j: int)
    requires 1 <= m <= 12 && 1 <= n <= 12 && 1 <= i <= MonthLength(leap, m) && 1 <= j
    requires (m - 3) % 12 < (n - 3) % 12 || (m == n && i < j)
    ensures DayOfYear(m, i) < DayOfYear(n, j)
  {
  }

  lemma LaterYearIsLarger(a: Date, b: Date)
    requires Valid(a) && Valid(b) && MarchYear(a.year, a.month) < MarchYear(b.year, b.month)
    ensures DayNumber(a) < DayNumber(b)
  {
    var y, z := MarchYear(a.year, a.month), MarchYear(b.year, b.month);
    DayNumberIsYearPlusDay(a.year, a.month, a.day);
    DayNumberIsYearPlusDay(b.year, b.month, b.day);
    DayOfYearRange(a);
    DayOfYearRange(b);
    YearLength(y + 1);
    YearsAccumulate(y + 1, z - y - 1);
  }

  lemma BeforeInMarchYear(a: Date, b: Date)
    requires Valid(a) && Valid(b) && Before(a, b) && MarchYear(a.year, a.month) >= MarchYear(b.year, b.month)
    ensures MarchYear(a.year, a.month) == MarchYear(b.year, b.month)
    ensures (a.month - 3) % 12 < (b.month - 3) % 12 || (a.month == b.month && a.day < b.day)
  {
  }

  lemma LaterIsLarger(a: Date, b: Date)
    requires Valid(a) && Valid(b) && Before(a, b)
    ensures DayNumber(a) < DayNumber(b)
  {
    if MarchYear(a.year, a.month) < MarchYear(b.year, b.month) {
      LaterYearIsLarger(a, b);
    } else {
      BeforeInMarchYear(a, b);
      MonthsAccumulate(a.month, b.month, Leap(a.year), a.day, b.day);
      DayNumberIsYearPlusDay(a.year, a.month, a.day);
      DayNumberIsYearPlusDay(b.year, b.month, b.day);
    }
  }

  /** Numbers and dates are in the same order. */
  lemma DayNumberOrder(a: Date, b: Date)
    requires Valid(a) && Valid(b)
    ensures Before(a, b) <==> DayNumber(a) < DayNumber(b)
    ensures a == b <==> DayNumber(a) == DayNumber(b)
  {
    if Before(a, b) {
      LaterIsLarger(a, b);
    } else if Before(b, a) {
      LaterIsLarger(b, a);
    }
  }

  lemma {:induction false} AdvanceAdds(d: Date, n: nat)
    requires Valid(d)
    ensures Valid(Advance(d, n)) && DayNumber(Advance(d, n)) == DayNumber(d) + n
  {
    if n != 0 {
      AdvanceAdds(d, n - 1);
      NextAddsOne(Advance(d, n - 1));
    }
  }

  lemma EpochIsZero()
    ensures Valid(EPOCH) && DayNumber(EPOCH) == 0
  {
  }

  lemma AdvanceReaches(a: Date, b: Date)
    requires Valid(a) && Valid(b) && DayNumber(a) <= DayNumber(b)
    ensures Advance(a, DayNumber(b) - DayNumber(a)) == b
  {
    var n := DayNumber(b) - DayNumber(a);
    AdvanceAdds(a, n);
    DayNumberOrder(Advance(a, n), b);
  }

  lemma CountsFrom(start: Date, d: Date, n: int)
    requires Valid(start) && Valid(d) && n == DayNumber(d) - DayNumber(start)
    ensures n >= 0 ==> Advance(start, n) == d
    ensures n < 0 ==> Advance(d, -n) == start
  {
    if n >= 0 {
      AdvanceReaches(start, d);
    } else {
      AdvanceReaches(d, start);
    }
  }

  /** The closed form is the signed count of days from 1970-01-01. */
  lemma DayNumberCountsFromEpoch(d: Date)
    requires Valid(d)
    ensures DayNumber(d) >= 0 ==> Advance(EPOCH, DayNumber(d)) == d
    ensures DayNumber(d) < 0 ==> Advance(d, -DayNumber(d)) == EPOCH
  {
    EpochIsZero();
    CountsFrom(EPOCH, d, DayNumber(d));
  }

  // ---- 32-bit arithmetic ---------------------------------------------------------------

  predicate I32(n: int) {
    -0x8000_0000 <= n <= 0x7fff_ffff
  }

  /** Every intermediate value of the routine fits a 32-bit integer. */
  predicate FitsI32(year: int, month: int, day: int) {
    var y := MarchYear(year, month);
    var era := Era(y);
    var yoe := y - era * 400;
    var shifted := month + (if month > 2 then -3 else 9);
    && I32(y)
    && (y < 0 ==> I32(y - 399))
    && I32(era * 400) && I32(yoe)
    && I32(153 * shifted) && I32(153 * shifted + 2) && I32((153 * shifted + 2) / 5 + day) && I32(DayOfYear(month, day))
    && I32(yoe * 365) && I32(yoe * 365 + yoe / 4) && I32(DayOfEra(yoe, 0)) && I32(DayOfEra(yoe, DayOfYear(month, day)))
    && I32(era * 146_097)
    && I32(era * 146_097 + DayOfEra(yoe, DayOfYear(month, day)))
    && I32(DaysFromCivil(year, month, day))
  }

  /** No step overflows exactly when the result is in range with room for the
      final subtraction. */
  lemma FitsIffResultFits(year: int, month: int, day: int)
    requires 1 <= month <= 12 && 1 <= day <= 31
    ensures FitsI32(year, month, day) <==>
            -0x8000_0000 <= DaysFromCivil(year, month, day) <= 0x7fff_ffff - 719_468
  {
    ErasAreYears(MarchYear(year, month));
  }

  const FIRST_SAFE := Date(-5_877_641, 6, 23)
  const LAST_SAFE := Date(5_879_610, 9, 9)

  lemma FirstSafeNumber()
    ensures Valid(FIRST_SAFE) && DayNumber(FIRST_SAFE) == -0x8000_0000
  {
    assert Era(-5_877_641) == -14_695;
    assert DayOfYear(6, 23) == 114;
    assert DayOfEra(359, 114) == 131_235;
  }

  lemma LastSafeNumber()
    ensures Valid(LAST_SAFE) && DayNumber(LAST_SAFE) == 0x7fff_ffff - 719_468
  {
    assert Era(5_879_610) == 14_699;
    assert DayOfYear(9, 9) == 192;
    assert DayOfEra(10, 192) == 3_844;
  }

  /** The same limit as a test on the date. */
  lemma FitsIffBetweenSafeDates(d: Date)
    requires Valid(d)
    ensures FitsI32(d.year, d.month, d.day) <==> !Before(d, FIRST_SAFE) && !Before(LAST_SAFE, d)
  {
    FitsIffResultFits(d.year, d.month, d.day);
    FirstSafeNumber();
    LastSafeNumber();
    DayNumberOrder(d, FIRST_SAFE);
    DayNumberOrder(LAST_SAFE, d);
  }

  // ---- reading a date and its age --------------------------------------------------------

  /** A rejected text, a day number, or arithmetic that leaves 32 bits on the way. */
  datatype EpochDay = Rejected | Day(number: int) | Overflow

  function CheckedDay(year: int, month: int, day: int): EpochDay {
    if FitsI32(year, month, day) then Day(DaysFromCivil(year, month, day)) else Overflow
  }

  function ParseEpochDay(date: string): EpochDay {
    var parts := SplitOn(date, '-');
    if |parts| != 3 then Rejected
    else
      match (ParseI32(parts[0]), ParseU32(parts[1]), ParseU32(parts[2]))
      case (Some(y), Some(m), Some(d)) =>
        if 1 <= m <= 12 && 1 <= d <= 31 then CheckedDay(y, m, d) else Rejected
      case _ => Rejected
  }

  lemma SplitDate(y: string, m: string, d: string)
    requires '-' !in y && '-' !in m && '-' !in d
    ensures SplitOn(y + "-" + m + "-" + d, '-') == [y, m, d]
  {
    assert y + "-" + m + "-" + d == y + ['-'] + (m + ['-'] + d);
    SplitFirst(y, m + ['-'] + d, '-');
    SplitFirst(m, d, '-');
    SplitFirst(d, "", '-');
  }

  lemma ParsePlain(s: string)
    requires AllDigits(s) && s != ""
    ensures '-' !in s
    ensures ParseU32(s) == if Value(s) <= U32_MAX then Some(Value(s)) else None
    ensures ParseI32(s) == if Value(s) <= I32_MAX then Some(Value(s)) else None
  {
    assert IsDigit(s[0]);
  }

  /** From the epoch's year on, the arithmetic stays within 32 bits exactly up to the last
      safe date, days past the end of a month included. */
  lemma LaterFitsIff(year: int, month: int, day: int)
    requires year >= 0 && 1 <= month <= 12 && 1 <= day <= 31
    ensures FitsI32(year, month, day) <==> !Before(LAST_SAFE, Date(year, month, day))
  {
    var d := Date(year, month, day);
    FitsIffResultFits(year, month, day);
    FirstSafeNumber();
    LastSafeNumber();
    var first := Date(year, month, 1);
    DayIsLinear(year, month, day);
    DayNumberOrder(FIRST_SAFE, first);
    DayNumberOrder(LAST_SAFE, first);
    DayNumberOrder(first, Date(LAST_SAFE.year, LAST_SAFE.month, 1));
    DayIsLinear(LAST_SAFE.year, LAST_SAFE.month, LAST_SAFE.day);
    if first == Date(LAST_SAFE.year, LAST_SAFE.month, 1) {
      assert DayNumber(first) + (day - 1) <= DayNumber(LAST_SAFE) <==> day <= LAST_SAFE.day;
    } else if Before(first, LAST_SAFE) {
      var august := Date(LAST_SAFE.year, 8, 1);
      DayNumberOrder(first, august);
      MonthBefore();
    }
  }

  /** Thirty-one days counted from the month before the last safe one stay below it. */
  lemma MonthBefore()
    ensures DayNumber(Date(LAST_SAFE.year, 8, 1)) + 30 < DayNumber(LAST_SAFE)
  {
    DayIsLinear(LAST_SAFE.year, 8, 31);
    LaterIsLarger(Date(LAST_SAFE.year, 8, 31), LAST_SAFE);
  }

  /** `y-m-d` with plain digits is rejected exactly when the year, month or day is out of
      range; otherwise it reads as the date's number up to the last safe date, and overflows
      after it. Zero padding does not matter. */
  lemma ParseEpochDayOf(y: string, m: string, d: string)
    requires AllDigits(y) && AllDigits(m) && AllDigits(d) && y != "" && m != "" && d != ""
    ensures ParseEpochDay(y + "-" + m + "-" + d) ==
            if Value(y) > I32_MAX || !(1 <= Value(m) <= 12) || !(1 <= Value(d) <= 31) then Rejected
            else if Before(LAST_SAFE, Date(Value(y), Value(m), Value(d))) then Overflow
            else Day(DaysFromCivil(Value(y), Value(m), Value(d)))
  {
    ParsePlain(y);
    ParsePlain(m);
    ParsePlain(d);
    SplitDate(y, m, d);
    if 1 <= Value(m) <= 12 && 1 <= Value(d) <= 31 {
      LaterFitsIff(Value(y), Value(m), Value(d));
    }
  }

  /** The day after the last safe one, 5879610-9-10, is accepted and overflows. */
  lemma FirstUnsafeDateOverflows()
    ensures ParseEpochDay(Digits(LAST_SAFE.year) + "-" + Digits(9) + "-" + Digits(10)) == Overflow
  {
    ValueOfDigits(LAST_SAFE.year);
    ValueOfDigits(9);
    ValueOfDigits(10);
    ParseEpochDayOf(Digits(LAST_SAFE.year), Digits(9), Digits(10));
  }

  /** A day past the end of its month counts on into the next one: the number is that of the
      date reached by counting on from the first of the month. */
  lemma DaysSpillOver(year: int, month: int, day: int)
    requires 1 <= month <= 12 && day >= 1
    ensures DaysFromCivil(year, month, day) == DayNumber(Advance(Date(year, month, 1), day - 1))
  {
    DayIsLinear(year, month, day);
    AdvanceAdds(Date(year, month, 1), day - 1);
  }

  lemma DayIsLinear(year: int, month: int, day: int)
    ensures DaysFromCivil(year, month, day) == DaysFromCivil(year, month, 1) + (day - 1)
  {
  }

  const MAX_AGE_DAYS := 90

  predicate IsStale(todayEpochDay: int, lastValidatedDay: int) {
    todayEpochDay - lastValidatedDay > MAX_AGE_DAYS
  }

  /** An example is reported exactly when today comes after the ninetieth day
      counted from its validation date. */
  lemma StaleAfterNinetyDays(today: Date, validated: Date)
    requires Valid(today) && Valid(validated)
    ensures IsStale(DayNumber(today), DayNumber(validated)) <==> Before(Advance(validated, MAX_AGE_DAYS), today)
  {
    AdvanceAdds(validated, MAX_AGE_DAYS);
    DayNumberOrder(Advance(validated, MAX_AGE_DAYS), today);
  }
}
