/** The proleptic Gregorian calendar and its day numbers, day 0 being 1970-01-01. */
module Calendar {
  import opened Arithmetic

  datatype Date = Date(year: int, month: int, day: int)

  // ---------------------------------------------------------------------------
  // The calendar
  // ---------------------------------------------------------------------------

  // C++ division and remainder, toward zero
  function TDiv(a: int, b: int): int
    requires b > 0
  {
    if a >= 0 then a / b else -((-a) / b)
  }

  function TMod(a: int, b: int): int
    requires b > 0
  {
    a - b * TDiv(a, b)
  }

  predicate IsLeapYear(year: int) {
    (TMod(year, 4) == 0 && TMod(year, 100) != 0) || TMod(year, 400) == 0
  }

  function DaysInMonth(year: int, month: int): int
    requires 1 <= month <= 12
  {
    if month == 2 && IsLeapYear(year) then 29
    else [31, 28, 31, 30, 31, 30, 31, 31, 30, 31, 30, 31][month - 1]
  }

  predicate Valid(t: Date) {
    1 <= t.month <= 12 && 1 <= t.day <= DaysInMonth(t.year, t.month)
  }

  // The day after
  function NextDay(t: Date): Date
    requires Valid(t)
  {
    if t.day < DaysInMonth(t.year, t.month) then t.(day := t.day + 1)
    else if t.month < 12 then Date(t.year, t.month + 1, 1)
    else Date(t.year + 1, 1, 1)
  }

  // ---------------------------------------------------------------------------
  // The conversions: years counted from March, in eras of 400
  // ---------------------------------------------------------------------------

  function Floor(a: int, b: int): int
    requires b > 0
  {
    TDiv(if a >= 0 then a else a - (b - 1), b)
  }

  function MarchYear(t: Date): int {
    if t.month <= 2 then t.year - 1 else t.year
  }

  function MarchMonth(month: int): int {
    if month > 2 then month - 3 else month + 9
  }

  // Days of an era before year yoe
  function YearStart(yoe: int): int {
    yoe * 365 + yoe / 4 - yoe / 100
  }

  // Days of a year before month mp
  function MonthStart(mp: int): int {
    (153 * mp + 2) / 5
  }

  function Compose(era: int, yoe: int, mp: int, day: int): int {
    era * 146097 + (YearStart(yoe) + (MonthStart(mp) + day - 1)) - 719468
  }

  function DaysFromCivil(t: Date): int {
    var y := MarchYear(t);
    var era := Floor(y, 400);
    Compose(era, y - era * 400, MarchMonth(t.month), t.day)
  }

  function YearOfEra(doe: int): int {
    (doe - doe / 1460 + doe / 36524 - doe / 146096) / 365
  }

  function MonthOfYear(doy: int): int {
    (5 * doy + 2) / 153
  }

  function FromMarch(year: int, mp: int, day: int): Date {
    var m := if mp < 10 then mp + 3 else mp - 9;
    Date(if m <= 2 then year + 1 else year, m, day)
  }

  function FromDayOfYear(year: int, doy: int): Date {
    var mp := MonthOfYear(doy);
    FromMarch(year, mp, doy - MonthStart(mp) + 1)
  }

  function FromDayOfEra(era: int, doe: int): Date {
    var yoe := YearOfEra(doe);
    FromDayOfYear(yoe + era * 400, doe - YearStart(yoe))
  }

  function CivilFromDays(z0: int): Date {
    var z := z0 + 719468;
    var era := Floor(z, 146097);
    FromDayOfEra(era, z - era * 146097)
  }

  // ---------------------------------------------------------------------------
  // Eras and leap years
  // ---------------------------------------------------------------------------

  // The adjusted quotient is the floor
  lemma FloorIs(a: int, b: int, q: int, r: int)
    requires b > 0 && 0 <= r < b && a == b * q + r
    ensures Floor(a, b) == q
  {
    if a >= 0 {
      DivUnique(a, b, q, r);
    } else {
      assert -(a - (b - 1)) == b * (-q) + (b - 1 - r) by { assert b * (-q) == -(b * q); }
      DivUnique(-(a - (b - 1)), b, -q, b - 1 - r);
    }
  }

  lemma Divides(a: int, b: int, q: int, r: int)
    requires b > 0 && 0 <= r < b && a == b * q + r
    ensures TMod(a, b) == 0 <==> r == 0
  {
    if a >= 0 {
      DivUnique(a, b, q, r);
    } else if r == 0 {
      assert -a == b * (-q) by { assert b * (-q) == -(b * q); }
      DivUnique(-a, b, -q, 0);
      assert TDiv(a, b) == q;
    } else {
      assert -a == b * (-q - 1) + (b - r) by { assert b * (-q - 1) == -(b * q) - b; }
      DivUnique(-a, b, -q - 1, b - r);
      assert TDiv(a, b) == q + 1;
      assert b * (q + 1) == b * q + b;
    }
  }

  // Year yoe of an era ends with a leap day
  predicate LeapEnd(yoe: int) {
    yoe % 4 == 3 && (yoe % 100 != 99 || yoe == 399)
  }

  lemma LeapEndIs(era: int, yoe: int)
    requires 0 <= yoe < 400
    ensures LeapEnd(yoe) <==> IsLeapYear(400 * era + yoe + 1)
  {
    var n := yoe + 1;
    LeapParts(era, n);
    assert 400 * era + yoe + 1 == 400 * era + n;
    LeapEndNext(yoe, n);
  }

  lemma LeapEndNext(yoe: int, n: int)
    requires 0 <= yoe < 400 && n == yoe + 1
    ensures LeapEnd(yoe) <==> n % 4 == 0 && (n % 100 != 0 || n == 400)
  {
  }

  lemma LeapParts(era: int, n: int)
    requires 1 <= n <= 400
    ensures TMod(400 * era + n, 4) == 0 <==> n % 4 == 0
    ensures TMod(400 * era + n, 100) == 0 <==> n % 100 == 0
    ensures TMod(400 * era + n, 400) == 0 <==> n == 400
  {
    Part(era, n, 4, 100);
    Part(era, n, 100, 4);
    Part(era, n, 400, 1);
  }

  lemma Part(era: int, n: int, b: int, k: int)
    requires 1 <= n <= 400 && b > 0 && b * k == 400
    ensures TMod(400 * era + n, b) == 0 <==> n % b == 0
  {
    assert 400 * era + n == b * (k * era + n / b) + n % b by {
      assert b * (k * era + n / b) == b * k * era + b * (n / b);
    }
    Divides(400 * era + n, b, k * era + n / b, n % b);
  }

  // A year of an era as century, four-year cycle and year of the cycle
  lemma YearStartIs(c: int, q: int, k: int)
    requires 0 <= c <= 3 && 0 <= q <= 24 && 0 <= k <= 3
    ensures YearStart(100 * c + 4 * q + k) == 36524 * c + 1461 * q + 365 * k
    ensures LeapEnd(100 * c + 4 * q + k) <==> k == 3 && (q < 24 || c == 3)
  {
  }

  lemma YearFound(c: int, q: int, k: int, r: int)
    requires 0 <= c <= 3 && 0 <= q <= 24 && 0 <= k <= 3 && 0 <= r <= 365
    requires r == 365 ==> k == 3 && (q < 24 || c == 3)
    ensures YearOfEra(36524 * c + 1461 * q + 365 * k + r) == 100 * c + 4 * q + k
  {
    var doe := 36524 * c + 1461 * q + 365 * k + r;
    if c == 3 && q == 24 && k == 3 && r == 365 {
    } else {
      assert doe / 36524 == c && doe / 146096 == 0;
    }
  }

  lemma YearInverse(yoe: int, doy: int)
    requires 0 <= yoe < 400 && 0 <= doy <= 365 && (doy == 365 ==> LeapEnd(yoe))
    ensures YearOfEra(YearStart(yoe) + doy) == yoe && 0 <= YearStart(yoe) + doy < 146097
  {
    var c, q, k := yoe / 100, yoe % 100 / 4, yoe % 4;
    assert yoe == 100 * c + 4 * q + k;
    YearStartIs(c, q, k);
    YearFound(c, q, k, doy);
  }

  // Every day of an era lies in the year found for it
  lemma DayInYear(doe: int)
    requires 0 <= doe < 146097
    ensures var yoe := YearOfEra(doe);
            0 <= yoe < 400 && 0 <= doe - YearStart(yoe) <= 365 && (doe - YearStart(yoe) == 365 ==> LeapEnd(yoe))
  {
    var c := if doe / 36524 > 3 then 3 else doe / 36524;
    var inCentury := doe - 36524 * c;
    var q := inCentury / 1461;
    var inCycle := inCentury - 1461 * q;
    var k := if inCycle / 365 > 3 then 3 else inCycle / 365;
    YearStartIs(c, q, k);
    YearFound(c, q, k, inCycle - 365 * k);
  }

  lemma YearLength(yoe: int)
    requires 0 <= yoe < 400
    ensures YearStart(yoe) + (if LeapEnd(yoe) then 366 else 365) == if yoe == 399 then 146097 else YearStart(yoe + 1)
  {
  }

  // ---------------------------------------------------------------------------
  // Months
  // ---------------------------------------------------------------------------

  function MonthLength(mp: int): int {
    if mp == 11 then 29 else MonthStart(mp + 1) - MonthStart(mp)
  }

  // The month starts add up the month lengths
  lemma MonthLengthIs(year: int, month: int)
    requires 1 <= month <= 12
    ensures 0 <= MarchMonth(month) <= 11
    ensures DaysInMonth(year, month) == if month == 2 && !IsLeapYear(year) then 28 else MonthLength(MarchMonth(month))
  {
  }

  lemma MonthInverse(mp: int, d: int)
    requires 0 <= mp <= 11 && 1 <= d <= MonthLength(mp)
    ensures MonthOfYear(MonthStart(mp) + d - 1) == mp
    ensures 0 <= MonthStart(mp) + d - 1 <= 365 && (MonthStart(mp) + d - 1 == 365 <==> mp == 11 && d == 29)
  {
  }

  lemma DayInMonth(doy: int)
    requires 0 <= doy <= 365
    ensures var mp := MonthOfYear(doy);
            && 0 <= mp <= 11 && 1 <= doy - MonthStart(mp) + 1 <= MonthLength(mp)
            && (mp == 11 && doy - MonthStart(mp) + 1 == 29 <==> doy == 365)
  {
  }

  // ---------------------------------------------------------------------------
  // Both ways
  // ---------------------------------------------------------------------------

  lemma DaysAre(t: Date, era: int, yoe: int)
    requires 0 <= yoe < 400 && MarchYear(t) == 400 * era + yoe
    ensures DaysFromCivil(t) == Compose(era, yoe, MarchMonth(t.month), t.day)
  {
    FloorIs(MarchYear(t), 400, era, yoe);
  }

  // A valid date in terms of era, year and month from March
  lemma Parts(t: Date) returns (era: int, yoe: int)
    requires Valid(t)
    ensures 0 <= yoe < 400 && MarchYear(t) == 400 * era + yoe
    ensures 0 <= MarchMonth(t.month) <= 11 && 1 <= t.day <= MonthLength(MarchMonth(t.month))
    ensures t.month == 2 && t.day == 29 ==> LeapEnd(yoe)
    ensures FromMarch(MarchYear(t), MarchMonth(t.month), t.day) == t
  {
    era, yoe := MarchYear(t) / 400, MarchYear(t) % 400;
    MonthLengthIs(t.year, t.month);
    LeapEndIs(era, yoe);
  }

  lemma CivilIs(z: int, era: int, doe: int)
    requires 0 <= doe < 146097 && z + 719468 == 146097 * era + doe
    ensures CivilFromDays(z) == FromDayOfEra(era, doe)
  {
    FloorIs(z + 719468, 146097, era, doe);
    assert z + 719468 - Floor(z + 719468, 146097) * 146097 == doe;
  }

  lemma DayOfEraIs(era: int, yoe: int, mp: int, doe: int, doy: int)
    requires YearOfEra(doe) == yoe && doe - YearStart(yoe) == doy && MonthOfYear(doy) == mp
    ensures FromDayOfEra(era, doe) == FromMarch(yoe + era * 400, mp, doy - MonthStart(mp) + 1)
  {
  }

  lemma CivilInverse(t: Date)
    requires Valid(t)
    ensures CivilFromDays(DaysFromCivil(t)) == t
  {
    var z := DaysFromCivil(t);
    var era, doe := DayOfEra(t, z);
    CivilIs(z, era, doe);
  }

  lemma DayOfEra(t: Date, z: int) returns (era: int, doe: int)
    requires Valid(t) && z == DaysFromCivil(t)
    ensures 0 <= doe < 146097 && z + 719468 == 146097 * era + doe && FromDayOfEra(era, doe) == t
  {
    var yoe;
    era, yoe := Parts(t);
    DaysAre(t, era, yoe);
    doe := Within(t, yoe, MarchMonth(t.month));
    DayOfEraIs(era, yoe, MarchMonth(t.month), doe, MonthStart(MarchMonth(t.month)) + t.day - 1);
  }

  lemma Within(t: Date, yoe: int, mp: int) returns (doe: int)
    requires 0 <= yoe < 400 && 0 <= mp <= 11 && 1 <= t.day <= MonthLength(mp)
    requires (mp == 11 && t.day == 29 ==> LeapEnd(yoe))
    ensures 0 <= doe < 146097 && doe == YearStart(yoe) + (MonthStart(mp) + t.day - 1)
    ensures YearOfEra(doe) == yoe && MonthOfYear(MonthStart(mp) + t.day - 1) == mp
  {
    MonthInverse(mp, t.day);
    YearInverse(yoe, MonthStart(mp) + t.day - 1);
    doe := YearStart(yoe) + (MonthStart(mp) + t.day - 1);
  }

  lemma DaysInverse(z: int)
    ensures Valid(CivilFromDays(z)) && DaysFromCivil(CivilFromDays(z)) == z
  {
    var era, doe := (z + 719468) / 146097, (z + 719468) % 146097;
    CivilIs(z, era, doe);
    EraInverse(z, era, doe, FromDayOfEra(era, doe));
  }

  lemma EraInverse(z: int, era: int, doe: int, t: Date)
    requires 0 <= doe < 146097 && z + 719468 == 146097 * era + doe && t == FromDayOfEra(era, doe)
    ensures Valid(t) && DaysFromCivil(t) == z
  {
    var yoe, mp, d := Located(doe);
    DayOfEraIs(era, yoe, mp, doe, doe - YearStart(yoe));
    FromMarchValid(era, yoe, mp, d);
    BackTo(z, t, era, yoe, mp, d);
  }

  lemma Located(doe: int) returns (yoe: int, mp: int, d: int)
    requires 0 <= doe < 146097
    ensures yoe == YearOfEra(doe) && mp == MonthOfYear(doe - YearStart(yoe))
    ensures d == doe - YearStart(yoe) - MonthStart(mp) + 1
    ensures 0 <= yoe < 400 && 0 <= mp <= 11 && 1 <= d <= MonthLength(mp) && (mp == 11 && d == 29 ==> LeapEnd(yoe))
  {
    DayInYear(doe);
    yoe := YearOfEra(doe);
    DayInMonth(doe - YearStart(yoe));
    mp := MonthOfYear(doe - YearStart(yoe));
    d := doe - YearStart(yoe) - MonthStart(mp) + 1;
  }

  lemma BackTo(z: int, t: Date, era: int, yoe: int, mp: int, d: int)
    requires 0 <= yoe < 400 && MarchYear(t) == 400 * era + yoe && MarchMonth(t.month) == mp && t.day == d
    requires z + 719468 == 146097 * era + (YearStart(yoe) + (MonthStart(mp) + d - 1))
    ensures DaysFromCivil(t) == z
  {
    DaysAre(t, era, yoe);
  }

  lemma FromMarchValid(era: int, yoe: int, mp: int, d: int)
    requires 0 <= yoe < 400 && 0 <= mp <= 11 && 1 <= d <= MonthLength(mp) && (mp == 11 && d == 29 ==> LeapEnd(yoe))
    ensures var t := FromMarch(400 * era + yoe, mp, d);
            Valid(t) && MarchYear(t) == 400 * era + yoe && MarchMonth(t.month) == mp && t.day == d
  {
    var t := FromMarch(400 * era + yoe, mp, d);
    LeapEndIs(era, yoe);
    MonthLengthIs(t.year, t.month);
  }

  // Consecutive days have consecutive numbers
  lemma NextDayIsNext(t: Date)
    requires Valid(t)
    ensures Valid(NextDay(t)) && DaysFromCivil(NextDay(t)) == DaysFromCivil(t) + 1
  {
    if t.day < DaysInMonth(t.year, t.month) {
      var era, yoe := Parts(t);
      Step(t, NextDay(t), era, yoe);
    } else if t.month == 2 {
      AfterFebruary(t);
    } else {
      AfterMonth(t);
    }
  }

  lemma AfterMonth(t: Date)
    requires Valid(t) && t.day == DaysInMonth(t.year, t.month) && t.month != 2
    ensures DaysFromCivil(NextDay(t)) == DaysFromCivil(t) + 1
  {
    var era, yoe := Parts(t);
    MonthLengthIs(t.year, t.month);
    Step(t, NextDay(t), era, yoe);
  }

  lemma AfterFebruary(t: Date)
    requires Valid(t) && t.day == DaysInMonth(t.year, t.month) && t.month == 2
    ensures DaysFromCivil(NextDay(t)) == DaysFromCivil(t) + 1
  {
    var era, yoe := Parts(t);
    MonthLengthIs(t.year, t.month);
    LeapEndIs(era, yoe);
    StepYear(t, NextDay(t), era, yoe);
  }

  // Within a March-based year
  lemma Step(t: Date, n: Date, era: int, yoe: int)
    requires 0 <= yoe < 400 && MarchYear(t) == MarchYear(n) == 400 * era + yoe
    requires MonthStart(MarchMonth(n.month)) + n.day == MonthStart(MarchMonth(t.month)) + t.day + 1
    ensures DaysFromCivil(n) == DaysFromCivil(t) + 1
  {
    DaysAre(t, era, yoe);
    DaysAre(n, era, yoe);
  }

  // From the last of February to the first of March
  lemma StepYear(t: Date, n: Date, era: int, yoe: int)
    requires 0 <= yoe < 400 && MarchYear(t) == 400 * era + yoe && MarchYear(n) == 400 * era + yoe + 1
    requires t.month == 2 && n.month == 3 && n.day == 1 && t.day == if LeapEnd(yoe) then 29 else 28
    ensures DaysFromCivil(n) == DaysFromCivil(t) + 1
  {
    YearLength(yoe);
    DaysAre(t, era, yoe);
    if yoe == 399 { DaysAre(n, era + 1, 0); } else { DaysAre(n, era, yoe + 1); }
  }

  lemma EpochIsZero()
    ensures DaysFromCivil(Date(1970, 1, 1)) == 0
  {
    DaysAre(Date(1970, 1, 1), 4, 369);
  }
}
