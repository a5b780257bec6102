/** Days since the Unix epoch as dates of the proleptic Gregorian calendar. */
module Calendar {

  datatype Date = Date(year: int, month: int, day: int)

  // --- the calendar itself

  predicate IsLeap(year: int) {
    year % 4 == 0 && (year % 100 != 0 || year % 400 == 0)
  }

  function DaysIn(year: int, month: int): int {
    if month == 2 then (if IsLeap(year) then 29 else 28)
    else if month in {4, 6, 9, 11} then 30
    else 31
  }

  predicate IsDate(date: Date) {
    1 <= date.month <= 12 && 1 <= date.day <= DaysIn(date.year, date.month)
  }

  /** The day after. */
  function Tomorrow(date: Date): Date {
    if date.day < DaysIn(date.year, date.month) then date.(day := date.day + 1)
    else if date.month < 12 then Date(date.year, date.month + 1, 1)
    else Date(date.year + 1, 1, 1)
  }

  predicate Before(a: Date, b: Date) {
    || a.year < b.year
    || (a.year == b.year && (a.month < b.month || (a.month == b.month && a.day < b.day)))
  }

  const EPOCH := Date(1970, 1, 1)

  // --- the closed form

  /** Division that truncates towards zero, as the machine divides. */
  function Quotient(a: int, b: int): int
    requires b > 0
  {
    if a >= 0 then a / b else -(-a / b)
  }

  /** The date a count of days since the epoch falls on. */
  function CivilFromDays(days: int): Date {
    var z := days + 719468;
    var era := Quotient(if z >= 0 then z else z - 146096, 146097);
    var doe := z - era * 146097;
    var yoe := Quotient(doe - Quotient(doe, 1460) + Quotient(doe, 36524) - Quotient(doe, 146096), 365);
    var year := yoe + era * 400;
    var doy := doe - (365 * yoe + Quotient(yoe, 4) - Quotient(yoe, 100));
    var mp := Quotient(5 * doy + 2, 153);
    var day := doy - Quotient(153 * mp + 2, 5) + 1;
    var month := if mp < 10 then mp + 3 else mp - 9;
    Date(if month <= 2 then year + 1 else year, month, day)
  }

  // --- an era is 400 years counted from the first of March

  /** The first day of a year of the era, counted within the era. */
  function YearStart(yoe: int): int {
    365 * yoe + yoe / 4 - yoe / 100 + yoe / 400
  }

  /** The first day of a month of a year begun in March, counted within the year. */
  function MonthStart(mp: int): int {
    (153 * mp + 2) / 5
  }

  function YearOf(doe: int): int {
    (doe - doe / 1460 + doe / 36524 - doe / 146096) / 365
  }

  function MonthOf(doy: int): int {
    (5 * doy + 2) / 153
  }

  /** A day of the era lies `r` days into year `100 c + 4 k + j` of it. */
  lemma SplitEra(doe: int) returns (c: int, k: int, j: int, r: int)
    requires 0 <= doe < 146097
    ensures doe == 36524 * c + 1461 * k + 365 * j + r
    ensures 0 <= c <= 3 && 0 <= k <= 24 && 0 <= j <= 3 && 0 <= r <= 365
    ensures r == 365 ==> j == 3 && (k < 24 || c == 3)
  {
    c := if doe == 146096 then 3 else doe / 36524;
    var inCentury := doe - 36524 * c;
    k := inCentury / 1461;
    var inFour := inCentury - 1461 * k;
    j := if inFour == 1460 then 3 else inFour / 365;
    r := inFour - 365 * j;
  }

  predicate InSplit(c: int, k: int, j: int, r: int) {
    && 0 <= c <= 3 && 0 <= k <= 24 && 0 <= j <= 3 && 0 <= r <= 365
    && (r == 365 ==> j == 3 && (k < 24 || c == 3))
  }

  lemma SmallQuotients(c: int, k: int, j: int, r: int)
    requires InSplit(c, k, j, r)
    ensures var doe := 36524 * c + 1461 * k + 365 * j + r;
            && doe / 1460 == 25 * c + k + (if 24 * c + k + 365 * j + r >= 1460 then 1 else 0)
            && doe / 36524 - doe / 146096 == c
  {
    var doe := 36524 * c + 1461 * k + 365 * j + r;
    assert doe == 1460 * (25 * c + k) + (24 * c + k + 365 * j + r);
    assert doe <= 146096;
  }

  lemma YearOfSplit(c: int, k: int, j: int, r: int)
    requires InSplit(c, k, j, r)
    ensures YearOf(36524 * c + 1461 * k + 365 * j + r) == 100 * c + 4 * k + j
  {
    var doe := 36524 * c + 1461 * k + 365 * j + r;
    var late := if 24 * c + k + 365 * j + r >= 1460 then 1 else 0;
    SmallQuotients(c, k, j, r);
    var y := 100 * c + 4 * k + j;
    var n := 365 * y + r - late;
    assert doe - doe / 1460 + doe / 36524 - doe / 146096 == n;
    assert 0 <= r - late < 365;
    assert n / 365 == y;
  }

  lemma YearStartOfSplit(c: int, k: int, j: int)
    requires 0 <= c <= 3 && 0 <= k <= 24 && 0 <= j <= 3
    ensures YearStart(100 * c + 4 * k + j) == 36524 * c + 1461 * k + 365 * j
  {
    var y := 100 * c + 4 * k + j;
    assert y / 4 == 25 * c + k && y / 100 == c && y / 400 == 0;
  }

  lemma LeapOfSplit(c: int, k: int)
    requires 0 <= c <= 3 && 0 <= k <= 24 && (k < 24 || c == 3)
    ensures IsLeap(100 * c + 4 * k + 4)
  {
    var y := 100 * c + 4 * k + 4;
    assert y == 4 * (25 * c + k + 1);
    if k < 24 {
      assert y / 100 == c && y % 100 == 4 * k + 4;
    }
  }

  /** The closed form finds the year of the era a day lies in. */
  lemma YearFound(doe: int)
    requires 0 <= doe < 146097
    ensures 0 <= YearOf(doe) < 400
    ensures YearStart(YearOf(doe)) <= doe < YearStart(YearOf(doe) + 1)
  {
    hide YearOf, YearStart, IsLeap;
    var c, k, j, r := SplitEra(doe);
    YearOfSplit(c, k, j, r);
    YearStartOfSplit(c, k, j);
    YearLength(100 * c + 4 * k + j);
    if r == 365 {
      LeapOfSplit(c, k);
    }
  }

  /** A year begun in March has the leap day of the calendar year it ends in. */
  lemma YearLength(y: int)
    ensures YearStart(y + 1) - YearStart(y) == (if IsLeap(y + 1) then 366 else 365)
  {
    Steps(y, 4);
    Steps(y, 100);
    Steps(y, 400);
    assert (y + 1) % 100 == 0 ==> (y + 1) % 4 == 0;
    assert (y + 1) % 400 == 0 ==> (y + 1) % 100 == 0;
  }

  lemma Steps(y: int, n: int)
    requires n == 4 || n == 100 || n == 400
    ensures (y + 1) / n - y / n == (if (y + 1) % n == 0 then 1 else 0)
  {
  }

  /** The closed form finds the month of the year a day lies in. */
  lemma MonthFound(doy: int)
    requires 0 <= doy <= 365
    ensures 0 <= MonthOf(doy) <= 11
    ensures MonthStart(MonthOf(doy)) <= doy < MonthStart(MonthOf(doy) + 1)
  {
    var mp := MonthOf(doy);
    assert 153 * mp <= 5 * doy + 2 < 153 * mp + 153;
  }

  lemma MonthLength(mp: int, year: int)
    requires 0 <= mp <= 10
    ensures var month := if mp < 10 then mp + 3 else mp - 9;
            MonthStart(mp + 1) - MonthStart(mp) == DaysIn(year, month)
    ensures MonthStart(11) == 337 && MonthStart(0) == 0
  {
  }

  // --- where a date lies

  /** The era, the year of it and the month of the year a date lies in, all begun in March. */
  function MarchYear(date: Date): int {
    if date.month <= 2 then date.year - 1 else date.year
  }

  function MarchMonth(date: Date): int {
    if date.month <= 2 then date.month + 9 else date.month - 3
  }

  /** The count of days since the epoch a date is. */
  function DaysFromCivil(date: Date): int {
    YearStart(MarchYear(date)) + MonthStart(MarchMonth(date)) + date.day - 1 - 719468
  }

  lemma EraShift(era: int, yoe: int)
    ensures YearStart(yoe + era * 400) == YearStart(yoe) + era * 146097
  {
    assert (yoe + era * 400) / 4 == yoe / 4 + era * 100;
    assert (yoe + era * 400) / 100 == yoe / 100 + era * 4;
    assert (yoe + era * 400) / 400 == yoe / 400 + era;
  }

  lemma EraFound(z: int)
    ensures var era := Quotient(if z >= 0 then z else z - 146096, 146097);
            0 <= z - era * 146097 < 146097
  {
  }

  /** A day of a year begun in March: what it is as a date, and which one. */
  lemma DayOfYear(year: int, doy: int)
    requires 0 <= doy < YearStart(year + 1) - YearStart(year)
    ensures var mp := MonthOf(doy);
            var month := if mp < 10 then mp + 3 else mp - 9;
            var date := Date(if month <= 2 then year + 1 else year, month, doy - MonthStart(mp) + 1);
            && 0 <= mp <= 11 && IsDate(date)
            && MarchYear(date) == year && MarchMonth(date) == mp
  {
    hide YearStart, IsLeap, MonthOf;
    YearLength(year);
    MonthFound(doy);
    var mp := MonthOf(doy);
    MonthLength(if mp <= 10 then mp else 0, if mp < 10 then year else year + 1);
  }

  lemma CivilParts(days: int) returns (era: int, doe: int)
    ensures days + 719468 == era * 146097 + doe && 0 <= doe < 146097
    ensures var yoe := YearOf(doe);
            var doy := doe - YearStart(yoe);
            var mp := MonthOf(doy);
            var month := if mp < 10 then mp + 3 else mp - 9;
            var year := yoe + era * 400;
            CivilFromDays(days) == Date(if month <= 2 then year + 1 else year, month, doy - MonthStart(mp) + 1)
  {
    hide Quotient, YearOf, YearStart, MonthOf, MonthStart;
    var z := days + 719468;
    EraFound(z);
    era := Quotient(if z >= 0 then z else z - 146096, 146097);
    doe := z - era * 146097;
    var yoe := EraYear(doe);
    YearFound(doe);
    var doy := doe - YearStart(yoe);
    EraDay(yoe, doy);
  }

  lemma Floors(a: int, b: int)
    requires a >= 0 && b > 0
    ensures Quotient(a, b) == a / b
  {
  }

  lemma EraYear(doe: int) returns (yoe: int)
    requires 0 <= doe < 146097
    ensures yoe == YearOf(doe) && 0 <= yoe < 400
    ensures yoe == Quotient(doe - Quotient(doe, 1460) + Quotient(doe, 36524) - Quotient(doe, 146096), 365)
    ensures YearStart(yoe) == 365 * yoe + Quotient(yoe, 4) - Quotient(yoe, 100)
  {
    hide Quotient;
    yoe := YearOf(doe);
    Floors(doe, 1460);
    Floors(doe, 36524);
    Floors(doe, 146096);
    assert doe / 1460 <= doe && doe / 146096 <= doe / 36524;
    Floors(doe - doe / 1460 + doe / 36524 - doe / 146096, 365);
    hide YearOf, YearStart;
    YearFound(doe);
    Floors(yoe, 4);
    Floors(yoe, 100);
    YearStartWithin(yoe);
  }

  lemma YearStartWithin(yoe: int)
    requires 0 <= yoe < 400
    ensures YearStart(yoe) == 365 * yoe + yoe / 4 - yoe / 100
  {
  }

  lemma EraDay(yoe: int, doy: int)
    requires doy >= 0
    ensures Quotient(5 * doy + 2, 153) == MonthOf(doy) >= 0
    ensures Quotient(153 * MonthOf(doy) + 2, 5) == MonthStart(MonthOf(doy))
  {
  }

  /** Every count of days gives a real date, and that date is that many days from the epoch. */
  lemma CivilIsDate(days: int)
    ensures IsDate(CivilFromDays(days)) && DaysFromCivil(CivilFromDays(days)) == days
  {
    hide YearOf, YearStart, IsLeap, MonthOf, CivilFromDays, IsDate;
    var era, doe := CivilParts(days);
    YearFound(doe);
    var yoe := YearOf(doe);
    var year := yoe + era * 400;
    EraShift(era, yoe);
    EraShift(era, yoe + 1);
    assert yoe + 1 + era * 400 == year + 1;
    DayOfYear(year, doe - YearStart(yoe));
  }

  lemma TomorrowIsNext(date: Date)
    requires IsDate(date)
    ensures IsDate(Tomorrow(date)) && DaysFromCivil(Tomorrow(date)) == DaysFromCivil(date) + 1
  {
    hide YearStart, IsLeap;
    var mp := MarchMonth(date);
    YearLength(MarchYear(date));
    MonthLength(if mp <= 10 then mp else 0, date.year);
  }

  /** Where a date lies within the year begun in March. */
  lemma WithinYear(date: Date)
    requires IsDate(date)
    ensures var mp := MarchMonth(date);
            && 0 <= mp <= 11
            && MonthStart(mp) + date.day <= YearStart(MarchYear(date) + 1) - YearStart(MarchYear(date))
            && (mp <= 10 ==> MonthStart(mp) + date.day <= MonthStart(mp + 1))
  {
    hide YearStart, IsLeap;
    var mp := MarchMonth(date);
    YearLength(MarchYear(date));
    MonthLength(if mp <= 10 then mp else 0, date.year);
    MonthsGrow(mp, 11);
  }

  lemma MonthsGrow(a: int, b: int)
    requires 0 <= a <= b
    ensures MonthStart(a) <= MonthStart(b)
  {
  }

  lemma {:induction false} YearsGrow(a: int, b: int)
    requires a <= b
    ensures YearStart(a) <= YearStart(b)
    decreases b - a
  {
    if a < b {
      hide YearStart;
      YearsGrow(a, b - 1);
      YearLength(b - 1);
    }
  }

  /** Counting days keeps the order of dates. */
  lemma CountingKeepsOrder(a: Date, b: Date)
    requires IsDate(a) && IsDate(b) && Before(a, b)
    ensures DaysFromCivil(a) < DaysFromCivil(b)
  {
    hide YearStart, MonthStart, DaysIn, IsLeap;
    WithinYear(a);
    WithinYear(b);
    assert MonthStart(0) == 0 by { MonthLength(0, 0); }
    if MarchYear(a) < MarchYear(b) {
      YearsGrow(MarchYear(a) + 1, MarchYear(b));
      MonthsGrow(0, MarchMonth(b));
    } else if MarchMonth(a) < MarchMonth(b) {
      MonthsGrow(MarchMonth(a) + 1, MarchMonth(b));
    }
  }

  /** The closed form and the count are inverses, both ways round. */
  lemma CivilInverts(date: Date)
    requires IsDate(date)
    ensures CivilFromDays(DaysFromCivil(date)) == date
  {
    hide CivilFromDays, DaysFromCivil, IsDate;
    var found := CivilFromDays(DaysFromCivil(date));
    CivilIsDate(DaysFromCivil(date));
    if Before(found, date) {
      CountingKeepsOrder(found, date);
    } else if Before(date, found) {
      CountingKeepsOrder(date, found);
    }
  }

  /** The closed form is the calendar: it starts at the epoch, and each day is the day after the last. */
  lemma CivilIsTheCalendar(days: int)
    ensures CivilFromDays(0) == EPOCH
    ensures CivilFromDays(days + 1) == Tomorrow(CivilFromDays(days))
  {
    hide *;
    CivilIsDate(days);
    TomorrowIsNext(CivilFromDays(days));
    CivilInverts(Tomorrow(CivilFromDays(days)));
    EpochIsZero();
    CivilInverts(EPOCH);
  }

  lemma EpochIsZero()
    ensures IsDate(EPOCH) && DaysFromCivil(EPOCH) == 0
  {
  }

  /** Later days are later dates. */
  lemma CivilKeepsOrder(a: int, b: int)
    requires a < b
    ensures Before(CivilFromDays(a), CivilFromDays(b))
  {
    hide CivilFromDays, DaysFromCivil, IsDate;
    CivilIsDate(a);
    CivilIsDate(b);
    if Before(CivilFromDays(b), CivilFromDays(a)) {
      CountingKeepsOrder(CivilFromDays(b), CivilFromDays(a));
    }
  }
}
