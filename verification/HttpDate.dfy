/** The fixed-length HTTP date, section 5.6.7 of RFC 9110, and the cache in front of it. */
module HttpDate {
  import opened Wrappers
  import opened Calendar
  import opened Texts

  const DATE_LENGTH := 29
  const DAY_SECONDS := 86400

  /** The first second of the year 10000, past which four digits are not enough. */
  const LIMIT := 253402300800

  function DayName(weekday: nat): (name: string)
    requires weekday < 7
    ensures |name| == 3
  {
    ["Sun", "Mon", "Tue", "Wed", "Thu", "Fri", "Sat"][weekday]
  }

  function MonthName(month: int): (name: string)
    requires 1 <= month <= 12
    ensures |name| == 3
  {
    ["Jan", "Feb", "Mar", "Apr", "May", "Jun", "Jul", "Aug", "Sep", "Oct", "Nov", "Dec"][month - 1]
  }

  // --- writing

  function LastDigit(value: nat): char {
    Digit(value % 10)
  }

  /** The last two decimal digits. */
  function TwoDigits(value: nat): (digits: string)
    ensures |digits| == 2
  {
    [LastDigit(value / 10), LastDigit(value)]
  }

  function Clamped(year: int): nat {
    if year < 0 then 0 else if year > 9999 then 9999 else year
  }

  function DateText(weekday: nat, date: Date): (text: string)
    requires weekday < 7 && IsDate(date)
    ensures |text| == 16
  {
    var year := Clamped(date.year);
    DayName(weekday) + ", " + TwoDigits(date.day) + " " + MonthName(date.month) + " "
    + TwoDigits(year / 100) + TwoDigits(year)
  }

  function TimeText(seconds: nat): (text: string)
    ensures |text| == 13
  {
    " " + TwoDigits(seconds / 3600) + ":" + TwoDigits(seconds % 3600 / 60) + ":" + TwoDigits(seconds % 60) + " GMT"
  }

  /** The HTTP date of a second since the epoch. */
  function Format(unixSeconds: nat): (text: string)
    ensures |text| == DATE_LENGTH
  {
    var days := unixSeconds / DAY_SECONDS;
    CivilIsDate(days);
    DateText((days + 4) % 7, CivilFromDays(days)) + TimeText(unixSeconds % DAY_SECONDS)
  }

  method PutTwoDigits(value: nat, out: array<char>, at: nat)
    requires at + 2 <= out.Length
    modifies out
    ensures out[..at + 2] == old(out[..at]) + TwoDigits(value)
  {
    out[at] := LastDigit(value / 10);
    out[at + 1] := LastDigit(value);
  }

  method Put(text: string, out: array<char>, at: nat)
    requires at + |text| <= out.Length
    modifies out
    ensures out[..at + |text|] == old(out[..at]) + text
  {
    forall i | 0 <= i < |text| {
      out[at + i] := text[i];
    }
  }

  /** The first sixteen octets: the weekday and the date. */
  method WriteDate(weekday: nat, date: Date, out: array<char>)
    requires weekday < 7 && IsDate(date) && out.Length == DATE_LENGTH
    modifies out
    ensures out[..16] == DateText(weekday, date)
  {
    hide IsDate, DayName, MonthName, TwoDigits;
    IsDateParts(date);
    var year := Clamped(date.year);
    Put(DayName(weekday), out, 0);
    Put(", ", out, 3);
    PutTwoDigits(date.day, out, 5);
    Put(" ", out, 7);
    Put(MonthName(date.month), out, 8);
    Put(" ", out, 11);
    PutTwoDigits(year / 100, out, 12);
    PutTwoDigits(year, out, 14);
  }

  lemma Regroup(a: string, b: string, c: string)
    ensures (a + b) + c == a + (b + c)
  {
  }

  /** The thirteen octets left: the time of day. */
  method WriteTime(seconds: nat, out: array<char>)
    requires out.Length == DATE_LENGTH
    modifies out
    ensures out[..] == old(out[..16]) + TimeText(seconds)
  {
    hide TwoDigits;
    ghost var front := out[..16];
    var h, m, s := seconds / 3600, seconds % 3600 / 60, seconds % 60;
    Put(" ", out, 16);
    PutTwoDigits(h, out, 17);
    Regroup(front, " ", TwoDigits(h));
    ghost var text := " " + TwoDigits(h);
    Put(":", out, 19);
    Regroup(front, text, ":");
    PutTwoDigits(m, out, 20);
    Regroup(front, text + ":", TwoDigits(m));
    text := text + ":" + TwoDigits(m);
    Put(":", out, 22);
    Regroup(front, text, ":");
    PutTwoDigits(s, out, 23);
    Regroup(front, text + ":", TwoDigits(s));
    text := text + ":" + TwoDigits(s);
    Put(" GMT", out, 25);
    Regroup(front, text, " GMT");
    assert out[..29] == out[..];
  }

  /** Fills the array with the HTTP date. */
  method Write(unixSeconds: nat, out: array<char>)
    requires out.Length == DATE_LENGTH
    modifies out
    ensures out[..] == Format(unixSeconds)
  {
    hide CivilFromDays, IsDate, DateText, TimeText;
    var days := unixSeconds / DAY_SECONDS;
    CivilIsDate(days);
    WriteDate((days + 4) % 7, CivilFromDays(days), out);
    WriteTime(unixSeconds % DAY_SECONDS, out);
  }

  lemma IsDateParts(date: Date)
    requires IsDate(date)
    ensures 1 <= date.month <= 12 && 1 <= date.day <= 31
  {
  }

  // --- reading back

  function DigitValue(c: char): nat {
    if '0' <= c <= '9' then c as nat - 48 else 0
  }

  function Pair(text: string, at: nat): nat
    requires at + 2 <= |text|
  {
    10 * DigitValue(text[at]) + DigitValue(text[at + 1])
  }

  function MonthNumber(name: string): int {
    if name == "Jan" then 1 else if name == "Feb" then 2 else if name == "Mar" then 3
    else if name == "Apr" then 4 else if name == "May" then 5 else if name == "Jun" then 6
    else if name == "Jul" then 7 else if name == "Aug" then 8 else if name == "Sep" then 9
    else if name == "Oct" then 10 else if name == "Nov" then 11 else 12
  }

  /** The second an HTTP date names, read field by field and counted on the calendar. */
  function Read(text: string): int
    requires |text| == DATE_LENGTH
  {
    var date := Date(100 * Pair(text, 12) + Pair(text, 14), MonthNumber(text[8..11]), Pair(text, 5));
    DaysFromCivil(date) * DAY_SECONDS + 3600 * Pair(text, 17) + 60 * Pair(text, 20) + Pair(text, 23)
  }

  lemma TwoDigitsRead(value: nat)
    requires value < 100
    ensures Pair(TwoDigits(value), 0) == value
  {
  }

  lemma Hundreds(value: nat)
    ensures value % 100 % 10 == value % 10 && value % 100 / 10 == value / 10 % 10
  {
    var hundreds, rest := value / 100, value % 100;
    assert value == 10 * (10 * hundreds + rest / 10) + rest % 10;
    assert value / 10 == 10 * hundreds + rest / 10;
  }

  lemma LastTwoDigits(value: nat)
    ensures TwoDigits(value) == TwoDigits(value % 100)
  {
    Hundreds(value);
  }

  lemma MonthNameRead(month: int)
    requires 1 <= month <= 12
    ensures MonthNumber(MonthName(month)) == month
  {
  }

  lemma PairAt(text: string, at: nat, digits: string)
    requires at + 2 <= |text| && |digits| == 2 && text[at..at + 2] == digits
    ensures Pair(text, at) == Pair(digits, 0)
  {
    assert text[at] == text[at..at + 2][0] && text[at + 1] == text[at..at + 2][1];
  }

  lemma DateTextRead(weekday: nat, date: Date, rest: string)
    requires weekday < 7 && IsDate(date)
    ensures var text := DateText(weekday, date) + rest;
            && 100 * Pair(text, 12) + Pair(text, 14) == Clamped(date.year)
            && MonthNumber(text[8..11]) == date.month
            && Pair(text, 5) == date.day
            && text[..3] == DayName(weekday)
  {
    hide TwoDigits, MonthName, DayName, IsDate, Pair, MonthNumber;
    IsDateParts(date);
    var text, year := DateText(weekday, date) + rest, Clamped(date.year);
    assert text[..3] == DayName(weekday);
    assert text[5..7] == TwoDigits(date.day);
    assert text[8..11] == MonthName(date.month);
    assert text[12..14] == TwoDigits(year / 100);
    assert text[14..16] == TwoDigits(year);
    PairAt(text, 5, TwoDigits(date.day));
    PairAt(text, 12, TwoDigits(year / 100));
    PairAt(text, 14, TwoDigits(year));
    MonthNameRead(date.month);
    TwoDigitsRead(date.day);
    TwoDigitsRead(year / 100);
    LastTwoDigits(year);
    TwoDigitsRead(year % 100);
  }

  lemma TimeTextRead(front: string, seconds: nat)
    requires |front| == 16 && seconds < DAY_SECONDS
    ensures var text := front + TimeText(seconds);
            3600 * Pair(text, 17) + 60 * Pair(text, 20) + Pair(text, 23) == seconds
  {
    hide TwoDigits, Pair;
    var text := front + TimeText(seconds);
    var h, m, s := seconds / 3600, seconds % 3600 / 60, seconds % 60;
    assert text[17..19] == TwoDigits(h) && text[20..22] == TwoDigits(m) && text[23..25] == TwoDigits(s);
    PairAt(text, 17, TwoDigits(h));
    PairAt(text, 20, TwoDigits(m));
    PairAt(text, 23, TwoDigits(s));
    TwoDigitsRead(h);
    TwoDigitsRead(m);
    TwoDigitsRead(s);
    assert seconds % 3600 % 60 == s;
  }

  lemma LimitIsYear10000()
    ensures DaysFromCivil(Date(10000, 1, 1)) * DAY_SECONDS == LIMIT
    ensures IsDate(Date(10000, 1, 1)) && IsDate(EPOCH) && DaysFromCivil(EPOCH) == 0
  {
  }

  lemma YearsBeforeLimit(days: nat)
    ensures CivilFromDays(days).year >= 1970
    ensures CivilFromDays(days).year <= 9999 <==> days * DAY_SECONDS < LIMIT
  {
    hide CivilFromDays, IsDate, DaysFromCivil;
    LimitIsYear10000();
    CivilIsDate(days);
    var date, limit := CivilFromDays(days), Date(10000, 1, 1);
    assert 1 <= date.month && 1 <= date.day by { IsDateParts(date); }
    if Before(date, EPOCH) {
      CountingKeepsOrder(date, EPOCH);
    }
    if Before(date, limit) {
      CountingKeepsOrder(date, limit);
    } else if Before(limit, date) {
      CountingKeepsOrder(limit, date);
    }
  }

  /** A date in a year that was clamped reads as a second before the limit. */
  lemma ClampedReadsEarly(date: Date, seconds: nat)
    requires IsDate(date) && date.year > 9999 && seconds < DAY_SECONDS
    ensures DaysFromCivil(date.(year := 9999)) * DAY_SECONDS + seconds < LIMIT
  {
    hide DaysFromCivil;
    LimitIsYear10000();
    var limit := Date(10000, 1, 1);
    assert DaysFromCivil(limit) == 2932897;
    ClampedDay(date);
  }

  lemma ClampedDay(date: Date)
    requires IsDate(date) && date.year > 9999
    ensures DaysFromCivil(date.(year := 9999)) < 2932897
  {
    var mp := MarchMonth(date);
    MonthsGrow(mp, 11);
    if date.month <= 2 {
      assert YearStart(9998) == 3651694;
      assert MonthStart(11) == 337;
    } else {
      assert YearStart(9999) == 3652059;
      MonthsGrow(mp, 9);
      assert MonthStart(9) == 275;
    }
  }

  /**
   * An HTTP date reads back as the second it was written for exactly when that
   * second is before the year 10000.
   */
  lemma FormatReadsBackIff(unixSeconds: nat)
    ensures Read(Format(unixSeconds)) == unixSeconds <==> unixSeconds < LIMIT
  {
    hide CivilFromDays, IsDate, DaysFromCivil, DateText, TimeText, Pair, MonthNumber;
    var days, seconds := unixSeconds / DAY_SECONDS, unixSeconds % DAY_SECONDS;
    assert unixSeconds == days * DAY_SECONDS + seconds;
    CivilIsDate(days);
    var date := CivilFromDays(days);
    DateTextRead((days + 4) % 7, date, TimeText(seconds));
    TimeTextRead(DateText((days + 4) % 7, date), seconds);
    YearsBeforeLimit(days);
    assert days * DAY_SECONDS < LIMIT <==> unixSeconds < LIMIT;
    if date.year <= 9999 {
      assert date == Date(date.year, date.month, date.day);
    } else {
      ClampedReadsEarly(date, seconds);
    }
  }

  /** Below the year 10000, different seconds have different dates. */
  lemma FormatIsInjective(a: nat, b: nat)
    requires a < LIMIT && b < LIMIT && Format(a) == Format(b)
    ensures a == b
  {
    FormatReadsBackIff(a);
    FormatReadsBackIff(b);
  }

  lemma DayNameIs(days: nat)
    ensures DayName((days + 4) % 7) == ["Thu", "Fri", "Sat", "Sun", "Mon", "Tue", "Wed"][days % 7]
  {
    assert (days + 4) % 7 == (days % 7 + 4) % 7;
  }

  lemma DateTextIs(weekday: nat, date: Date, rest: string)
    requires weekday < 7 && IsDate(date) && |rest| == 13
    ensures var text := DateText(weekday, date) + rest;
            && text[..3] == DayName(weekday) && text[3..5] == ", " && text[7] == text[11] == ' '
            && text[8..11] == MonthName(date.month) && text[16..] == rest
  {
    hide TwoDigits, MonthName, DayName, IsDate;
    IsDateParts(date);
  }

  lemma TimeTextIs(seconds: nat)
    ensures var text := TimeText(seconds);
            text[0] == ' ' && text[3] == text[6] == ':' && text[9..] == " GMT"
  {
    hide TwoDigits;
    var h, m, s := TwoDigits(seconds / 3600), TwoDigits(seconds % 3600 / 60), TwoDigits(seconds % 60);
    var text := " " + h + ":" + m + ":" + s + " GMT";
    TimeParts(h, m, s);
    assert text[0] == ' ' && text[3] == text[6] == ':' && text[9..] == " GMT";
    assert TimeText(seconds) == text;
  }

  lemma TimeParts(h: string, m: string, s: string)
    requires |h| == |m| == |s| == 2
    ensures var text := " " + h + ":" + m + ":" + s + " GMT";
            text[0] == ' ' && text[3] == text[6] == ':' && text[9..] == " GMT"
  {
  }

  /**
   * The words of the date of any second: the weekday, counted in sevens from
   * the Thursday the epoch was, the month of its date, and the marks between
   * the numbers, which are where reading back looks for them.
   */
  lemma FormatNamesTheDay(unixSeconds: nat)
    ensures var text, days := Format(unixSeconds), unixSeconds / DAY_SECONDS;
            var month := CivilFromDays(days).month;
            && text[..3] == ["Thu", "Fri", "Sat", "Sun", "Mon", "Tue", "Wed"][days % 7]
            && 1 <= month <= 12
            && text[8..11]
               == ["Jan", "Feb", "Mar", "Apr", "May", "Jun", "Jul", "Aug", "Sep", "Oct", "Nov", "Dec"][month - 1]
            && text[3..5] == ", " && text[7] == text[11] == text[16] == ' '
            && text[19] == text[22] == ':' && text[25..] == " GMT"
  {
    hide CivilFromDays, IsDate, DateText, TimeText, DayName;
    var days, seconds := unixSeconds / DAY_SECONDS, unixSeconds % DAY_SECONDS;
    CivilIsDate(days);
    var date := CivilFromDays(days);
    IsDateParts(date);
    DayNameIs(days);
    DateTextIs((days + 4) % 7, date, TimeText(seconds));
    TimeTextIs(seconds);
    TimeStands(DateText((days + 4) % 7, date), TimeText(seconds));
  }

  lemma TimeStands(front: string, rest: string)
    requires |front| == 16 && |rest| == 13
    ensures var text := front + rest;
            && text[16] == rest[0] && text[19] == rest[3] && text[22] == rest[6] && text[25..] == rest[9..]
  {
  }

  /** A year past 9999 is written as 9999. */
  lemma LateYearsAreClamped(unixSeconds: nat)
    requires unixSeconds >= LIMIT
    ensures Format(unixSeconds)[12..16] == "9999"
  {
    hide CivilFromDays, IsDate, TimeText, DateText;
    var days := unixSeconds / DAY_SECONDS;
    CivilIsDate(days);
    YearsBeforeLimit(days);
    assert LIMIT % DAY_SECONDS == 0;
    assert days * DAY_SECONDS >= LIMIT;
    ClampedText((days + 4) % 7, CivilFromDays(days));
    assert Format(unixSeconds)[12..16] == DateText((days + 4) % 7, CivilFromDays(days))[12..16];
  }

  lemma ClampedText(weekday: nat, date: Date)
    requires weekday < 7 && IsDate(date) && date.year > 9999
    ensures DateText(weekday, date)[12..16] == "9999"
  {
    hide IsDate, DayName, MonthName, TwoDigits;
    IsDateParts(date);
    NineNine();
    assert DateText(weekday, date)[12..16] == "99" + "99";
  }

  lemma NineNine()
    ensures TwoDigits(99) == "99" && TwoDigits(9999) == "99"
  {
  }

  // --- the cache

  /** The last second formatted on a thread, and what it was formatted as. */
  class DateCache {
    var cached: nat
    var octets: string

    /** Still blank, or holding the date of the second it remembers. */
    ghost predicate Valid()
      reads this
    {
      |octets| == DATE_LENGTH && (octets[0] == '\0' || octets == Format(cached))
    }

    constructor ()
      ensures Valid()
    {
      cached := 0;
      octets := seq(DATE_LENGTH, _ => '\0');
    }

    /** The date of the second the clock reads, formatted again only when it has turned. */
    method Now(seconds: nat) returns (text: string)
      requires Valid()
      modifies this
      ensures Valid() && text == Format(seconds)
    {
      hide Format;
      if cached != seconds || octets[0] == '\0' {
        var out := new char[DATE_LENGTH](
          i requires 0 <= i < DATE_LENGTH && |octets| == DATE_LENGTH reads this => octets[i]);
        Write(seconds, out);
        cached, octets := seconds, out[..];
      }
      text := octets;
    }
  }
}
