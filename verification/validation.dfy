/** The input checks of the four program stages.

    Stages 1-3 (console) accept a priority after `capitalize()` and a due date
    by a deliberately loose `YYYY-MM-DD` check with no month-length or
    leap-year rule. Stage 4 (GUI) checks due dates with
    `datetime.strptime(s, "%Y-%m-%d")` instead, which needs a real calendar
    date but also accepts unpadded months and days. The two checks are kept
    side by side and neither is made to agree with the other. */
module Validation {
  import opened Maybe
  import opened Text
  import opened Numbers

  /** The three priorities a console stage stores. */
  predicate IsPriority(p: string) {
    p == "High" || p == "Medium" || p == "Low"
  }

  /** The priority prompt of stages 1-3: the answer is capitalized and kept
      only if it is then one of the three priorities. */
  function ValidatePriority(answer: string): (r: Option<string>)
    ensures r.Some? ==> IsPriority(r.value)
    ensures r.Some? <==> Lower(answer) in {"high", "medium", "low"}
    ensures r.Some? ==> Lower(r.value) == Lower(answer)
  {
    var p := Capitalize(answer);
    LowerCapitalize(answer);
    CapitalizeOfLower(answer);
    PriorityWords();
    if IsPriority(p) then Some(p) else None
  }

  /** The three priorities and their lower-case words. */
  lemma PriorityWords()
    ensures Capitalize("high") == "High" && Lower("High") == "high"
    ensures Capitalize("medium") == "Medium" && Lower("Medium") == "medium"
    ensures Capitalize("low") == "Low" && Lower("Low") == "low"
  {
    PriorityWord("high", "High");
    PriorityWord("medium", "Medium");
    PriorityWord("low", "Low");
  }

  lemma PriorityWord(w: string, p: string)
    requires |w| == |p| > 0 && p[0] == UpperChar(w[0]) && p[1..] == w[1..]
    requires forall i :: 0 <= i < |w| ==> 'a' <= w[i] <= 'z'
    ensures Capitalize(w) == p && Lower(p) == w
  {
    CaseChars(w[0]);
  }

  /** The due-date check of stages 1-3: ten characters, `-` at index 4 and at
      index -3, the three slices accepted by `int()`, month in 1..12 and day in
      1..31. */
  function LooseDueDate(s: string): (ok: bool)
    ensures ok ==> |s| == 10 && s[4] == '-' && s[7] == '-'
    ensures IsPaddedShape(s) ==> (ok <==> 1 <= PaddedMonth(s) <= 12 && 1 <= PaddedDay(s) <= 31)
  {
    if IsPaddedShape(s) then
      assert AllDigits(s[0..4]) && AllDigits(s[5..7]) && AllDigits(s[8..10]);
      FourDigits(s[0..4]);
      TwoDigits(s[5..7]);
      TwoDigits(s[8..10]);
      LooseFields(s)
    else LooseFields(s)
  }

  /** The three slices of a ten-character string with its dashes in place,
      read by `int()` and bounded. */
  predicate LooseFields(s: string) {
    && |s| == 10 && s[4] == '-' && s[|s| - 3] == '-'
    && var year, month, day := ParseInt(s[0..4]), ParseInt(s[5..7]), ParseInt(s[8..10]);
       && year.Some? && month.Some? && day.Some?
       && 1 <= month.value <= 12 && 1 <= day.value <= 31
  }

  /** A zero-padded date string: four year digits, two month digits, two day
      digits, joined by `-`. */
  predicate IsPaddedShape(s: string) {
    && |s| == 10 && s[4] == '-' && s[7] == '-'
    && forall i :: 0 <= i < 10 && i != 4 && i != 7 ==> IsDigit(s[i])
  }

  /** The month and day a padded date string spells. */
  function PaddedMonth(s: string): nat
    requires IsPaddedShape(s)
  {
    10 * DigitValue(s[5]) + DigitValue(s[6])
  }

  function PaddedDay(s: string): nat
    requires IsPaddedShape(s)
  {
    10 * DigitValue(s[8]) + DigitValue(s[9])
  }

  /** On padded date strings the loose check is exactly "month 1-12 and day
      1-31": no month length and no leap year enter into it. */
  lemma LooseOnPadded(s: string)
    requires IsPaddedShape(s)
    ensures LooseDueDate(s) <==> 1 <= PaddedMonth(s) <= 12 && 1 <= PaddedDay(s) <= 31
  {
    assert AllDigits(s[0..4]) && AllDigits(s[5..7]) && AllDigits(s[8..10]);
    FourDigits(s[0..4]);
    TwoDigits(s[5..7]);
    TwoDigits(s[8..10]);
  }

  /** A calendar date as `datetime` holds it. */
  datatype Date = Date(year: int, month: int, day: int)

  predicate IsLeapYear(y: int) {
    y % 4 == 0 && (y % 100 != 0 || y % 400 == 0)
  }

  function DaysInMonth(year: int, month: int): int {
    if month == 2 then (if IsLeapYear(year) then 29 else 28)
    else if month == 4 || month == 6 || month == 9 || month == 11 then 30
    else 31
  }

  /** What `datetime(year, month, day)` accepts. */
  predicate IsCalendarDate(d: Date) {
    1 <= d.year <= 9999 && 1 <= d.month <= 12 && 1 <= d.day <= DaysInMonth(d.year, d.month)
  }

  /** The `%m` directive of `strptime`: `1[0-2]|0[1-9]|[1-9]`. */
  function MonthField(t: string): (r: Option<int>)
    ensures r.Some? ==> 1 <= r.value <= 12 && 1 <= |t| <= 2
  {
    if |t| == 1 && '1' <= t[0] <= '9' then Some(DigitValue(t[0]))
    else if |t| == 2 && t[0] == '0' && '1' <= t[1] <= '9' then Some(DigitValue(t[1]))
    else if |t| == 2 && t[0] == '1' && '0' <= t[1] <= '2' then Some(10 + DigitValue(t[1]))
    else None
  }

  /** The `%d` directive of `strptime`: `3[01]|[12]\d|0[1-9]|[1-9]| [1-9]`,
      which must reach the end of the string. */
  function DayField(t: string): (r: Option<int>)
    ensures r.Some? ==> 1 <= r.value <= 31 && 1 <= |t| <= 2
  {
    if |t| == 1 && '1' <= t[0] <= '9' then Some(DigitValue(t[0]))
    else if |t| == 2 && (t[0] == '0' || t[0] == ' ') && '1' <= t[1] <= '9' then Some(DigitValue(t[1]))
    else if |t| == 2 && (t[0] == '1' || t[0] == '2') && IsDigit(t[1]) then Some(10 * DigitValue(t[0]) + DigitValue(t[1]))
    else if |t| == 2 && t[0] == '3' && (t[1] == '0' || t[1] == '1') then Some(30 + DigitValue(t[1]))
    else None
  }

  /** The position of the first `-` in `t`, if any. */
  function FindDash(t: string): (r: Option<nat>)
    ensures r.Some? ==> r.value < |t| && t[r.value] == '-' && forall k :: 0 <= k < r.value ==> t[k] != '-'
    ensures r.None? ==> forall k :: 0 <= k < |t| ==> t[k] != '-'
  {
    if |t| == 0 then None
    else if t[0] == '-' then Some(0)
    else match FindDash(t[1..])
      case None => None
      case Some(j) => Some(j + 1)
  }

  /** `datetime.strptime(s, "%Y-%m-%d")` of stage 4; `None` where it raises
      `ValueError`. The year is exactly four digits; since neither `%m` nor
      `%d` can contain `-`, the month is what lies between the first two
      dashes and the day is everything after the second. */
  function Strptime(s: string): (r: Option<Date>)
    ensures r.Some? ==> IsCalendarDate(r.value)
    ensures r.Some? ==> 8 <= |s| <= 10 && s[4] == '-'
  {
    if |s| < 5 || !AllDigits(s[..4]) || s[4] != '-' then None
    else
      FourDigits(s[..4]);
      DateAfterYear(GroupsValue(s[..4]), s[5..])
  }

  /** The month and day of a `strptime` date, read from what follows the
      year's dash. */
  function DateAfterYear(year: int, rest: string): (r: Option<Date>)
    requires year <= 9999
    ensures r.Some? ==> IsCalendarDate(r.value) && r.value.year == year
    ensures r.Some? ==> 3 <= |rest| <= 5
  {
    match FindDash(rest)
    case None => None
    case Some(j) => MakeDate(year, MonthField(rest[..j]), DayField(rest[j + 1..]))
  }

  /** The range check `datetime(year, month, day)` applies to the parsed fields. */
  function MakeDate(year: int, month: Option<int>, day: Option<int>): (r: Option<Date>)
    requires year <= 9999
    requires month.Some? ==> 1 <= month.value <= 12
    requires day.Some? ==> 1 <= day.value
    ensures r.Some? ==> IsCalendarDate(r.value)
    ensures r.Some? <==> month.Some? && day.Some? && 1 <= year && day.value <= DaysInMonth(year, month.value)
    ensures r.Some? ==> r.value == Date(year, month.value, day.value)
  {
    if month.Some? && day.Some? && 1 <= year && day.value <= DaysInMonth(year, month.value)
    then Some(Date(year, month.value, day.value))
    else None
  }

  /** February 29 of the years 1900, 2000, 2023 and 2024: only the century
      year divisible by 400 and the ordinary fourth year have one. */
  lemma LeapDayCases()
    ensures MakeDate(1900, Some(2), Some(29)).None?
    ensures MakeDate(2000, Some(2), Some(29)).Some?
    ensures MakeDate(2023, Some(2), Some(29)).None?
    ensures MakeDate(2024, Some(2), Some(29)).Some?
  {
  }

  /** The days of the months before `month` of `year`. */
  function DaysBeforeMonth(year: int, month: nat): int
    requires month <= 13
  {
    if month <= 1 then 0 else DaysBeforeMonth(year, month - 1) + DaysInMonth(year, month - 1)
  }

  /** The days of a year, counted month by month. */
  function YearLength(year: int): int {
    DaysBeforeMonth(year, 13)
  }

  lemma YearLengthLeap(year: int)
    ensures YearLength(year) == if IsLeapYear(year) then 366 else 365
  {
    var feb := DaysInMonth(year, 2);
    assert DaysBeforeMonth(year, 2) == 31;
    assert DaysBeforeMonth(year, 3) == 31 + feb;
    assert DaysBeforeMonth(year, 4) == 62 + feb;
    assert DaysBeforeMonth(year, 5) == 92 + feb;
    assert DaysBeforeMonth(year, 6) == 123 + feb;
    assert DaysBeforeMonth(year, 7) == 153 + feb;
    assert DaysBeforeMonth(year, 8) == 184 + feb;
    assert DaysBeforeMonth(year, 9) == 215 + feb;
    assert DaysBeforeMonth(year, 10) == 245 + feb;
    assert DaysBeforeMonth(year, 11) == 276 + feb;
    assert DaysBeforeMonth(year, 12) == 306 + feb;
  }

  /** `datetime` has a February 29 exactly in the years of 366 days. */
  lemma LeapDayInLongYears(year: int)
    requires 1 <= year <= 9999
    ensures MakeDate(year, Some(2), Some(29)).Some? <==> YearLength(year) == 366
  {
    YearLengthLeap(year);
  }

  /** The days from 1 January of year 1 to 1 January of `year`, year by year. */
  function DaysBeforeYear(year: nat): int {
    if year <= 1 then 0 else DaysBeforeYear(year - 1) + YearLength(year - 1)
  }

  lemma StepDiv(y: nat)
    ensures (y + 1) / 4 - y / 4 == if (y + 1) % 4 == 0 then 1 else 0
    ensures (y + 1) / 100 - y / 100 == if (y + 1) % 100 == 0 then 1 else 0
    ensures (y + 1) / 400 - y / 400 == if (y + 1) % 400 == 0 then 1 else 0
  {
  }

  /** A leap year is counted once as a fourth year, taken off as a century
      and added back as a fourth century. */
  lemma LeapCount(n: int)
    ensures (if IsLeapYear(n) then 1 else 0)
      == (if n % 4 == 0 then 1 else 0) - (if n % 100 == 0 then 1 else 0) + (if n % 400 == 0 then 1 else 0)
  {
    if n % 400 == 0 {
      var q := n / 400;
      assert n == 100 * (4 * q) && n == 4 * (100 * q);
    } else if n % 100 == 0 {
      var q := n / 100;
      assert n == 4 * (25 * q);
    }
  }

  /** `_days_before_year` of the Python library, for the year after `y`. */
  function DaysBeforeYearClosed(y: nat): int {
    365 * y + y / 4 - y / 100 + y / 400
  }

  lemma ClosedStep(y: nat)
    ensures DaysBeforeYearClosed(y + 1) == DaysBeforeYearClosed(y) + (if IsLeapYear(y + 1) then 366 else 365)
  {
    StepDiv(y);
    LeapCount(y + 1);
    assert 365 * (y + 1) == 365 * y + 365;
  }

  /** The calendar `datetime` checks dates against counts its days as the
      Python library's `_days_before_year` does: 365 a year, plus one for
      every fourth year, less the centuries, plus every fourth century. */
  lemma {:induction false} DaysBeforeYearFormula(year: nat)
    requires year >= 1
    ensures DaysBeforeYear(year) == DaysBeforeYearClosed(year - 1)
  {
    if year > 1 {
      DaysBeforeYearFormula(year - 1);
      YearLengthLeap(year - 1);
      ClosedStep(year - 2);
    }
  }

  /** Every 400 years hold 146097 days, the cycle of the Gregorian calendar. */
  lemma FourHundredYearCycle(year: nat)
    requires year >= 1
    ensures DaysBeforeYear(year + 400) - DaysBeforeYear(year) == 146097
  {
    DaysBeforeYearFormula(year);
    DaysBeforeYearFormula(year + 400);
    ClosedCycle(year - 1);
  }

  lemma ClosedCycle(y: nat)
    ensures DaysBeforeYearClosed(y + 400) == DaysBeforeYearClosed(y) + 146097
  {
    assert 365 * (y + 400) == 365 * y + 146000;
    assert (y + 400) / 4 == y / 4 + 100;
    assert (y + 400) / 100 == y / 100 + 4;
    assert (y + 400) / 400 == y / 400 + 1;
  }

  function DigitChar(n: nat): (c: char)
    requires n <= 9
    ensures IsDigit(c) && DigitValue(c) == n
  {
    ('0' as int + n) as char
  }

  /** The zero-padded `YYYY-MM-DD` spelling of a date. */
  function FormatDate(d: Date): (s: string)
    requires 0 <= d.year <= 9999 && 0 <= d.month <= 99 && 0 <= d.day <= 99
    ensures IsPaddedShape(s)
  {
    [DigitChar(d.year / 1000), DigitChar(d.year / 100 % 10), DigitChar(d.year / 10 % 10), DigitChar(d.year % 10),
     '-', DigitChar(d.month / 10), DigitChar(d.month % 10),
     '-', DigitChar(d.day / 10), DigitChar(d.day % 10)]
  }

  /** The padded spelling of a date has the date's own year, month and day. */
  lemma FormatDateFields(d: Date)
    requires 0 <= d.year <= 9999 && 0 <= d.month <= 99 && 0 <= d.day <= 99
    ensures PaddedMonth(FormatDate(d)) == d.month && PaddedDay(FormatDate(d)) == d.day
    ensures GroupsValue(FormatDate(d)[..4]) == d.year
  {
    var s := FormatDate(d);
    assert AllDigits(s[..4]);
    FourDigits(s[..4]);
    YearDigits(d.year);
  }

  lemma YearDigits(y: int)
    requires 0 <= y <= 9999
    ensures y == 1000 * (y / 1000) + 100 * (y / 100 % 10) + 10 * (y / 10 % 10) + y % 10
  {
    var q1, q2 := y / 10, y / 100;
    assert y == 10 * q1 + y % 10;
    assert q1 / 10 == q2 && q1 == 10 * q2 + y / 10 % 10;
    assert q2 / 10 == y / 1000 && q2 == 10 * (y / 1000) + y / 100 % 10;
  }

  /** The loose check accepts every padded date whose month is 1-12 and day
      1-31, including days the month does not have. */
  lemma LooseAcceptsPadded(d: Date)
    requires 0 <= d.year <= 9999 && 1 <= d.month <= 12 && 1 <= d.day <= 31
    ensures LooseDueDate(FormatDate(d))
  {
    FormatDateFields(d);
    LooseOnPadded(FormatDate(d));
  }

  /** `strptime` reads a calendar date back from its padded spelling. */
  lemma StrptimeFormat(d: Date)
    requires IsCalendarDate(d)
    ensures Strptime(FormatDate(d)) == Some(d)
  {
    var s := FormatDate(d);
    FormatDateFields(d);
    assert AllDigits(s[..4]);
    PaddedRest(s, d);
  }

  /** After the year and its dash, a padded calendar date reads back its month and day. */
  lemma PaddedRest(s: string, d: Date)
    requires IsPaddedShape(s) && IsCalendarDate(d)
    requires PaddedMonth(s) == d.month && PaddedDay(s) == d.day
    ensures DateAfterYear(d.year, s[5..]) == Some(d)
  {
    var rest := s[5..];
    assert FindDash(rest) == Some(2) by {
      assert rest[0] != '-' && rest[1] != '-' && rest[2] == '-';
      assert FindDash(rest[2..]) == Some(0);
    }
    assert rest[..2] == s[5..7] && rest[3..] == s[8..10];
    assert MonthField(s[5..7]) == Some(d.month);
    assert DayField(s[8..10]) == Some(d.day);
  }

  /** A ten-character string `strptime` accepts has its second dash at index 7. */
  lemma StrictTenShape(s: string)
    requires Strptime(s).Some? && |s| == 10
    ensures s[7] == '-' && AllDigits(s[..4])
    ensures MonthField(s[5..7]).Some? && DayField(s[8..10]).Some?
  {
    var rest := s[5..];
    var j := FindDash(rest).value;
    assert j == 2 by {
      assert MonthField(rest[..j]).Some? && DayField(rest[j + 1..]).Some?;
    }
    assert rest[..2] == s[5..7] && rest[3..] == s[8..10];
  }

  /** Every ten-character string `strptime` accepts also passes the loose
      check: its month and day are then two characters each, and a
      space-padded day such as `" 5"` is what `int()` reads as 5. */
  lemma StrictTenImpliesLoose(s: string)
    requires Strptime(s).Some? && |s| == 10
    ensures LooseDueDate(s)
  {
    StrictTenShape(s);
    FieldsPassLoose(s);
  }

  lemma FieldsPassLoose(s: string)
    requires |s| == 10 && s[4] == '-' && s[7] == '-' && AllDigits(s[..4])
    requires MonthField(s[5..7]).Some? && DayField(s[8..10]).Some?
    ensures LooseDueDate(s)
  {
    assert s[0..4] == s[..4];
    FourDigits(s[0..4]);
    MonthFieldParses(s[5..7]);
    DayFieldParses(s[8..10]);
  }

  /** A two-character `%m` field is read the same by `int()`. */
  lemma MonthFieldParses(t: string)
    requires |t| == 2 && MonthField(t).Some?
    ensures ParseInt(t) == MonthField(t)
  {
    assert IsDigit(t[0]) && IsDigit(t[1]);
    assert MonthField(t) == Some(10 * DigitValue(t[0]) + DigitValue(t[1]));
    assert AllDigits(t);
    TwoDigits(t);
  }

  /** A two-character `%d` field is read the same by `int()`, a space-padded one included. */
  lemma DayFieldParses(t: string)
    requires |t| == 2 && DayField(t).Some?
    ensures ParseInt(t) == DayField(t)
  {
    if t[0] == ' ' {
      var v := DaySpaced(t);
      SpaceDigit(t);
    } else {
      var v := DayTwoDigits(t);
      TwoDigits(t);
    }
  }

  lemma DaySpaced(t: string) returns (v: int)
    requires |t| == 2 && DayField(t).Some? && t[0] == ' '
    ensures IsDigit(t[1]) && v == DigitValue(t[1]) && DayField(t) == Some(v)
  {
    v := DigitValue(t[1]);
  }

  lemma DayTwoDigits(t: string) returns (v: int)
    requires |t| == 2 && DayField(t).Some? && t[0] != ' '
    ensures AllDigits(t) && v == 10 * DigitValue(t[0]) + DigitValue(t[1])
    ensures DayField(t) == Some(v)
  {
    v := 10 * DigitValue(t[0]) + DigitValue(t[1]);
  }

  /** The loose check takes February 30th... */
  lemma LooseTakesFebruary30()
    ensures LooseDueDate("2025-02-30")
  {
    var s := "2025-02-30";
    assert IsPaddedShape(s);
    LooseOnPadded(s);
  }

  /** ... which `strptime` refuses. */
  lemma StrictRefusesFebruary30()
    ensures Strptime("2025-02-30").None?
  {
    var s := "2025-02-30";
    assert FindDash(s[5..]) == Some(2) by {
      assert FindDash(s[5..][2..]) == Some(0);
    }
    assert s[5..][..2] == "02" && s[5..][3..] == "30";
  }

  /** `strptime` takes an unpadded month and day, which the loose check refuses
      for not being ten characters long. */
  lemma StrictTakesUnpadded()
    ensures Strptime("2025-1-5") == Some(Date(2025, 1, 5))
  {
    var u := "2025-1-5";
    assert FindDash(u[5..]) == Some(1) by {
      assert FindDash(u[5..][1..]) == Some(0);
    }
    UnpaddedYear();
    assert u[..4] == "2025" && u[4] == '-';
    assert u[5..][..1] == "1" && u[5..][2..] == "5";
    assert MonthField("1") == Some(1);
    assert DayField("5") == Some(5);
  }

  lemma UnpaddedYear()
    ensures AllDigits("2025") && GroupsValue("2025") == 2025
  {
    FourDigits("2025");
  }

  /** Month 13 is refused by the loose check. */
  lemma LooseRefusesMonth13()
    ensures !LooseDueDate("2025-13-01")
  {
    var s := "2025-13-01";
    assert IsPaddedShape(s);
    LooseOnPadded(s);
  }

  /** A month padded with a separator U+001C..U+001F, as in "2025-\x1c1-01",
      is refused, since `int()` does not skip that separator. */
  lemma LooseRefusesSeparatorPadding(s: string)
    requires |s| == 10 && '\U{1C}' <= s[5] <= '\U{1F}' && IsDigit(s[6])
    ensures !LooseDueDate(s)
  {
    SeparatorNotSkipped(s[5..7]);
  }

  /** Any case of a priority word is stored capitalized; other words are refused. */
  lemma PriorityExamples()
    ensures ValidatePriority("high") == Some("High")
    ensures ValidatePriority("mEDIUM") == Some("Medium")
    ensures ValidatePriority("urgent") == None
  {
    assert Lower("high") == "high";
    assert Lower("mEDIUM") == "medium";
    assert Lower("urgent") == "urgent";
  }
}
