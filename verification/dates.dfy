/** Calendar dates as (year, month, day) triples: the age computation behind the 18-year
    rule and the `DD. MM. YYYY` rendering used on the card. */
module Dates {
  import opened Text

  datatype Date = Date(year: int, month: int, day: int)

  predicate IsLeapYear(y: int) {
    (y % 4 == 0 && y % 100 != 0) || y % 400 == 0
  }

  function DaysInMonth(y: int, m: int): int
    requires 1 <= m <= 12
  {
    if m == 2 then (if IsLeapYear(y) then 29 else 28)
    else if m == 4 || m == 6 || m == 9 || m == 11 then 30
    else 31
  }

  predicate IsValid(d: Date) {
    1 <= d.month <= 12 && 1 <= d.day <= DaysInMonth(d.year, d.month)
  }

  /** A date a JavaScript `Date` object can report through its getters. */
  type CalendarDate = d: Date | IsValid(d) witness Date(2000, 1, 1)

  /** Strictly earlier in the calendar: by year, then month, then day. */
  predicate Before(a: Date, b: Date) {
    || a.year < b.year
    || (a.year == b.year && a.month < b.month)
    || (a.year == b.year && a.month == b.month && a.day < b.day)
  }

  /** The same month and day `n` years later. A 29 February anniversary in a common year is
      not a valid date but still orders correctly: after 28 February, before 1 March. */
  function Anniversary(d: Date, n: int): Date {
    Date(d.year + n, d.month, d.day)
  }

  /** Whether this year's birthday (month and day) is still ahead of `today`. */
  predicate BirthdayAhead(today: Date, dob: Date) {
    today.month < dob.month || (today.month == dob.month && today.day < dob.day)
  }

  /** Age in whole years on `today` for someone born on `dob`: the `age`-th anniversary
      has been reached and the next one has not. */
  function Age(today: Date, dob: Date): (age: int)
    ensures !Before(today, Anniversary(dob, age))
    ensures Before(today, Anniversary(dob, age + 1))
  {
    today.year - dob.year - (if BirthdayAhead(today, dob) then 1 else 0)
  }

  /** Reaching an anniversary is monotone: once the `n`-th is reached, so is every earlier. */
  lemma AnniversaryMonotone(today: Date, dob: Date, m: int, n: int)
    requires m <= n && !Before(today, Anniversary(dob, n))
    ensures !Before(today, Anniversary(dob, m))
  {
  }

  const AdultAge := 18

  /** Someone is at least `AdultAge` exactly when their 18th anniversary is not after
      `today`: the birthday itself passes, the day before does not. */
  lemma {:induction false} AdultIffEighteenthReached(today: Date, dob: Date)
    ensures Age(today, dob) >= AdultAge <==> !Before(today, Anniversary(dob, AdultAge))
  {
    var age := Age(today, dob);
    if age >= AdultAge {
      AnniversaryMonotone(today, dob, AdultAge, age);
    } else {
      assert Before(today, Anniversary(dob, age + 1));
      if !Before(today, Anniversary(dob, AdultAge)) {
        AnniversaryMonotone(today, dob, age + 1, AdultAge);
        assert false;
      }
    }
  }

  /** On the 18th birthday the age is 18; on any earlier day of that year it is 17. */
  lemma EighteenthBirthday(dob: Date, today: Date)
    requires today.year == dob.year + AdultAge
    ensures today.month == dob.month && today.day == dob.day ==> Age(today, dob) == AdultAge
    ensures Before(today, Anniversary(dob, AdultAge)) ==> Age(today, dob) == AdultAge - 1
  {
  }

  /** `String(n).padStart(2, '0')` for a day or month: exactly two digits that read back
      as `n`. */
  function TwoDigits(n: nat): (t: string)
    requires n < 100
    ensures |t| == 2 && AllDigits(t) && DigitsValue(t) == n
  {
    TwoDigitsRoundTrip(n);
    PadStart(NatToString(n), 2, '0')
  }

  /** A number below 100 zero-padded to two digits reads back as itself. */
  lemma {:induction false} TwoDigitsRoundTrip(n: nat)
    requires n < 100
    ensures var t := PadStart(NatToString(n), 2, '0'); |t| == 2 && AllDigits(t) && DigitsValue(t) == n
  {
    var s := NatToString(n);
    NatToStringRoundTrip(n);
    var t := PadStart(s, 2, '0');
    if n < 10 {
      assert t == ['0'] + s;
      assert t[..1] == ['0'];
      assert DigitsValue(t[..1]) == DigitsValue(['0'][..0]) * 10 + 0;
    } else {
      assert NatToString(n / 10) == [DigitChar(n / 10)];
      assert |s| == 2;
    }
  }

  /** `formatDate`: two-digit day, ". ", two-digit month, ". ", then the year as `String`
      renders it, so the text has the card-date shape. */
  function FormatDate(d: CalendarDate): (s: string)
    ensures IsCardDate(s)
    ensures |s| == 8 + |IntToString(d.year)| && s[8..] == IntToString(d.year)
  {
    var dd, mm, yyyy := TwoDigits(d.day), TwoDigits(d.month), IntToString(d.year);
    CardDateParts(dd, mm, yyyy);
    dd + ". " + mm + ". " + yyyy
  }

  /** Gluing two two-digit fields and an integer with ". " gives a card date whose parts
      sit at fixed offsets. */
  lemma CardDateParts(dd: string, mm: string, yyyy: string)
    requires |dd| == 2 && AllDigits(dd) && |mm| == 2 && AllDigits(mm) && IsIntText(yyyy)
    ensures var s := dd + ". " + mm + ". " + yyyy;
      && IsCardDate(s) && s[..2] == dd && s[4..6] == mm && s[8..] == yyyy
  {
    var s := dd + ". " + mm + ". " + yyyy;
    assert s[0] == dd[0] && s[1] == dd[1] && s[4] == mm[0] && s[5] == mm[1];
    assert s[8..] == yyyy;
  }

  /** The shape `FormatDate` produces: `DD. MM. ` followed by an integer. */
  predicate IsCardDate(s: string) {
    && |s| >= 9
    && IsDigitChar(s[0]) && IsDigitChar(s[1]) && s[2] == '.' && s[3] == ' '
    && IsDigitChar(s[4]) && IsDigitChar(s[5]) && s[6] == '.' && s[7] == ' '
    && IsIntText(s[8..])
  }

  /** Reads a card date back into its triple. */
  function ParseCardDate(s: string): Date
    requires IsCardDate(s)
  {
    Date(IntValue(s[8..]), DigitsValue(s[4..6]), DigitsValue(s[..2]))
  }

  /** The rendered date determines the date: reading it back gives the same triple. */
  lemma FormatDateRoundTrip(d: CalendarDate)
    ensures ParseCardDate(FormatDate(d)) == d
  {
    var dd, mm, yyyy := TwoDigits(d.day), TwoDigits(d.month), IntToString(d.year);
    CardDateParts(dd, mm, yyyy);
    IntToStringRoundTrip(d.year);
  }

  lemma SmallDigits()
    ensures NatToString(0) == "0" && NatToString(1) == "1" && NatToString(2) == "2"
    ensures NatToString(3) == "3" && NatToString(5) == "5" && NatToString(9) == "9"
  {
    assert DigitChar(0) == '0' && DigitChar(1) == '1' && DigitChar(2) == '2';
    assert DigitChar(3) == '3' && DigitChar(5) == '5' && DigitChar(9) == '9';
  }

  lemma Year2000Text()
    ensures IntToString(2000) == "2000"
  {
    SmallDigits();
    assert NatToString(20) == "20";
    assert NatToString(200) == "200";
  }

  lemma Year1999Text()
    ensures IntToString(1999) == "1999"
  {
    SmallDigits();
    assert NatToString(19) == "19";
    assert NatToString(199) == "199";
  }

  lemma PaddedDigits()
    ensures TwoDigits(5) == "05" && TwoDigits(1) == "01"
  {
    SmallDigits();
    assert seq(1, _ => '0') == "0";
  }

  lemma Day31Text()
    ensures TwoDigits(31) == "31"
  {
    assert NatToString(31) == "31" by { SmallDigits(); }
  }

  lemma Month12Text()
    ensures TwoDigits(12) == "12"
  {
    assert NatToString(12) == "12" by { SmallDigits(); assert DigitChar(2) == '2'; }
  }

  /** 5 January 2000 is shown as "05. 01. 2000". */
  lemma FormatDateExampleJanuary()
    ensures FormatDate(Date(2000, 1, 5)) == "05. 01. 2000"
  {
    PaddedDigits();
    Year2000Text();
  }

  /** 31 December 1999 is shown as "31. 12. 1999". */
  lemma FormatDateExampleDecember()
    ensures FormatDate(Date(1999, 12, 31)) == "31. 12. 1999"
  {
    assert "31" + ". " + "12" + ". " + "1999" == "31. 12. 1999";
    Day31Text();
    Month12Text();
    Year1999Text();
  }
}
