/** The examples of the reminder utilities' unit tests, and a few more
    edge cases, stated as lemmas about the model. The inputs are lemma
    parameters fixed by `requires`, so that each lemma reads as "for this
    gotcha date and this reference instant, the result is ...". */
module ReminderVectors {
  import opened Calendar
  import opened Digits
  import opened JsDate
  import opened Reminders

  /** 2024-05-01T12:00:00.000Z, the reference instant of the unit tests. */
  const TestReference: TimeValue := 1714564800000

  /** 2023-01-01T00:00:00.000Z */
  const NewYear2023: TimeValue := 1672531200000

  /** 2024-12-31T00:00:00.000Z */
  const LastDayOf2024: TimeValue := 1735603200000

  /** The YYYY-MM-DD text of a civil date with a four-digit year. */
  function DateText(c: Date): string
    requires 0 <= c.year && 0 <= c.month && 0 <= c.day
  {
    PadDecimal(c.year, 4) + "-" + PadDecimal(c.month, 2) + "-" + PadDecimal(c.day, 2)
  }

  // ---------------------------------------------------------------------
  // Facts about the fixed inputs

  lemma PadDecimalTwo(n: nat)
    requires n <= 99
    ensures PadDecimal(n, 2) == [DigitChar(n / 10), DigitChar(n % 10)]
  {
    assert PadDecimal(n / 10, 1) == [DigitChar(n / 10)];
  }

  lemma PadDecimalFour(n: nat)
    requires n <= 9999
    ensures PadDecimal(n, 4) == [DigitChar(n / 1000), DigitChar(n / 100 % 10), DigitChar(n / 10 % 10), DigitChar(n % 10)]
  {
    assert n / 10 / 10 == n / 100 && n / 100 / 10 == n / 1000;
    PadDecimalTwo(n / 100);
    assert PadDecimal(n / 10, 3) == PadDecimal(n / 100, 2) + [DigitChar(n / 10 % 10)];
  }

  /** The ten characters of a date text. */
  lemma DateTextChars(c: Date)
    requires 0 <= c.year <= 9999 && 0 <= c.month <= 99 && 0 <= c.day <= 99
    ensures DateText(c) == [DigitChar(c.year / 1000), DigitChar(c.year / 100 % 10), DigitChar(c.year / 10 % 10), DigitChar(c.year % 10),
      '-', DigitChar(c.month / 10), DigitChar(c.month % 10), '-', DigitChar(c.day / 10), DigitChar(c.day % 10)]
  {
    PadDecimalFour(c.year);
    PadDecimalTwo(c.month);
    PadDecimalTwo(c.day);
  }

  lemma TestDateTexts()
    ensures DateText(Date(2020, 5, 20)) == "2020-05-20"
    ensures DateText(Date(2024, 5, 20)) == "2024-05-20"
    ensures DateText(Date(2024, 5, 13)) == "2024-05-13"
  {
    DateTextChars(Date(2020, 5, 20));
    DateTextChars(Date(2024, 5, 20));
    DateTextChars(Date(2024, 5, 13));
  }

  lemma RolloverTexts()
    ensures DateText(Date(2018, 2, 10)) == "2018-02-10"
    ensures DateText(Date(2025, 2, 10)) == "2025-02-10"
  {
    DateTextChars(Date(2018, 2, 10));
    DateTextChars(Date(2025, 2, 10));
  }

  lemma OutOfRangeTexts()
    ensures DateText(Date(2020, 13, 45)) == "2020-13-45"
    ensures DateText(Date(2025, 2, 14)) == "2025-02-14"
  {
    DateTextChars(Date(2020, 13, 45));
    DateTextChars(Date(2025, 2, 14));
  }

  lemma LeapDayTexts()
    ensures DateText(Date(2020, 2, 29)) == "2020-02-29"
    ensures DateText(Date(2023, 3, 1)) == "2023-03-01"
  {
    DateTextChars(Date(2020, 2, 29));
    DateTextChars(Date(2023, 3, 1));
  }

  lemma ZeroFieldTexts()
    ensures DateText(Date(2020, 0, 0)) == "2020-00-00"
    ensures DateText(Date(2024, 11, 30)) == "2024-11-30"
  {
    DateTextChars(Date(2020, 0, 0));
    DateTextChars(Date(2024, 11, 30));
  }

  lemma TwoDigitYearTexts()
    ensures DateText(Date(50, 5, 20)) == "0050-05-20"
    ensures DateText(Date(1950, 5, 20)) == "1950-05-20"
  {
    DateTextChars(Date(50, 5, 20));
    DateTextChars(Date(1950, 5, 20));
  }

  /** A date text with fields of widths 4, 2 and 2 passes the date check and parses to its fields. */
  lemma ParsesAs(s: string, c: Date)
    requires 0 <= c.year <= 9999 && 0 <= c.month <= 99 && 0 <= c.day <= 99
    requires s == DateText(c)
    ensures IsIsoDateString(s) && ParseIsoFields(s) == IsoFields(c.year, c.month, c.day)
  {
    IsoTextFields(c.year, c.month, c.day);
  }

  /** An instant whose UTC day lies within year y is in UTC year y. */
  lemma InUtcYear(t: TimeValue, y: int)
    requires YearStart(y) <= Day(t) < YearStart(y + 1)
    ensures UtcFullYear(t) == y
  {
    YearOfUnique(Day(t), y);
  }

  lemma YearStarts()
    ensures YearStart(1950) == -7305
    ensures YearStart(2023) == 19358 && YearStart(2024) == 19723 && YearStart(2025) == 20089 && YearStart(2026) == 20454
  {
  }

  lemma ReferenceDays(t: TimeValue)
    ensures t == TestReference ==> Day(t) == 19844 && UtcFullYear(t) == 2024
    ensures t == NewYear2023 ==> Day(t) == 19358 && UtcFullYear(t) == 2023
    ensures t == LastDayOf2024 ==> Day(t) == 20088 && UtcFullYear(t) == 2024
  {
    YearStarts();
    if t == TestReference {
      InUtcYear(t, 2024);
    } else if t == NewYear2023 {
      InUtcYear(t, 2023);
    } else if t == LastDayOf2024 {
      InUtcYear(t, 2024);
    }
  }

  lemma TestDayNumbers()
    ensures DayNumber(2024, 5, 1) == 19844
    ensures DayNumber(2024, 5, 13) == 19856
    ensures DayNumber(2024, 5, 20) == 19863
  {
  }

  lemma RolloverDayNumbers()
    ensures DayNumber(2024, 2, 10) == 19763 && DayNumber(2025, 2, 10) == 20129
    ensures DayNumber(2025, 1, 45) == 20133 && DayNumber(2025, 2, 14) == 20133
  {
  }

  lemma CarryDayNumbers()
    ensures DayNumber(2023, 2, 29) == 19417 && DayNumber(2023, 3, 1) == 19417
    ensures DayNumber(2023, 12, 0) == 19691 && DayNumber(2024, 12, 0) == 20057 && DayNumber(2024, 11, 30) == 20057
    ensures DayNumber(1950, 5, 20) == -7166
  {
  }

  /** The gotcha months and days of the examples fall on these civil dates. */
  lemma TestOccurrences()
    ensures Occurrence(IsoFields(2020, 5, 20), 2024) == DayNumber(2024, 5, 20)
    ensures Occurrence(IsoFields(2018, 2, 10), 2024) == DayNumber(2024, 2, 10)
    ensures Occurrence(IsoFields(2018, 2, 10), 2025) == DayNumber(2025, 2, 10)
  {
    MakeDayInYear(2024, 4, 20);
    MakeDayInYear(2024, 1, 10);
    MakeDayInYear(2025, 1, 10);
  }

  // ---------------------------------------------------------------------
  // Generic steps the examples go through

  /** The formatted text of a midnight on a valid date with a four-digit year is its date text. */
  lemma FormatsAs(t: TimeValue, c: Date)
    requires ValidDate(c) && 0 <= c.year <= 9999
    requires t % MsPerDay == 0 && Day(t) == DayNumber(c.year, c.month, c.day)
    ensures FormatIsoDate(t) == DateText(c)
  {
    DayNumberRoundTrip(c);
    FormatIsoDateText(t);
  }

  /** An instant on the day of a valid date is in that date's UTC year. */
  lemma OnDateYear(t: TimeValue, c: Date)
    requires ValidDate(c) && Day(t) == DayNumber(c.year, c.month, c.day)
    ensures UtcFullYear(t) == c.year
  {
    DayNumberRoundTrip(c);
  }

  /** getYearsWithFamily counts the years from the gotcha year to the year of the next anniversary. */
  lemma YearsWithFamilyFromDate(gotchaDate: string, referenceDate: TimeValue, c: Date, n: int)
    requires IsIsoDateString(gotchaDate) && UtcFullYear(referenceDate) >= 100
    requires 1 <= ParseIsoFields(gotchaDate).month <= 12 && 1 <= ParseIsoFields(gotchaDate).day <= 31
    requires ValidDate(c) && Day(NextAnniversaryDate(gotchaDate, referenceDate).value) == DayNumber(c.year, c.month, c.day)
    requires n == c.year - ParseIsoFields(gotchaDate).year && n >= 0
    ensures YearsWithFamily(gotchaDate, referenceDate) == Ok(n)
  {
    OnDateYear(NextAnniversaryDate(gotchaDate, referenceDate).value, c);
    YearsWithFamilyCountsToNextAnniversary(gotchaDate, referenceDate);
  }

  /** getNextAnniversaryDate at the level of days: this year's occurrence
      unless it falls before the reference day, otherwise next year's. */
  lemma NextAnniversaryChoice(gotchaDate: string, referenceDate: TimeValue)
    requires IsIsoDateString(gotchaDate) && UtcFullYear(referenceDate) >= 100
    ensures var f := ParseIsoFields(gotchaDate); var y := UtcFullYear(referenceDate);
      var r := NextAnniversaryDate(gotchaDate, referenceDate);
      && r.Ok? && r.value % MsPerDay == 0
      && Day(r.value) == if Occurrence(f, y) < Day(referenceDate) then Occurrence(f, y + 1) else Occurrence(f, y)
  {
    StartOfUtcDayYear(referenceDate);
    ResolveChoice(ParseIsoFields(gotchaDate), StartOfUtcDay(referenceDate));
  }

  /** A date string whose fields are a month 1..12 of a year and a day is
      read by describeReminder as that day of Date.UTC's year (0..99 meaning 1900..1999). */
  lemma ParsedDay(s: string, f: IsoFields)
    requires IsIsoDateString(s) && ParseIsoFields(s) == f && 1 <= f.month <= 12
    ensures Day(ParseIsoDate(s)) == DayNumber(MakeFullYear(f.year), f.month, f.day)
  {
    MakeDayInYear(MakeFullYear(f.year), f.month - 1, f.day);
  }

  /** The reminder is the date text of c when the instant daysBefore days
      before the next anniversary is midnight of c. */
  lemma ReminderIsDateText(gotchaDate: string, daysBefore: real, referenceDate: TimeValue, c: Date, text: string)
    requires IsNonNegativeInteger(daysBefore) && IsIsoDateString(gotchaDate)
    requires ValidDate(c) && 0 <= c.year <= 9999 && text == DateText(c)
    requires var t := DaysEarlier(NextAnniversaryDate(gotchaDate, referenceDate).value, daysBefore.Floor);
      t % MsPerDay == 0 && Day(t) == DayNumber(c.year, c.month, c.day)
    ensures CalculateReminderDate(gotchaDate, daysBefore, referenceDate) == Ok(text)
  {
    FormatsAs(DaysEarlier(NextAnniversaryDate(gotchaDate, referenceDate).value, daysBefore.Floor), c);
    CalculateReminderDateDay(gotchaDate, daysBefore, referenceDate);
  }

  // ---------------------------------------------------------------------
  // The unit tests' examples. Each is stated twice: once for any gotcha
  // date and reference instant with the example's parsed fields and UTC
  // day, and once for the example's literal inputs.

  /** The 2020-05-20 anniversary is still ahead on 2024-05-01: it is midnight of 2024-05-20. */
  lemma StillAheadAnniversaryDay(gotchaDate: string, referenceDate: TimeValue)
    requires IsIsoDateString(gotchaDate) && ParseIsoFields(gotchaDate) == IsoFields(2020, 5, 20)
    requires Day(referenceDate) == 19844 && UtcFullYear(referenceDate) == 2024
    ensures NextAnniversaryDate(gotchaDate, referenceDate).Ok?
    ensures NextAnniversaryDate(gotchaDate, referenceDate).value % MsPerDay == 0
    ensures Day(NextAnniversaryDate(gotchaDate, referenceDate).value) == DayNumber(2024, 5, 20)
  {
    NextAnniversaryChoice(gotchaDate, referenceDate);
    TestOccurrences();
    TestDayNumbers();
  }

  lemma NextAnniversaryStillAheadDays(gotchaDate: string, referenceDate: TimeValue, text: string)
    requires IsIsoDateString(gotchaDate) && ParseIsoFields(gotchaDate) == IsoFields(2020, 5, 20)
    requires Day(referenceDate) == 19844 && UtcFullYear(referenceDate) == 2024
    requires text == DateText(Date(2024, 5, 20))
    ensures NextAnniversaryDate(gotchaDate, referenceDate).Ok?
    ensures FormatIsoDate(NextAnniversaryDate(gotchaDate, referenceDate).value) == text
  {
    StillAheadAnniversaryDay(gotchaDate, referenceDate);
    FormatsAs(NextAnniversaryDate(gotchaDate, referenceDate).value, Date(2024, 5, 20));
  }

  /** getNextAnniversaryDate('2020-05-20', 2024-05-01T12:00Z) formats as '2024-05-20'. */
  lemma NextAnniversaryStillAhead(gotchaDate: string, referenceDate: TimeValue)
    requires gotchaDate == "2020-05-20" && referenceDate == TestReference
    ensures NextAnniversaryDate(gotchaDate, referenceDate).Ok?
    ensures FormatIsoDate(NextAnniversaryDate(gotchaDate, referenceDate).value) == "2024-05-20"
  {
    TestDateTexts();
    ParsesAs(gotchaDate, Date(2020, 5, 20));
    ReferenceDays(referenceDate);
    NextAnniversaryStillAheadDays(gotchaDate, referenceDate, "2024-05-20");
  }

  lemma NextAnniversaryRollsOverDays(gotchaDate: string, referenceDate: TimeValue)
    requires IsIsoDateString(gotchaDate) && ParseIsoFields(gotchaDate) == IsoFields(2018, 2, 10)
    requires Day(referenceDate) == 19844 && UtcFullYear(referenceDate) == 2024
    ensures NextAnniversaryDate(gotchaDate, referenceDate).Ok?
    ensures FormatIsoDate(NextAnniversaryDate(gotchaDate, referenceDate).value) == DateText(Date(2025, 2, 10))
  {
    TestOccurrences();
    RolloverDayNumbers();
    FormatsAs(NextAnniversaryDate(gotchaDate, referenceDate).value, Date(2025, 2, 10));
  }

  /** getNextAnniversaryDate('2018-02-10', 2024-05-01T12:00Z) formats as '2025-02-10'. */
  lemma NextAnniversaryRollsOver(gotchaDate: string, referenceDate: TimeValue)
    requires gotchaDate == "2018-02-10" && referenceDate == TestReference
    ensures NextAnniversaryDate(gotchaDate, referenceDate).Ok?
    ensures FormatIsoDate(NextAnniversaryDate(gotchaDate, referenceDate).value) == "2025-02-10"
  {
    RolloverTexts();
    ParsesAs(gotchaDate, Date(2018, 2, 10));
    ReferenceDays(referenceDate);
    NextAnniversaryRollsOverDays(gotchaDate, referenceDate);
  }

  /** The instant seven days before the 2024-05-20 anniversary is midnight of 2024-05-13. */
  lemma ReminderInstantSevenDaysAhead(gotchaDate: string, daysBefore: real, referenceDate: TimeValue)
    requires IsIsoDateString(gotchaDate) && ParseIsoFields(gotchaDate) == IsoFields(2020, 5, 20)
    requires daysBefore == 7.0 && Day(referenceDate) == 19844 && UtcFullYear(referenceDate) == 2024
    ensures var t := DaysEarlier(NextAnniversaryDate(gotchaDate, referenceDate).value, daysBefore.Floor);
      t % MsPerDay == 0 && Day(t) == DayNumber(2024, 5, 13)
  {
    assert daysBefore.Floor == 7;
    StillAheadAnniversaryDay(gotchaDate, referenceDate);
    DaysEarlierOfMidnight(NextAnniversaryDate(gotchaDate, referenceDate).value, daysBefore.Floor);
    TestDayNumbers();
  }

  lemma ReminderSevenDaysAheadDays(gotchaDate: string, daysBefore: real, referenceDate: TimeValue, text: string)
    requires IsIsoDateString(gotchaDate) && ParseIsoFields(gotchaDate) == IsoFields(2020, 5, 20)
    requires daysBefore == 7.0 && Day(referenceDate) == 19844 && UtcFullYear(referenceDate) == 2024
    requires text == DateText(Date(2024, 5, 13))
    ensures CalculateReminderDate(gotchaDate, daysBefore, referenceDate) == Ok(text)
  {
    ReminderInstantSevenDaysAhead(gotchaDate, daysBefore, referenceDate);
    ReminderIsDateText(gotchaDate, daysBefore, referenceDate, Date(2024, 5, 13), text);
  }

  /** calculateReminderDate('2020-05-20', 7, 2024-05-01T12:00Z) is '2024-05-13'. */
  lemma ReminderSevenDaysAhead(gotchaDate: string, daysBefore: real, referenceDate: TimeValue)
    requires gotchaDate == "2020-05-20" && daysBefore == 7.0 && referenceDate == TestReference
    ensures CalculateReminderDate(gotchaDate, daysBefore, referenceDate) == Ok("2024-05-13")
  {
    TestDateTexts();
    ParsesAs(gotchaDate, Date(2020, 5, 20));
    ReferenceDays(referenceDate);
    ReminderSevenDaysAheadDays(gotchaDate, daysBefore, referenceDate, "2024-05-13");
  }

  lemma YearsWithFamilyTestDays(gotchaDate: string, referenceDate: TimeValue)
    requires IsIsoDateString(gotchaDate) && ParseIsoFields(gotchaDate) == IsoFields(2020, 5, 20)
    requires Day(referenceDate) == 19844 && UtcFullYear(referenceDate) == 2024
    ensures YearsWithFamily(gotchaDate, referenceDate) == Ok(4)
  {
    StillAheadAnniversaryDay(gotchaDate, referenceDate);
    YearsWithFamilyFromDate(gotchaDate, referenceDate, Date(2024, 5, 20), 4);
  }

  /** getYearsWithFamily('2020-05-20', 2024-05-01T12:00Z) is 4. */
  lemma YearsWithFamilyTest(gotchaDate: string, referenceDate: TimeValue)
    requires gotchaDate == "2020-05-20" && referenceDate == TestReference
    ensures YearsWithFamily(gotchaDate, referenceDate) == Ok(4)
  {
    TestDateTexts();
    ParsesAs(gotchaDate, Date(2020, 5, 20));
    ReferenceDays(referenceDate);
    YearsWithFamilyTestDays(gotchaDate, referenceDate);
  }

  /** The reminder string of the describeReminder test is midnight of 2024-05-13 and formats back to itself. */
  lemma TestReminderDay(reminderDateIso: string, text: string)
    requires IsIsoDateString(reminderDateIso) && ParseIsoFields(reminderDateIso) == IsoFields(2024, 5, 13)
    requires text == DateText(Date(2024, 5, 13))
    ensures Day(ParseIsoDate(reminderDateIso)) == 19856
    ensures FormatIsoDate(ParseIsoDate(reminderDateIso)) == text
  {
    ParsedDay(reminderDateIso, IsoFields(2024, 5, 13));
    TestDayNumbers();
    FormatsAs(ParseIsoDate(reminderDateIso), Date(2024, 5, 13));
  }

  lemma DescribeTestDays(reminderDateIso: string, gotchaDate: string, referenceDate: TimeValue, reminderText: string, nextText: string)
    requires IsIsoDateString(reminderDateIso) && ParseIsoFields(reminderDateIso) == IsoFields(2024, 5, 13)
    requires IsIsoDateString(gotchaDate) && ParseIsoFields(gotchaDate) == IsoFields(2020, 5, 20)
    requires Day(referenceDate) == 19844 && UtcFullYear(referenceDate) == 2024
    requires reminderText == DateText(Date(2024, 5, 13)) && nextText == DateText(Date(2024, 5, 20))
    ensures DescribeReminder(reminderDateIso, gotchaDate, referenceDate)
      == Ok(ReminderSummary(reminderText, nextText, 12, 19, 7, 4))
  {
    TestReminderDay(reminderDateIso, reminderText);
    StillAheadAnniversaryDay(gotchaDate, referenceDate);
    TestDayNumbers();
    NextAnniversaryStillAheadDays(gotchaDate, referenceDate, nextText);
    YearsWithFamilyTestDays(gotchaDate, referenceDate);
    DescribeReminderFields(reminderDateIso, gotchaDate, referenceDate);
  }

  /** describeReminder('2024-05-13', '2020-05-20', 2024-05-01T12:00Z) reports the
      reminder on 2024-05-13 and the anniversary on 2024-05-20, 12 and 19 days
      ahead, a lead time of 7 days and 4 years with the family. */
  lemma DescribeTest(reminderDateIso: string, gotchaDate: string, referenceDate: TimeValue)
    requires reminderDateIso == "2024-05-13" && gotchaDate == "2020-05-20" && referenceDate == TestReference
    ensures DescribeReminder(reminderDateIso, gotchaDate, referenceDate)
      == Ok(ReminderSummary("2024-05-13", "2024-05-20", 12, 19, 7, 4))
  {
    TestDateTexts();
    ParsesAs(reminderDateIso, Date(2024, 5, 13));
    ParsesAs(gotchaDate, Date(2020, 5, 20));
    ReferenceDays(referenceDate);
    DescribeTestDays(reminderDateIso, gotchaDate, referenceDate, "2024-05-13", "2024-05-20");
  }

  lemma DaysPhrases()
    ensures DaysPhrase(19) == "19 days" && DaysPhrase(7) == "7 days"
  {
    assert PadDecimal(19, 1) == "19";
  }

  lemma HeadlineText(name: string, n: int)
    requires name == "Luna" && n == 19
    ensures Headline(name, n) == "Luna's gotcha day is in 19 days!"
  {
    DaysPhrases();
  }

  lemma CallToActionText()
    ensures CallToAction("Luna", ReminderSummary("2024-05-13", "2024-05-20", 12, 19, 7, 4))
      == "Schedule a celebration post in 7 days."
  {
    DaysPhrases();
  }

  /** createReminderPreview({id: 'pet-1', name: 'Luna', gotcha_date: '2020-05-20'},
      '2024-05-13', 2024-05-01T12:00Z) carries the describeReminder summary, the
      pet with no photo URL, the headline "Luna's gotcha day is in 19 days!" and
      a call to schedule a post in 7 days. */
  lemma PreviewTest(pet: Option<Pet>, reminderDateIso: string, referenceDate: TimeValue)
    requires pet == Some(Pet("pet-1", "Luna", "2020-05-20", ""))
    requires reminderDateIso == "2024-05-13" && referenceDate == TestReference
    ensures var p := CreateReminderPreview(pet, reminderDateIso, referenceDate);
      && p.Ok?
      && p.value.summary == ReminderSummary("2024-05-13", "2024-05-20", 12, 19, 7, 4)
      && p.value.pet == PetCard("pet-1", "Luna", "2020-05-20", None)
      && p.value.headline == "Luna's gotcha day is in 19 days!"
      && p.value.callToAction == "Schedule a celebration post in 7 days."
  {
    DescribeTest(reminderDateIso, pet.value.gotchaDate, referenceDate);
    PreviewContents(pet.value, reminderDateIso, referenceDate);
    HeadlineText(pet.value.name, 19);
    CallToActionText();
  }

  /** calculateReminderDate rejects a negative or fractional lead time before looking at the date. */
  lemma LeadTimeRejected(gotchaDate: string, daysBefore: real, referenceDate: TimeValue)
    requires daysBefore == -1.0 || daysBefore == 1.5
    ensures CalculateReminderDate(gotchaDate, daysBefore, referenceDate) == Err(InvalidLeadTime)
  {
    assert !IsNonNegativeInteger(daysBefore);
  }

  /** getDefaultReminderLeadTimes() is [14, 7, 1]. */
  lemma DefaultLeadTimesTest()
    ensures DefaultReminderLeadTimes() == [14, 7, 1]
  {
  }

  /** A date in another order or with other separators fails the check, with its own text in the error. */
  lemma MalformedDatesRejected(dateStr: string, referenceDate: TimeValue)
    requires dateStr == "05-20-2020" || dateStr == "2020/05/20"
    ensures NextAnniversaryDate(dateStr, referenceDate) == Err(InvalidIsoDateFormat(dateStr))
    ensures YearsWithFamily(dateStr, referenceDate) == Err(InvalidIsoDateFormat(dateStr))
    ensures CalculateReminderDate(dateStr, 7.0, referenceDate) == Err(InvalidIsoDateFormat(dateStr))
  {
    IsoDateStringShape(dateStr);
    assert dateStr[4] != '-';
  }

  // ---------------------------------------------------------------------
  // Fields out of the calendar's range roll over as Date.UTC rolls them

  /** Month 13, day 45 of 2024 is day 45 of January 2025. */
  lemma OutOfRangeOccurrence()
    ensures Occurrence(IsoFields(2020, 13, 45), 2024) == DayNumber(2025, 1, 45)
  {
    MakeDayCarries(2024, 0, 45);
    MakeDayInYear(2025, 0, 45);
  }

  lemma OutOfRangeFieldsDays(gotchaDate: string, referenceDate: TimeValue, text: string)
    requires IsIsoDateString(gotchaDate) && ParseIsoFields(gotchaDate) == IsoFields(2020, 13, 45)
    requires Day(referenceDate) == 19844 && UtcFullYear(referenceDate) == 2024
    requires text == DateText(Date(2025, 2, 14))
    ensures NextAnniversaryDate(gotchaDate, referenceDate).Ok?
    ensures FormatIsoDate(NextAnniversaryDate(gotchaDate, referenceDate).value) == text
  {
    NextAnniversaryChoice(gotchaDate, referenceDate);
    OutOfRangeOccurrence();
    RolloverDayNumbers();
    FormatsAs(NextAnniversaryDate(gotchaDate, referenceDate).value, Date(2025, 2, 14));
  }

  /** getNextAnniversaryDate('2020-13-45', 2024-05-01T12:00Z) formats as '2025-02-14':
      the anniversary "in 2024" already lies in 2025. */
  lemma OutOfRangeFieldsRollOver(gotchaDate: string, referenceDate: TimeValue)
    requires gotchaDate == "2020-13-45" && referenceDate == TestReference
    ensures NextAnniversaryDate(gotchaDate, referenceDate).Ok?
    ensures FormatIsoDate(NextAnniversaryDate(gotchaDate, referenceDate).value) == "2025-02-14"
  {
    OutOfRangeTexts();
    ParsesAs(gotchaDate, Date(2020, 13, 45));
    ReferenceDays(referenceDate);
    OutOfRangeFieldsDays(gotchaDate, referenceDate, "2025-02-14");
  }

  /** For fields 13 and 45, getYearsWithFamily resolves the anniversary to
      the reference year 2024, although getNextAnniversaryDate's result lies in 2025. */
  lemma CarriedYearsDays(gotchaDate: string, referenceDate: TimeValue)
    requires IsIsoDateString(gotchaDate) && ParseIsoFields(gotchaDate) == IsoFields(2020, 13, 45)
    requires Day(referenceDate) == 19844 && UtcFullYear(referenceDate) == 2024
    ensures YearsWithFamily(gotchaDate, referenceDate) == Ok(4)
    ensures NextAnniversaryDate(gotchaDate, referenceDate).Ok?
    ensures UtcFullYear(NextAnniversaryDate(gotchaDate, referenceDate).value) == 2025
  {
    NextAnniversaryChoice(gotchaDate, referenceDate);
    OutOfRangeOccurrence();
    RolloverDayNumbers();
    OnDateYear(NextAnniversaryDate(gotchaDate, referenceDate).value, Date(2025, 2, 14));
    var f := ParseIsoFields(gotchaDate);
    assert Day(AnniversaryInYear(f, 2024)) == Occurrence(f, 2024);
    assert AnniversaryYear(f, StartOfUtcDay(referenceDate)) == 2024;
  }

  /** getYearsWithFamily('2020-13-45', 2024-05-01T12:00Z) is 4, while the
      next anniversary is '2025-02-14', five years after the gotcha year. */
  lemma CarriedFieldsYearsDisagree(gotchaDate: string, referenceDate: TimeValue)
    requires gotchaDate == "2020-13-45" && referenceDate == TestReference
    ensures YearsWithFamily(gotchaDate, referenceDate) == Ok(4)
    ensures NextAnniversaryDate(gotchaDate, referenceDate).Ok?
    ensures FormatIsoDate(NextAnniversaryDate(gotchaDate, referenceDate).value) == "2025-02-14"
    ensures UtcFullYear(NextAnniversaryDate(gotchaDate, referenceDate).value) == 2025
  {
    OutOfRangeTexts();
    ParsesAs(gotchaDate, Date(2020, 13, 45));
    ReferenceDays(referenceDate);
    CarriedYearsDays(gotchaDate, referenceDate);
    OutOfRangeFieldsDays(gotchaDate, referenceDate, "2025-02-14");
  }

  /** February 29 of 2023 is March 1. */
  lemma LeapDayOccurrence2023()
    ensures Occurrence(IsoFields(2020, 2, 29), 2023) == DayNumber(2023, 2, 29)
  {
    MakeDayInYear(2023, 1, 29);
  }

  lemma LeapDayInCommonYearDays(gotchaDate: string, referenceDate: TimeValue, text: string)
    requires IsIsoDateString(gotchaDate) && ParseIsoFields(gotchaDate) == IsoFields(2020, 2, 29)
    requires Day(referenceDate) == 19358 && UtcFullYear(referenceDate) == 2023
    requires text == DateText(Date(2023, 3, 1))
    ensures NextAnniversaryDate(gotchaDate, referenceDate).Ok?
    ensures FormatIsoDate(NextAnniversaryDate(gotchaDate, referenceDate).value) == text
  {
    NextAnniversaryChoice(gotchaDate, referenceDate);
    LeapDayOccurrence2023();
    CarryDayNumbers();
    FormatsAs(NextAnniversaryDate(gotchaDate, referenceDate).value, Date(2023, 3, 1));
  }

  /** getNextAnniversaryDate('2020-02-29', 2023-01-01T00:00Z) formats as '2023-03-01'. */
  lemma LeapDayInCommonYear(gotchaDate: string, referenceDate: TimeValue)
    requires gotchaDate == "2020-02-29" && referenceDate == NewYear2023
    ensures NextAnniversaryDate(gotchaDate, referenceDate).Ok?
    ensures FormatIsoDate(NextAnniversaryDate(gotchaDate, referenceDate).value) == "2023-03-01"
  {
    LeapDayTexts();
    ParsesAs(gotchaDate, Date(2020, 2, 29));
    ReferenceDays(referenceDate);
    LeapDayInCommonYearDays(gotchaDate, referenceDate, "2023-03-01");
  }

  /** Month 0, day 0 of a year is November 30 of the year before. */
  lemma ZeroFieldOccurrences()
    ensures Occurrence(IsoFields(2020, 0, 0), 2024) == DayNumber(2023, 12, 0)
    ensures Occurrence(IsoFields(2020, 0, 0), 2025) == DayNumber(2024, 12, 0)
  {
    MakeDayCarries(2023, -1, 0);
    MakeDayInYear(2023, 11, 0);
    MakeDayCarries(2024, -1, 0);
    MakeDayInYear(2024, 11, 0);
  }

  lemma ZeroFieldsDays(gotchaDate: string, referenceDate: TimeValue, text: string)
    requires IsIsoDateString(gotchaDate) && ParseIsoFields(gotchaDate) == IsoFields(2020, 0, 0)
    requires Day(referenceDate) == 20088 && UtcFullYear(referenceDate) == 2024
    requires text == DateText(Date(2024, 11, 30))
    ensures NextAnniversaryDate(gotchaDate, referenceDate).Ok?
    ensures FormatIsoDate(NextAnniversaryDate(gotchaDate, referenceDate).value) == text
    ensures NextAnniversaryDate(gotchaDate, referenceDate).value < referenceDate
  {
    NextAnniversaryChoice(gotchaDate, referenceDate);
    ZeroFieldOccurrences();
    CarryDayNumbers();
    FormatsAs(NextAnniversaryDate(gotchaDate, referenceDate).value, Date(2024, 11, 30));
  }

  /** getNextAnniversaryDate('2020-00-00', 2024-12-31T00:00Z) formats as
      '2024-11-30', a month before the reference day: with a zero month and
      day the "next" anniversary can lie in the past. */
  lemma ZeroFieldsBeforeReference(gotchaDate: string, referenceDate: TimeValue)
    requires gotchaDate == "2020-00-00" && referenceDate == LastDayOf2024
    ensures NextAnniversaryDate(gotchaDate, referenceDate).Ok?
    ensures FormatIsoDate(NextAnniversaryDate(gotchaDate, referenceDate).value) == "2024-11-30"
    ensures NextAnniversaryDate(gotchaDate, referenceDate).value < referenceDate
  {
    ZeroFieldTexts();
    ParsesAs(gotchaDate, Date(2020, 0, 0));
    ReferenceDays(referenceDate);
    ZeroFieldsDays(gotchaDate, referenceDate, "2024-11-30");
  }

  // ---------------------------------------------------------------------
  // Date.UTC's two-digit years

  lemma TwoDigitYearReminderDays(reminderDateIso: string, gotchaDate: string, referenceDate: TimeValue, text: string)
    requires IsIsoDateString(reminderDateIso) && ParseIsoFields(reminderDateIso) == IsoFields(50, 5, 20)
    requires IsIsoDateString(gotchaDate) && Day(referenceDate) == 19844
    requires text == DateText(Date(1950, 5, 20))
    ensures var d := DescribeReminder(reminderDateIso, gotchaDate, referenceDate);
      d.Ok? && d.value.reminderDate == text && d.value.daysUntilReminder == 0
  {
    ParsedDay(reminderDateIso, IsoFields(50, 5, 20));
    CarryDayNumbers();
    FormatsAs(ParseIsoDate(reminderDateIso), Date(1950, 5, 20));
    DescribeReminderFields(reminderDateIso, gotchaDate, referenceDate);
  }

  /** describeReminder('0050-05-20', ...) reads the year 50 as 1950, as
      Date.UTC does, so the reminder is reported as 1950-05-20, long past. */
  lemma TwoDigitYearReminder(reminderDateIso: string, gotchaDate: string, referenceDate: TimeValue)
    requires reminderDateIso == "0050-05-20" && gotchaDate == "2020-05-20" && referenceDate == TestReference
    ensures var d := DescribeReminder(reminderDateIso, gotchaDate, referenceDate);
      d.Ok? && d.value.reminderDate == "1950-05-20" && d.value.daysUntilReminder == 0
  {
    TwoDigitYearTexts();
    TestDateTexts();
    ParsesAs(reminderDateIso, Date(50, 5, 20));
    ParsesAs(gotchaDate, Date(2020, 5, 20));
    ReferenceDays(referenceDate);
    TwoDigitYearReminderDays(reminderDateIso, gotchaDate, referenceDate, "1950-05-20");
  }
}
