/** The gotcha-day anniversary and reminder calculator: validation of
    YYYY-MM-DD strings, the next yearly occurrence of an adoption date
    relative to a reference instant, reminder dates a lead time before it,
    countdown figures and the text of a reminder card. Every operation
    takes the reference instant as an argument and reads no other state. */
module Reminders {
  import opened Calendar
  import opened Digits
  import opened JsDate

  /** The errors the module throws, with the message each carries. */
  datatype Error =
    | InvalidIsoDateFormat(input: string)
    | InvalidLeadTime
    | MissingPetFields
  {
    function Message(): string {
      match this
      case InvalidIsoDateFormat(s) => "Invalid ISO date format: " + s
      case InvalidLeadTime => "daysBefore must be a non-negative integer"
      case MissingPetFields => "Pet with name and gotcha_date is required to build reminder preview"
    }
  }

  datatype Result<T> = Ok(value: T) | Err(error: Error)

  datatype Option<T> = None | Some(value: T)

  // ---------------------------------------------------------------------
  // ISO_DATE_REGEX, /^\d{4}-\d{2}-\d{2}$/

  /** One position of an anchored pattern: a decimal digit or a fixed character. */
  datatype PatternItem = AnyDigit | Literal(c: char)

  const IsoDatePattern: seq<PatternItem> :=
    [AnyDigit, AnyDigit, AnyDigit, AnyDigit, Literal('-'), AnyDigit, AnyDigit, Literal('-'), AnyDigit, AnyDigit]

  predicate ItemMatches(p: PatternItem, c: char) {
    match p
    case AnyDigit => IsDigit(c)
    case Literal(l) => c == l
  }

  /** An anchored match: the pattern covers the whole string, one character per item. */
  predicate FullMatch(p: seq<PatternItem>, s: string)
    decreases |p|
  {
    if p == [] then s == []
    else s != [] && ItemMatches(p[0], s[0]) && FullMatch(p[1..], s[1..])
  }

  lemma {:induction false} FullMatchPositions(p: seq<PatternItem>, s: string)
    ensures FullMatch(p, s) <==> |s| == |p| && forall i | 0 <= i < |p| :: ItemMatches(p[i], s[i])
    decreases |p|
  {
    if p != [] && s != [] {
      FullMatchPositions(p[1..], s[1..]);
      if |s| == |p| && forall i | 0 <= i < |p| :: ItemMatches(p[i], s[i]) {
        forall i | 0 <= i < |p| - 1 ensures ItemMatches(p[1..][i], s[1..][i]) {
          assert p[1..][i] == p[i + 1] && s[1..][i] == s[i + 1];
        }
      }
      if FullMatch(p, s) {
        forall i | 0 <= i < |p| ensures ItemMatches(p[i], s[i]) {
          if i > 0 {
            assert p[1..][i - 1] == p[i] && s[1..][i - 1] == s[i];
          }
        }
      }
    }
  }

  predicate IsIsoDateString(s: string) {
    FullMatch(IsoDatePattern, s)
  }

  /** The date check accepts exactly: four digits, '-', two digits, '-', two digits. */
  lemma IsoDateStringShape(s: string)
    ensures IsIsoDateString(s) <==>
      && |s| == 10 && s[4] == '-' && s[7] == '-'
      && AllDigits(s[..4]) && AllDigits(s[5..7]) && AllDigits(s[8..])
  {
    FullMatchPositions(IsoDatePattern, s);
    if |s| == 10 {
      var p := IsoDatePattern;
      if s[4] == '-' && s[7] == '-' && AllDigits(s[..4]) && AllDigits(s[5..7]) && AllDigits(s[8..]) {
        forall i | 0 <= i < 10 ensures ItemMatches(p[i], s[i]) {
          if i < 4 {
            assert s[..4][i] == s[i];
          } else if 5 <= i < 7 {
            assert s[5..7][i - 5] == s[i];
          } else if 8 <= i {
            assert s[8..][i - 8] == s[i];
          }
        }
      }
      if IsIsoDateString(s) {
        assert ItemMatches(p[4], s[4]) && ItemMatches(p[7], s[7]);
        forall i | 0 <= i < 4 ensures IsDigit(s[..4][i]) {
          assert ItemMatches(p[i], s[i]);
        }
        forall i | 0 <= i < 2 ensures IsDigit(s[5..7][i]) && IsDigit(s[8..][i]) {
          assert ItemMatches(p[i + 5], s[i + 5]);
          assert ItemMatches(p[i + 8], s[i + 8]);
        }
      }
    }
  }

  /** ensureValidISODate: passes a string the check accepts, fails with its input otherwise. */
  function EnsureValidIsoDate(s: string): (r: Result<()>)
    ensures r.Ok? <==> IsIsoDateString(s)
    ensures r.Err? ==> r.error == InvalidIsoDateFormat(s)
  {
    if IsIsoDateString(s) then Ok(()) else Err(InvalidIsoDateFormat(s))
  }

  /** The three numbers written in a YYYY-MM-DD string. Splitting at '-'
      and reading the fixed slices 0..4, 5..7 and 8..10 give the same
      three digit groups for every string the check accepts. */
  datatype IsoFields = IsoFields(year: int, month: int, day: int)

  function ParseIsoFields(s: string): (f: IsoFields)
    requires IsIsoDateString(s)
    ensures 0 <= f.year <= 9999 && 0 <= f.month <= 99 && 0 <= f.day <= 99
  {
    IsoDateStringShape(s);
    IsoFields(DecimalValue(s[..4]), DecimalValue(s[5..7]), DecimalValue(s[8..]))
  }

  // ---------------------------------------------------------------------
  // toUTCDate, cloneAsUTCStartOfDay, formatISODate

  /** toUTCDate(year, monthIndex, day): the instant Date.UTC builds, which
      is midnight of the day MakeDay computes (fields out of range roll over). */
  function ToUtcDate(year: int, monthIndex: int, day: int): (t: TimeValue)
    ensures t % MsPerDay == 0
    ensures Day(t) == MakeDay(MakeFullYear(year), monthIndex, day)
  {
    MakeDay(MakeFullYear(year), monthIndex, day) * MsPerDay
  }

  /** For a real calendar date in a year of at least three digits, the
      instant toUTCDate builds is midnight of exactly that date. */
  lemma ToUtcDateOfValidDate(year: int, monthIndex: int, day: int)
    requires year >= 100 && ValidDate(Date(year, monthIndex + 1, day))
    ensures FromDayNumber(Day(ToUtcDate(year, monthIndex, day))) == Date(year, monthIndex + 1, day)
  {
    MakeDayOfValidDate(year, monthIndex, day);
  }

  /** Out-of-range fields carry: month 12 is January of the next year, and
      a day past the month's end runs on into the next month. */
  lemma ToUtcDateCarries(year: int, monthIndex: int, day: int)
    requires year >= 100
    ensures ToUtcDate(year, monthIndex + 12, day) == ToUtcDate(year + 1, monthIndex, day)
    ensures ToUtcDate(year, monthIndex, day + 1) == ToUtcDate(year, monthIndex, day) + MsPerDay
  {
    MakeDayCarries(year, monthIndex, day);
  }

  /** cloneAsUTCStartOfDay: midnight UTC of the day that holds t. */
  function StartOfUtcDay(t: TimeValue): (r: TimeValue)
    ensures r % MsPerDay == 0 && r <= t < r + MsPerDay
    ensures Day(r) == Day(t)
  {
    Day(t) * MsPerDay
  }

  /** getUTCFullYear: the year that holds the UTC day of t. */
  function UtcFullYear(t: TimeValue): int {
    YearOf(Day(t))
  }

  /** t's UTC day lies within its UTC year. */
  lemma UtcFullYearBounds(t: TimeValue)
    ensures YearStart(UtcFullYear(t)) <= Day(t) < YearStart(UtcFullYear(t) + 1)
  {
    YearOfBounds(Day(t));
  }

  /** formatISODate: the first ten characters of toISOString at the start of the UTC day. */
  function FormatIsoDate(t: TimeValue): (s: string)
    ensures |s| == 10
  {
    ToIsoString(StartOfUtcDay(t))[..10]
  }

  /** The formatted date depends only on the UTC calendar day. */
  lemma FormatIsoDateOfDay(t1: TimeValue, t2: TimeValue)
    requires Day(t1) == Day(t2)
    ensures FormatIsoDate(t1) == FormatIsoDate(t2)
  {
  }

  /** In years 0..9999 the formatted date is the YYYY-MM-DD text of the UTC day. */
  lemma FormatIsoDateText(t: TimeValue)
    requires 0 <= UtcFullYear(t) <= 9999
    ensures var c := FromDayNumber(Day(t));
      && ValidDate(c)
      && FormatIsoDate(t) == PadDecimal(c.year, 4) + "-" + PadDecimal(c.month, 2) + "-" + PadDecimal(c.day, 2)
  {
    ToIsoStringDatePrefix(StartOfUtcDay(t));
  }

  /** Fields written at widths 4, 2 and 2 and joined with '-' pass the date
      check and read back as the same fields. */
  lemma IsoTextFields(year: nat, month: nat, day: nat)
    requires year <= 9999 && month <= 99 && day <= 99
    ensures var s := PadDecimal(year, 4) + "-" + PadDecimal(month, 2) + "-" + PadDecimal(day, 2);
      IsIsoDateString(s) && ParseIsoFields(s) == IsoFields(year, month, day)
  {
    var s := PadDecimal(year, 4) + "-" + PadDecimal(month, 2) + "-" + PadDecimal(day, 2);
    PadDecimalLength(year, 4);
    PadDecimalLength(month, 2);
    PadDecimalLength(day, 2);
    assert s[..4] == PadDecimal(year, 4);
    assert s[5..7] == PadDecimal(month, 2);
    assert s[8..] == PadDecimal(day, 2);
    IsoDateStringShape(s);
    DecimalValueOfPad(year, 4);
    DecimalValueOfPad(month, 2);
    DecimalValueOfPad(day, 2);
  }

  /** In years 0..9999 the formatted date passes the date check and reads back as its UTC day. */
  lemma FormatIsoDateFields(t: TimeValue)
    requires 0 <= UtcFullYear(t) <= 9999
    ensures IsIsoDateString(FormatIsoDate(t))
    ensures var c := FromDayNumber(Day(t));
      ParseIsoFields(FormatIsoDate(t)) == IsoFields(c.year, c.month, c.day)
  {
    var c := FromDayNumber(Day(t));
    FormatIsoDateText(t);
    IsoTextFields(c.year, c.month, c.day);
  }

  /** Outside years 0..9999 toISOString writes a signed six-digit year, so
      the formatted text does not pass the date check. */
  lemma FormatIsoDateExtendedYear(t: TimeValue)
    requires !(0 <= UtcFullYear(t) <= 9999)
    ensures !IsIsoDateString(FormatIsoDate(t))
  {
    var s := FormatIsoDate(t);
    assert s[0] == ToIsoString(StartOfUtcDay(t))[0];
    assert s[0] == '+' || s[0] == '-';
    IsoDateStringShape(s);
  }

  /** The instant describeReminder builds from a YYYY-MM-DD string. */
  function ParseIsoDate(s: string): (t: TimeValue)
    requires IsIsoDateString(s)
    ensures t % MsPerDay == 0
  {
    var f := ParseIsoFields(s);
    ToUtcDate(f.year, f.month - 1, f.day)
  }

  /** A formatted date (a year 100..9999) passes the date check and reads
      back as the instant's own UTC day. */
  lemma FormatIsoDateReadsBack(t: TimeValue)
    requires 100 <= UtcFullYear(t) <= 9999
    ensures IsIsoDateString(FormatIsoDate(t))
    ensures Day(ParseIsoDate(FormatIsoDate(t))) == Day(t)
  {
    var c := FromDayNumber(Day(t));
    FromDayNumberValid(Day(t));
    FormatIsoDateFields(t);
    MakeDayInYear(c.year, c.month - 1, c.day);
  }

  /** Formatting is idempotent: re-reading a formatted date (a year 100..9999)
      gives the same UTC day, and formatting that gives the same text. */
  lemma FormatIsoDateIdempotent(t: TimeValue)
    requires 100 <= UtcFullYear(t) <= 9999
    ensures IsIsoDateString(FormatIsoDate(t))
    ensures Day(ParseIsoDate(FormatIsoDate(t))) == Day(t)
    ensures FormatIsoDate(ParseIsoDate(FormatIsoDate(t))) == FormatIsoDate(t)
  {
    FormatIsoDateReadsBack(t);
    FormatIsoDateOfDay(ParseIsoDate(FormatIsoDate(t)), t);
  }

  /** The three fields of a date string, written back at widths 4, 2 and 2, give the string. */
  lemma IsoFieldsText(s: string)
    requires IsIsoDateString(s)
    ensures var f := ParseIsoFields(s);
      PadDecimal(f.year, 4) + "-" + PadDecimal(f.month, 2) + "-" + PadDecimal(f.day, 2) == s
  {
    IsoDateStringShape(s);
    PadOfDecimalValue(s[..4]);
    PadOfDecimalValue(s[5..7]);
    PadOfDecimalValue(s[8..]);
    assert s == s[..4] + "-" + s[5..7] + "-" + s[8..];
  }

  /** A canonical date string (a real date, year 100..9999) survives reading and formatting unchanged. */
  lemma ParseIsoDateRoundTrip(s: string)
    requires IsIsoDateString(s)
    requires var f := ParseIsoFields(s); f.year >= 100 && ValidDate(Date(f.year, f.month, f.day))
    ensures FormatIsoDate(ParseIsoDate(s)) == s
  {
    var f := ParseIsoFields(s);
    var t := ParseIsoDate(s);
    ToUtcDateOfValidDate(f.year, f.month - 1, f.day);
    assert f.month - 1 + 1 == f.month;
    FormatIsoDateText(t);
    IsoFieldsText(s);
  }

  // ---------------------------------------------------------------------
  // getNextAnniversaryDate

  /** toUTCDate(year, month - 1, day) for the gotcha month and day. */
  function AnniversaryInYear(f: IsoFields, year: int): TimeValue {
    ToUtcDate(year, f.month - 1, f.day)
  }

  /** The choice getNextAnniversaryDate makes for a start-of-day refStart:
      this UTC year's anniversary unless it is before refStart, else next year's. */
  function ResolveAnniversary(f: IsoFields, refStart: TimeValue): TimeValue {
    var next := AnniversaryInYear(f, UtcFullYear(refStart));
    if next < refStart then AnniversaryInYear(f, UtcFullYear(refStart) + 1) else next
  }

  /** getNextAnniversaryDate */
  function NextAnniversaryDate(gotchaDate: string, referenceDate: TimeValue): (r: Result<TimeValue>)
    ensures r.Ok? <==> IsIsoDateString(gotchaDate)
    ensures r.Err? ==> r.error == InvalidIsoDateFormat(gotchaDate)
    ensures r.Ok? ==> r.value % MsPerDay == 0
  {
    var check := EnsureValidIsoDate(gotchaDate);
    if check.Err? then Err(check.error)
    else Ok(ResolveAnniversary(ParseIsoFields(gotchaDate), StartOfUtcDay(referenceDate)))
  }

  /** The day the gotcha month and day fall on in year y (fields carrying as Date.UTC does). */
  function Occurrence(f: IsoFields, y: int): int {
    MakeDay(y, f.month - 1, f.day)
  }

  /** A month 1..12 and a day 1..31 land inside the year they are read in. */
  lemma OccurrenceInYear(f: IsoFields, y: int)
    requires 1 <= f.month <= 12 && 1 <= f.day <= 31
    ensures YearStart(y) <= Occurrence(f, y) < YearStart(y + 1)
  {
    assert (f.month - 1) / 12 == 0 && (f.month - 1) % 12 == f.month - 1;
    DaysBeforeMonthMonotone(y, f.month, 12);
    YearStartNext(y);
  }

  /** A month and day that are a real date of year y fall on exactly that date. */
  lemma OccurrenceOfValidDate(f: IsoFields, y: int)
    requires ValidDate(Date(y, f.month, f.day))
    ensures Occurrence(f, y) == DayNumber(y, f.month, f.day)
    ensures FromDayNumber(Occurrence(f, y)) == Date(y, f.month, f.day)
  {
    assert (f.month - 1) / 12 == 0 && (f.month - 1) % 12 == f.month - 1;
    DayNumberRoundTrip(Date(y, f.month, f.day));
  }

  /** The start of the UTC day of t lies on t's day and in t's year. */
  lemma StartOfUtcDayYear(t: TimeValue)
    ensures Day(StartOfUtcDay(t)) == Day(t) && UtcFullYear(StartOfUtcDay(t)) == UtcFullYear(t)
  {
  }

  /** For a midnight refStart in a year of at least three digits, the
      resolved anniversary is this year's occurrence, unless that falls
      before refStart's day, and next year's otherwise. */
  lemma ResolveChoice(f: IsoFields, refStart: TimeValue)
    requires refStart % MsPerDay == 0 && UtcFullYear(refStart) >= 100
    ensures var y := UtcFullYear(refStart);
      Day(ResolveAnniversary(f, refStart))
        == if Occurrence(f, y) < Day(refStart) then Occurrence(f, y + 1) else Occurrence(f, y)
  {
    var y := UtcFullYear(refStart);
    assert Day(AnniversaryInYear(f, y)) == Occurrence(f, y);
    assert Day(AnniversaryInYear(f, y + 1)) == Occurrence(f, y + 1);
    MidnightOrder(AnniversaryInYear(f, y), refStart);
  }

  /** No occurrence in a year before y reaches the first day of y. */
  lemma OccurrenceBeforeYear(f: IsoFields, z: int, y: int)
    requires 1 <= f.month <= 12 && 1 <= f.day <= 31
    requires z < y
    ensures Occurrence(f, z) < YearStart(y)
  {
    OccurrenceInYear(f, z);
    YearStartGrowth(z + 1, y);
  }

  /** Each later year's occurrence comes after this year's. */
  lemma OccurrenceMonotone(f: IsoFields, y: int, z: int)
    requires y < z
    ensures Occurrence(f, y) < Occurrence(f, z)
  {
    MakeDayYearMonotone(y, z, f.month - 1, f.day);
  }

  /** An occurrence on or after a day refDay of year y is no earlier than
      year y's occurrence, and no earlier than year y + 1's when year y's
      falls before refDay. */
  lemma OccurrenceNotBeforeEarlier(f: IsoFields, y: int, refDay: int, z: int)
    requires 1 <= f.month <= 12 && 1 <= f.day <= 31
    requires YearStart(y) <= refDay && Occurrence(f, z) >= refDay
    ensures Occurrence(f, y) <= Occurrence(f, z)
    ensures Occurrence(f, y) < refDay ==> Occurrence(f, y + 1) <= Occurrence(f, z)
  {
    if z < y {
      OccurrenceBeforeYear(f, z, y);
    } else if z > y {
      OccurrenceMonotone(f, y, z);
      if z > y + 1 {
        OccurrenceMonotone(f, y + 1, z);
      }
    }
  }

  /** n is the earliest day, on or after refDay, that the gotcha month and
      day fall on in any year. */
  ghost predicate FirstOccurrenceOnOrAfter(f: IsoFields, n: int, refDay: int) {
    n >= refDay && forall z :: Occurrence(f, z) >= refDay ==> n <= Occurrence(f, z)
  }

  /** Choosing this year's occurrence unless it is before refDay gives the
      earliest occurrence, in any year, on or after refDay. */
  lemma OccurrenceFirstOnOrAfter(f: IsoFields, y: int, refDay: int)
    requires 1 <= f.month <= 12 && 1 <= f.day <= 31
    requires YearStart(y) <= refDay < YearStart(y + 1)
    ensures FirstOccurrenceOnOrAfter(f, if Occurrence(f, y) < refDay then Occurrence(f, y + 1) else Occurrence(f, y), refDay)
  {
    OccurrenceInYear(f, y + 1);
    forall z | Occurrence(f, z) >= refDay
      ensures (if Occurrence(f, y) < refDay then Occurrence(f, y + 1) else Occurrence(f, y)) <= Occurrence(f, z)
    {
      OccurrenceNotBeforeEarlier(f, y, refDay, z);
    }
  }

  /** For a midnight refStart in a year of at least three digits, the
      resolved anniversary lies in refStart's year or the next, on the
      gotcha month and day of its own year. */
  lemma ResolveYear(f: IsoFields, refStart: TimeValue)
    requires 1 <= f.month <= 12 && 1 <= f.day <= 31
    requires refStart % MsPerDay == 0 && UtcFullYear(refStart) >= 100
    ensures var r := ResolveAnniversary(f, refStart);
      && (UtcFullYear(r) == UtcFullYear(refStart) || UtcFullYear(r) == UtcFullYear(refStart) + 1)
      && Day(r) == Occurrence(f, UtcFullYear(r))
  {
    AnniversaryYearOfResolved(f, refStart);
  }

  /** For a midnight refStart in a year of at least three digits, the
      resolved anniversary is the earliest occurrence on or after refStart's day. */
  lemma ResolveFirstOnOrAfter(f: IsoFields, refStart: TimeValue)
    requires 1 <= f.month <= 12 && 1 <= f.day <= 31
    requires refStart % MsPerDay == 0 && UtcFullYear(refStart) >= 100
    ensures FirstOccurrenceOnOrAfter(f, Day(ResolveAnniversary(f, refStart)), Day(refStart))
  {
    ResolveChoice(f, refStart);
    UtcFullYearBounds(refStart);
    OccurrenceFirstOnOrAfter(f, UtcFullYear(refStart), Day(refStart));
  }

  /** The next anniversary is the earliest occurrence of the gotcha month
      and day on or after the reference day; it is that month and day of
      its own UTC year, which is the reference year or the one after. */
  lemma NextAnniversaryIsFirstOnOrAfter(gotchaDate: string, referenceDate: TimeValue)
    requires IsIsoDateString(gotchaDate)
    requires 1 <= ParseIsoFields(gotchaDate).month <= 12 && 1 <= ParseIsoFields(gotchaDate).day <= 31
    requires UtcFullYear(referenceDate) >= 100
    ensures var r := NextAnniversaryDate(gotchaDate, referenceDate);
      var f := ParseIsoFields(gotchaDate);
      var y := UtcFullYear(referenceDate);
      && r.Ok?
      && (UtcFullYear(r.value) == y || UtcFullYear(r.value) == y + 1)
      && Day(r.value) == Occurrence(f, UtcFullYear(r.value))
      && FirstOccurrenceOnOrAfter(f, Day(r.value), Day(referenceDate))
  {
    StartOfUtcDayYear(referenceDate);
    ResolveYear(ParseIsoFields(gotchaDate), StartOfUtcDay(referenceDate));
    ResolveFirstOnOrAfter(ParseIsoFields(gotchaDate), StartOfUtcDay(referenceDate));
  }

  /** An anniversary that falls on the reference day is that day, not a year later. */
  lemma NextAnniversaryOnReferenceDay(gotchaDate: string, referenceDate: TimeValue)
    requires IsIsoDateString(gotchaDate)
    requires UtcFullYear(referenceDate) >= 100
    requires Occurrence(ParseIsoFields(gotchaDate), UtcFullYear(referenceDate)) == Day(referenceDate)
    ensures NextAnniversaryDate(gotchaDate, referenceDate) == Ok(StartOfUtcDay(referenceDate))
  {
    StartOfUtcDayYear(referenceDate);
    ResolveChoice(ParseIsoFields(gotchaDate), StartOfUtcDay(referenceDate));
    var r := NextAnniversaryDate(gotchaDate, referenceDate).value;
    assert Day(r) == Day(referenceDate);
    assert r == Day(r) * MsPerDay;
  }

  /** With a month and day of at least 1, next year's occurrence lies after
      every day of this year. */
  lemma NextYearOccurrenceAfter(f: IsoFields, y: int, refDay: int)
    requires f.month >= 1 && f.day >= 1
    requires refDay < YearStart(y + 1)
    ensures Day(AnniversaryInYear(f, y + 1)) > refDay
  {
    MakeDayFullYearLowerBound(y + 1, f.month - 1, f.day);
  }

  /** With a month and day of at least 1, the anniversary in the year after
      a midnight refStart's year comes after refStart. */
  lemma NextYearAnniversaryAfter(f: IsoFields, refStart: TimeValue)
    requires f.month >= 1 && f.day >= 1
    requires refStart % MsPerDay == 0
    ensures AnniversaryInYear(f, UtcFullYear(refStart) + 1) > refStart
  {
    YearOfBounds(Day(refStart));
    NextYearOccurrenceAfter(f, UtcFullYear(refStart), Day(refStart));
    MidnightOrder(refStart, AnniversaryInYear(f, UtcFullYear(refStart) + 1));
  }

  /** For a midnight refStart and a month and day of at least 1, the
      resolved anniversary is never before refStart. */
  lemma ResolveNotBefore(f: IsoFields, refStart: TimeValue)
    requires f.month >= 1 && f.day >= 1
    requires refStart % MsPerDay == 0
    ensures ResolveAnniversary(f, refStart) >= refStart
  {
    NextYearAnniversaryAfter(f, refStart);
  }

  /** The next anniversary is never before the start of the reference day
      when the gotcha month and day are both at least 1 (any reference
      year, and month or day fields past the calendar's range included). */
  lemma NextAnniversaryNotBeforeReference(gotchaDate: string, referenceDate: TimeValue)
    requires IsIsoDateString(gotchaDate)
    requires ParseIsoFields(gotchaDate).month >= 1 && ParseIsoFields(gotchaDate).day >= 1
    ensures NextAnniversaryDate(gotchaDate, referenceDate).Ok?
    ensures NextAnniversaryDate(gotchaDate, referenceDate).value >= StartOfUtcDay(referenceDate)
  {
    ResolveNotBefore(ParseIsoFields(gotchaDate), StartOfUtcDay(referenceDate));
  }

  /** For a reference day in year y and a month and day that are a real
      date in y and in y + 1, choosing this year's occurrence unless it is
      before the reference day gives that month and day in year y when they
      are not before the reference day's month and day, and in y + 1 otherwise. */
  lemma RolloverChoice(f: IsoFields, y: int, refDay: int)
    requires FromDayNumber(refDay).year == y
    requires ValidDate(Date(y, f.month, f.day)) && ValidDate(Date(y + 1, f.month, f.day))
    ensures var today := FromDayNumber(refDay);
      var rolled := f.month < today.month || (f.month == today.month && f.day < today.day);
      var n := if Occurrence(f, y) < refDay then Occurrence(f, y + 1) else Occurrence(f, y);
      FromDayNumber(n) == Date(if rolled then y + 1 else y, f.month, f.day)
  {
    var today := FromDayNumber(refDay);
    FromDayNumberValid(refDay);
    OccurrenceOfValidDate(f, y);
    OccurrenceOfValidDate(f, y + 1);
    DayNumberOrderInYear(y, f.month, f.day, today.month, today.day);
  }

  /** For a midnight refStart and a month and day that are a real date in
      refStart's year and in the next, the resolved anniversary is that date
      in the same year unless the month and day come before refStart's, and
      in the next year otherwise. */
  lemma ResolveRollover(f: IsoFields, refStart: TimeValue)
    requires refStart % MsPerDay == 0
    requires var y := UtcFullYear(refStart);
      y >= 100 && ValidDate(Date(y, f.month, f.day)) && ValidDate(Date(y + 1, f.month, f.day))
    ensures var today := FromDayNumber(Day(refStart));
      var rolled := f.month < today.month || (f.month == today.month && f.day < today.day);
      FromDayNumber(Day(ResolveAnniversary(f, refStart)))
        == Date(if rolled then today.year + 1 else today.year, f.month, f.day)
  {
    ResolveChoice(f, refStart);
    RolloverChoice(f, UtcFullYear(refStart), Day(refStart));
  }

  /** A gotcha month and day that are a real date in both the reference
      year and the next resolve to that month and day: this year's when it
      is not before the reference month and day, next year's otherwise. */
  lemma NextAnniversaryRollover(gotchaDate: string, referenceDate: TimeValue)
    requires IsIsoDateString(gotchaDate)
    requires var f := ParseIsoFields(gotchaDate); var y := UtcFullYear(referenceDate);
      y >= 100 && ValidDate(Date(y, f.month, f.day)) && ValidDate(Date(y + 1, f.month, f.day))
    ensures var f := ParseIsoFields(gotchaDate);
      var today := FromDayNumber(Day(referenceDate));
      var rolled := f.month < today.month || (f.month == today.month && f.day < today.day);
      FromDayNumber(Day(NextAnniversaryDate(gotchaDate, referenceDate).value))
        == Date(if rolled then today.year + 1 else today.year, f.month, f.day)
  {
    StartOfUtcDayYear(referenceDate);
    ResolveRollover(ParseIsoFields(gotchaDate), StartOfUtcDay(referenceDate));
  }

  /** February 29 falls on February 29 in a leap year and on March 1 otherwise. */
  lemma LeapDayOccurrence(f: IsoFields, z: int)
    requires f.month == 2 && f.day == 29
    ensures FromDayNumber(Occurrence(f, z)) == if IsLeapYear(z) then Date(z, 2, 29) else Date(z, 3, 1)
  {
    assert Occurrence(f, z) == DayNumber(z, 2, 29);
    if IsLeapYear(z) {
      DayNumberRoundTrip(Date(z, 2, 29));
    } else {
      assert DayNumber(z, 2, 29) == DayNumber(z, 3, 1);
      DayNumberRoundTrip(Date(z, 3, 1));
    }
  }

  /** For a midnight refStart in a year of at least three digits, a
      February 29 anniversary resolves into refStart's year or the next, to
      February 29 in a leap year and March 1 otherwise. */
  lemma ResolveLeapDay(f: IsoFields, refStart: TimeValue)
    requires f.month == 2 && f.day == 29
    requires refStart % MsPerDay == 0 && UtcFullYear(refStart) >= 100
    ensures var c := FromDayNumber(Day(ResolveAnniversary(f, refStart)));
      var y := UtcFullYear(refStart);
      && (c.year == y || c.year == y + 1)
      && c == (if IsLeapYear(c.year) then Date(c.year, 2, 29) else Date(c.year, 3, 1))
  {
    var y := UtcFullYear(refStart);
    ResolveChoice(f, refStart);
    if Occurrence(f, y) < Day(refStart) {
      LeapDayOccurrence(f, y + 1);
    } else {
      LeapDayOccurrence(f, y);
    }
  }

  /** A February 29 gotcha date resolves to February 29 in a leap year and
      to March 1 in a common year (Date.UTC rolls the day over). */
  lemma NextAnniversaryLeapDay(gotchaDate: string, referenceDate: TimeValue)
    requires IsIsoDateString(gotchaDate)
    requires ParseIsoFields(gotchaDate).month == 2 && ParseIsoFields(gotchaDate).day == 29
    requires UtcFullYear(referenceDate) >= 100
    ensures var c := FromDayNumber(Day(NextAnniversaryDate(gotchaDate, referenceDate).value));
      var y := UtcFullYear(referenceDate);
      && (c.year == y || c.year == y + 1)
      && c == (if IsLeapYear(c.year) then Date(c.year, 2, 29) else Date(c.year, 3, 1))
  {
    StartOfUtcDayYear(referenceDate);
    ResolveLeapDay(ParseIsoFields(gotchaDate), StartOfUtcDay(referenceDate));
  }

  // ---------------------------------------------------------------------
  // calculateReminderDate

  /** Number.isInteger(x) && x >= 0 for a finite number x. */
  predicate IsNonNegativeInteger(x: real) {
    x.Floor as real == x && x >= 0.0
  }

  /** calculateReminderDate: the lead time is checked before the date. */
  function CalculateReminderDate(gotchaDate: string, daysBefore: real, referenceDate: TimeValue): (r: Result<string>)
    ensures !IsNonNegativeInteger(daysBefore) ==> r == Err(InvalidLeadTime)
    ensures IsNonNegativeInteger(daysBefore) ==> (r.Ok? <==> IsIsoDateString(gotchaDate))
    ensures IsNonNegativeInteger(daysBefore) && r.Err? ==> r.error == InvalidIsoDateFormat(gotchaDate)
  {
    if !IsNonNegativeInteger(daysBefore) then Err(InvalidLeadTime)
    else
      match NextAnniversaryDate(gotchaDate, referenceDate)
      case Err(e) => Err(e)
      case Ok(next) => Ok(FormatIsoDate(DaysEarlier(next, daysBefore.Floor)))
  }

  /** For a valid lead time and gotcha date the reminder is the formatted
      instant daysBefore whole days before the next anniversary, and that
      instant lies on the UTC day that many days before the anniversary's day. */
  lemma CalculateReminderDateDay(gotchaDate: string, daysBefore: real, referenceDate: TimeValue)
    requires IsNonNegativeInteger(daysBefore) && IsIsoDateString(gotchaDate)
    ensures var next := NextAnniversaryDate(gotchaDate, referenceDate).value;
      && daysBefore.Floor >= 0
      && CalculateReminderDate(gotchaDate, daysBefore, referenceDate) == Ok(FormatIsoDate(DaysEarlier(next, daysBefore.Floor)))
      && Day(DaysEarlier(next, daysBefore.Floor)) == Day(next) - daysBefore.Floor
  {
    DaysEarlierOfMidnight(NextAnniversaryDate(gotchaDate, referenceDate).value, daysBefore.Floor);
  }

  /** Text that formatISODate wrote for the instant k whole days before a
      midnight, in a year 100..9999, is a date string that reads back as the
      day k days before that midnight's day and is already in the form
      formatISODate writes. */
  lemma DaysBeforeMidnightRoundTrip(s: string, next: TimeValue, k: int)
    requires next % MsPerDay == 0
    requires s == FormatIsoDate(DaysEarlier(next, k)) && 100 <= UtcFullYear(DaysEarlier(next, k)) <= 9999
    ensures IsIsoDateString(s) && Day(ParseIsoDate(s)) == Day(next) - k && FormatIsoDate(ParseIsoDate(s)) == s
  {
    DaysEarlierOfMidnight(next, k);
    FormatIsoDateIdempotent(DaysEarlier(next, k));
  }

  /** The reminder text names the day exactly daysBefore days before the
      next anniversary: it is a date string, read back it is that day, and
      it is already in the form formatISODate writes (for reminders in a
      year 100..9999). */
  lemma ReminderDateIsLeadDaysBefore(gotchaDate: string, daysBefore: real, referenceDate: TimeValue, reminder: string)
    requires IsNonNegativeInteger(daysBefore) && IsIsoDateString(gotchaDate)
    requires 100 <= UtcFullYear(DaysEarlier(NextAnniversaryDate(gotchaDate, referenceDate).value, daysBefore.Floor)) <= 9999
    requires CalculateReminderDate(gotchaDate, daysBefore, referenceDate) == Ok(reminder)
    ensures IsIsoDateString(reminder)
    ensures Day(ParseIsoDate(reminder)) == Day(NextAnniversaryDate(gotchaDate, referenceDate).value) - daysBefore.Floor
    ensures FormatIsoDate(ParseIsoDate(reminder)) == reminder
  {
    DaysBeforeMidnightRoundTrip(reminder, NextAnniversaryDate(gotchaDate, referenceDate).value, daysBefore.Floor);
  }

  // ---------------------------------------------------------------------
  // getYearsWithFamily

  function Max(a: int, b: int): int {
    if a >= b then a else b
  }

  /** The year getYearsWithFamily resolves the anniversary to for a start-of-day refStart. */
  function AnniversaryYear(f: IsoFields, refStart: TimeValue): int {
    var thisYear := AnniversaryInYear(f, UtcFullYear(refStart));
    if thisYear < refStart then UtcFullYear(refStart) + 1 else UtcFullYear(refStart)
  }

  /** getYearsWithFamily: the resolved anniversary year minus the gotcha
      year, and never negative. */
  function YearsWithFamily(gotchaDate: string, referenceDate: TimeValue): (r: Result<int>)
    ensures r.Ok? <==> IsIsoDateString(gotchaDate)
    ensures r.Err? ==> r.error == InvalidIsoDateFormat(gotchaDate)
    ensures r.Ok? ==> r.value >= 0
  {
    var check := EnsureValidIsoDate(gotchaDate);
    if check.Err? then Err(check.error)
    else
      var f := ParseIsoFields(gotchaDate);
      Ok(Max(AnniversaryYear(f, StartOfUtcDay(referenceDate)) - f.year, 0))
  }

  /** For a midnight refStart, the resolved year is the UTC year of the resolved anniversary. */
  lemma AnniversaryYearOfResolved(f: IsoFields, refStart: TimeValue)
    requires 1 <= f.month <= 12 && 1 <= f.day <= 31
    requires refStart % MsPerDay == 0 && UtcFullYear(refStart) >= 100
    ensures AnniversaryYear(f, refStart) == UtcFullYear(ResolveAnniversary(f, refStart))
  {
    var z := AnniversaryYear(f, refStart);
    assert Day(ResolveAnniversary(f, refStart)) == Day(AnniversaryInYear(f, z));
    assert Day(AnniversaryInYear(f, z)) == Occurrence(f, z);
    OccurrenceInYear(f, z);
    YearOfUnique(Occurrence(f, z), z);
  }

  /** The years counted are those up to the next anniversary's UTC year. */
  lemma YearsWithFamilyCountsToNextAnniversary(gotchaDate: string, referenceDate: TimeValue)
    requires IsIsoDateString(gotchaDate)
    requires 1 <= ParseIsoFields(gotchaDate).month <= 12 && 1 <= ParseIsoFields(gotchaDate).day <= 31
    requires UtcFullYear(referenceDate) >= 100
    ensures YearsWithFamily(gotchaDate, referenceDate) ==
      Ok(Max(UtcFullYear(NextAnniversaryDate(gotchaDate, referenceDate).value) - ParseIsoFields(gotchaDate).year, 0))
  {
    StartOfUtcDayYear(referenceDate);
    AnniversaryYearOfResolved(ParseIsoFields(gotchaDate), StartOfUtcDay(referenceDate));
  }

  // ---------------------------------------------------------------------
  // describeReminder

  datatype ReminderSummary = ReminderSummary(
    reminderDate: string,
    nextAnniversary: string,
    daysUntilReminder: int,
    daysUntilAnniversary: int,
    leadTimeDays: int,
    yearsWithFamily: int)

  /** Math.max(0, Math.ceil((later - earlier) / MS_PER_DAY)) */
  function DaysBetween(earlier: TimeValue, later: TimeValue): int {
    Max(0, CeilDiv(later - earlier, MsPerDay))
  }

  /** Between two midnights the day count is the exact difference of day numbers, floored at 0. */
  lemma DaysBetweenMidnights(earlier: TimeValue, later: TimeValue)
    requires earlier % MsPerDay == 0 && later % MsPerDay == 0
    ensures DaysBetween(earlier, later) == Max(0, Day(later) - Day(earlier))
  {
    assert later - earlier == (Day(later) - Day(earlier)) * MsPerDay;
  }

  /** describeReminder: the reminder string is checked before the gotcha date. */
  function DescribeReminder(reminderDateIso: string, gotchaDate: string, referenceDate: TimeValue): (r: Result<ReminderSummary>)
    ensures !IsIsoDateString(reminderDateIso) ==> r == Err(InvalidIsoDateFormat(reminderDateIso))
    ensures IsIsoDateString(reminderDateIso) && !IsIsoDateString(gotchaDate) ==> r == Err(InvalidIsoDateFormat(gotchaDate))
    ensures r.Ok? <==> IsIsoDateString(reminderDateIso) && IsIsoDateString(gotchaDate)
  {
    var checkReminder := EnsureValidIsoDate(reminderDateIso);
    if checkReminder.Err? then Err(checkReminder.error)
    else
      var checkGotcha := EnsureValidIsoDate(gotchaDate);
      if checkGotcha.Err? then Err(checkGotcha.error)
      else
        var refStart := StartOfUtcDay(referenceDate);
        var reminderDate := ParseIsoDate(reminderDateIso);
        var nextAnniversary := NextAnniversaryDate(gotchaDate, referenceDate).value;
        Ok(ReminderSummary(
          FormatIsoDate(reminderDate),
          FormatIsoDate(nextAnniversary),
          DaysBetween(refStart, reminderDate),
          DaysBetween(refStart, nextAnniversary),
          DaysBetween(reminderDate, nextAnniversary),
          YearsWithFamily(gotchaDate, referenceDate).value))
  }

  /** The summary's counts are whole-day differences between UTC days: from
      the reference day to the reminder, from the reference day to the next
      anniversary and from the reminder to the anniversary, each floored at 0. */
  lemma DescribeReminderFields(reminderDateIso: string, gotchaDate: string, referenceDate: TimeValue)
    requires IsIsoDateString(reminderDateIso) && IsIsoDateString(gotchaDate)
    ensures var r := DescribeReminder(reminderDateIso, gotchaDate, referenceDate);
      var reminder := ParseIsoDate(reminderDateIso);
      var next := NextAnniversaryDate(gotchaDate, referenceDate).value;
      var today := Day(referenceDate);
      && r.Ok?
      && r.value.reminderDate == FormatIsoDate(reminder)
      && r.value.nextAnniversary == FormatIsoDate(next)
      && r.value.daysUntilReminder == Max(0, Day(reminder) - today)
      && r.value.daysUntilAnniversary == Max(0, Day(next) - today)
      && r.value.leadTimeDays == Max(0, Day(next) - Day(reminder))
      && r.value.yearsWithFamily == YearsWithFamily(gotchaDate, referenceDate).value
  {
    var refStart := StartOfUtcDay(referenceDate);
    var reminder := ParseIsoDate(reminderDateIso);
    var next := NextAnniversaryDate(gotchaDate, referenceDate).value;
    DaysBetweenMidnights(refStart, reminder);
    DaysBetweenMidnights(refStart, next);
    DaysBetweenMidnights(reminder, next);
  }

  /** All four counts of a summary are non-negative. */
  lemma DescribeReminderNonNegative(reminderDateIso: string, gotchaDate: string, referenceDate: TimeValue)
    requires DescribeReminder(reminderDateIso, gotchaDate, referenceDate).Ok?
    ensures var s := DescribeReminder(reminderDateIso, gotchaDate, referenceDate).value;
      s.daysUntilReminder >= 0 && s.daysUntilAnniversary >= 0 && s.leadTimeDays >= 0 && s.yearsWithFamily >= 0
  {
  }

  lemma MaxOfShift(a: int, lead: nat)
    ensures Max(0, a - lead) == Max(0, Max(0, a) - lead)
  {
  }

  /** A canonical reminder string for the day `lead` days before the next
      anniversary next is described with that string, that lead time, and a
      countdown to it that is the anniversary countdown less `lead`. */
  lemma DescribeReminderLeadDaysBefore(reminderDateIso: string, gotchaDate: string, referenceDate: TimeValue, lead: nat)
    requires IsIsoDateString(reminderDateIso) && IsIsoDateString(gotchaDate)
    requires Day(ParseIsoDate(reminderDateIso)) == Day(NextAnniversaryDate(gotchaDate, referenceDate).value) - lead
    requires FormatIsoDate(ParseIsoDate(reminderDateIso)) == reminderDateIso
    ensures var d := DescribeReminder(reminderDateIso, gotchaDate, referenceDate);
      var next := NextAnniversaryDate(gotchaDate, referenceDate).value;
      && d.Ok?
      && d.value.reminderDate == reminderDateIso
      && d.value.nextAnniversary == FormatIsoDate(next)
      && d.value.leadTimeDays == lead
      && d.value.daysUntilReminder == Max(0, Day(next) - lead - Day(referenceDate))
      && d.value.daysUntilReminder == Max(0, d.value.daysUntilAnniversary - lead)
  {
    DescribeReminderFields(reminderDateIso, gotchaDate, referenceDate);
    MaxOfShift(Day(NextAnniversaryDate(gotchaDate, referenceDate).value) - Day(referenceDate), lead);
  }

  /** Describing the reminder that calculateReminderDate schedules with a
      lead time of daysBefore gives back the same reminder text and that
      lead time, and a countdown to the reminder that is the number of days
      from the reference day to the anniversary's day less the lead time
      (floored at 0). */
  lemma DescribeCalculatedReminder(gotchaDate: string, daysBefore: real, referenceDate: TimeValue, reminder: string)
    requires IsNonNegativeInteger(daysBefore) && IsIsoDateString(gotchaDate)
    requires 100 <= UtcFullYear(DaysEarlier(NextAnniversaryDate(gotchaDate, referenceDate).value, daysBefore.Floor)) <= 9999
    requires CalculateReminderDate(gotchaDate, daysBefore, referenceDate) == Ok(reminder)
    ensures var d := DescribeReminder(reminder, gotchaDate, referenceDate);
      && d.Ok?
      && d.value.reminderDate == reminder
      && d.value.nextAnniversary == FormatIsoDate(NextAnniversaryDate(gotchaDate, referenceDate).value)
      && d.value.leadTimeDays == daysBefore.Floor
      && d.value.daysUntilReminder
         == Max(0, Day(NextAnniversaryDate(gotchaDate, referenceDate).value) - daysBefore.Floor - Day(referenceDate))
  {
    ReminderDateIsLeadDaysBefore(gotchaDate, daysBefore, referenceDate, reminder);
    DescribeReminderLeadDaysBefore(reminder, gotchaDate, referenceDate, daysBefore.Floor);
  }

  // ---------------------------------------------------------------------
  // createReminderPreview, getDefaultReminderLeadTimes

  /** A pet record as the preview reads it. An empty string stands for a
      field that is missing or empty: both are falsy in the source. */
  datatype Pet = Pet(id: string, name: string, gotchaDate: string, profilePhotoUrl: string)

  /** The pet sub-object copied into a preview; a falsy photo URL becomes null. */
  datatype PetCard = PetCard(id: string, name: string, gotchaDate: string, profilePhotoUrl: Option<string>)

  datatype ReminderPreview = ReminderPreview(
    summary: ReminderSummary,
    pet: PetCard,
    headline: string,
    callToAction: string)

  /** `${n} day${n === 1 ? '' : 's'}` */
  function DaysPhrase(n: int): (s: string)
    ensures |s| >= 5
  {
    IntToString(n) + " day" + (if n == 1 then "" else "s")
  }

  /** The phrase is singular ("day") exactly when n is 1. */
  lemma DaysPhraseSingular(n: int)
    ensures DaysPhrase(n)[|DaysPhrase(n)| - 1] == 'y' <==> n == 1
  {
  }

  /** Different counts give different phrases, so the text determines the count. */
  lemma DaysPhraseInjective(a: int, b: int)
    ensures DaysPhrase(a) == DaysPhrase(b) <==> a == b
  {
    if DaysPhrase(a) == DaysPhrase(b) {
      DaysPhraseSingular(a);
      DaysPhraseSingular(b);
      var k := if a == 1 then 4 else 5;
      assert DaysPhrase(a)[..|DaysPhrase(a)| - k] == IntToString(a);
      assert DaysPhrase(b)[..|DaysPhrase(b)| - k] == IntToString(b);
      IntToStringInjective(a, b);
    }
  }

  /** The headline of a reminder card: the pet's name and the anniversary countdown. */
  function Headline(name: string, daysUntilAnniversary: int): string {
    name + "'s gotcha day is in " + DaysPhrase(daysUntilAnniversary) + "!"
  }

  /** For one pet, the headline names the countdown unambiguously. */
  lemma HeadlineDeterminesCount(name: string, a: int, b: int)
    ensures Headline(name, a) == Headline(name, b) <==> a == b
  {
    if Headline(name, a) == Headline(name, b) {
      var k := |name + "'s gotcha day is in "|;
      assert Headline(name, a)[k..|Headline(name, a)| - 1] == DaysPhrase(a);
      assert Headline(name, b)[k..|Headline(name, b)| - 1] == DaysPhrase(b);
      DaysPhraseInjective(a, b);
    }
  }

  function CallToAction(name: string, s: ReminderSummary): string {
    if s.daysUntilReminder == 0 then "Celebrate today with a new post about " + name + "!"
    else "Schedule a celebration post in " + DaysPhrase(s.leadTimeDays) + "."
  }

  /** The call to action celebrates today exactly when the reminder is due, and cites the lead time otherwise. */
  lemma CallToActionCases(name: string, s: ReminderSummary)
    ensures var text := CallToAction(name, s);
      && (s.daysUntilReminder == 0 <==> text == "Celebrate today with a new post about " + name + "!")
      && (s.daysUntilReminder != 0 <==> |text| > 31 && text[..31] == "Schedule a celebration post in " && text[31..] == DaysPhrase(s.leadTimeDays) + ".")
  {
    var text := CallToAction(name, s);
    var celebrate := "Celebrate today with a new post about " + name + "!";
    if s.daysUntilReminder == 0 {
      assert text == celebrate;
      assert text[0] == 'C';
      assert text[..31][0] == 'C';
      assert "Schedule a celebration post in "[0] == 'S';
    } else {
      assert text[0] == 'S' && celebrate[0] == 'C';
    }
  }

  /** createReminderPreview: a missing pet, name or gotcha date is rejected
      first, then the errors of describeReminder pass through. */
  function CreateReminderPreview(pet: Option<Pet>, reminderDateIso: string, referenceDate: TimeValue): (r: Result<ReminderPreview>)
    ensures pet.None? || pet.value.name == "" || pet.value.gotchaDate == "" ==> r == Err(MissingPetFields)
    ensures pet.Some? && pet.value.name != "" && pet.value.gotchaDate != "" ==>
      var d := DescribeReminder(reminderDateIso, pet.value.gotchaDate, referenceDate);
      && (r.Ok? <==> d.Ok?)
      && (r.Err? ==> r.error == d.error)
  {
    if pet.None? || pet.value.name == "" || pet.value.gotchaDate == "" then Err(MissingPetFields)
    else
      var p := pet.value;
      match DescribeReminder(reminderDateIso, p.gotchaDate, referenceDate)
      case Err(e) => Err(e)
      case Ok(summary) =>
        Ok(ReminderPreview(
          summary,
          PetCard(p.id, p.name, p.gotchaDate, if p.profilePhotoUrl == "" then None else Some(p.profilePhotoUrl)),
          Headline(p.name, summary.daysUntilAnniversary),
          CallToAction(p.name, summary)))
  }

  /** A preview carries the summary of describeReminder, the pet's id, name
      and gotcha date, its photo URL or null when it has none, a headline
      with the days until the anniversary and the call to action. */
  lemma PreviewContents(pet: Pet, reminderDateIso: string, referenceDate: TimeValue)
    requires pet.name != "" && pet.gotchaDate != ""
    requires DescribeReminder(reminderDateIso, pet.gotchaDate, referenceDate).Ok?
    ensures var r := CreateReminderPreview(Some(pet), reminderDateIso, referenceDate);
      var d := DescribeReminder(reminderDateIso, pet.gotchaDate, referenceDate).value;
      && r.Ok?
      && r.value.summary == d
      && r.value.pet.id == pet.id
      && r.value.pet.name == pet.name
      && r.value.pet.gotchaDate == pet.gotchaDate
      && (r.value.pet.profilePhotoUrl.None? <==> pet.profilePhotoUrl == "")
      && (r.value.pet.profilePhotoUrl.Some? ==> r.value.pet.profilePhotoUrl.value == pet.profilePhotoUrl)
      && r.value.headline == Headline(pet.name, d.daysUntilAnniversary)
      && r.value.callToAction == CallToAction(pet.name, d)
  {
  }

  /** A preview whose summary is not yet due cites the summary's lead time. */
  lemma PreviewCitesLeadTime(pet: Pet, reminderDateIso: string, referenceDate: TimeValue)
    requires pet.name != "" && pet.gotchaDate != ""
    requires DescribeReminder(reminderDateIso, pet.gotchaDate, referenceDate).Ok?
    requires DescribeReminder(reminderDateIso, pet.gotchaDate, referenceDate).value.daysUntilReminder != 0
    ensures var r := CreateReminderPreview(Some(pet), reminderDateIso, referenceDate);
      var d := DescribeReminder(reminderDateIso, pet.gotchaDate, referenceDate).value;
      r.Ok? && r.value.callToAction == "Schedule a celebration post in " + DaysPhrase(d.leadTimeDays) + "."
  {
    PreviewContents(pet, reminderDateIso, referenceDate);
  }

  /** A preview of the reminder that calculateReminderDate schedules with a
      lead time of daysBefore, when it is not yet due, cites exactly that
      lead time. */
  lemma PreviewOfCalculatedReminder(pet: Pet, daysBefore: real, referenceDate: TimeValue, reminder: string)
    requires pet.name != "" && IsNonNegativeInteger(daysBefore) && IsIsoDateString(pet.gotchaDate)
    requires 100 <= UtcFullYear(DaysEarlier(NextAnniversaryDate(pet.gotchaDate, referenceDate).value, daysBefore.Floor)) <= 9999
    requires CalculateReminderDate(pet.gotchaDate, daysBefore, referenceDate) == Ok(reminder)
    requires Day(NextAnniversaryDate(pet.gotchaDate, referenceDate).value) - daysBefore.Floor > Day(referenceDate)
    ensures var p := CreateReminderPreview(Some(pet), reminder, referenceDate);
      && p.Ok?
      && p.value.callToAction == "Schedule a celebration post in " + DaysPhrase(daysBefore.Floor) + "."
  {
    ReminderDateIsLeadDaysBefore(pet.gotchaDate, daysBefore, referenceDate, reminder);
    DescribeReminderLeadDaysBefore(reminder, pet.gotchaDate, referenceDate, daysBefore.Floor);
    PreviewCitesLeadTime(pet, reminder, referenceDate);
  }

  /** getDefaultReminderLeadTimes: three lead times, largest first, each
      inside the 0..180 days that reminder scheduling accepts. */
  function DefaultReminderLeadTimes(): (r: seq<int>)
    ensures |r| == 3
    ensures forall i, j | 0 <= i < j < |r| :: r[i] > r[j]
    ensures forall i | 0 <= i < |r| :: 1 <= r[i] <= 180 && IsNonNegativeInteger(r[i] as real)
  {
    [14, 7, 1]
  }
}
