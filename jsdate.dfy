/** The parts of the JavaScript Date built-in that the reminder calculator
    relies on, restricted to UTC. A Date is its time value: an integer count
    of milliseconds since 1970-01-01T00:00:00Z. The operations follow the
    ECMAScript abstract operations Day, MakeDay, MakeFullYear (the two-digit
    year rule of Date.UTC) and Date.prototype.toISOString. */
module JsDate {
  import opened Calendar
  import opened Digits

  type TimeValue = int

  const MsPerDay: int := 86400000

  /** The UTC day number of a time value (floor division). */
  function Day(t: TimeValue): int {
    t / MsPerDay
  }

  /** k days after the epoch, at midnight, lies on day k. */
  lemma DayOfMidnight(k: int)
    ensures Day(k * MsPerDay) == k && (k * MsPerDay) % MsPerDay == 0
  {
  }

  /** Two midnights compare as their day numbers do. */
  lemma MidnightOrder(t1: TimeValue, t2: TimeValue)
    requires t1 % MsPerDay == 0 && t2 % MsPerDay == 0
    ensures t1 < t2 <==> Day(t1) < Day(t2)
  {
  }

  /** Moving a midnight k whole days back lands on the midnight of the day k days before. */
  lemma MidnightDaysBefore(t: TimeValue, k: int)
    requires t % MsPerDay == 0
    ensures t - k * MsPerDay == (Day(t) - k) * MsPerDay
    ensures Day(t - k * MsPerDay) == Day(t) - k
  {
  }

  /** The instant k whole days (of 86 400 000 ms) before t. */
  function DaysEarlier(t: TimeValue, k: int): TimeValue {
    t - k * MsPerDay
  }

  /** k days before a midnight is the midnight of the day k days before. */
  lemma DaysEarlierOfMidnight(t: TimeValue, k: int)
    requires t % MsPerDay == 0
    ensures DaysEarlier(t, k) % MsPerDay == 0 && Day(DaysEarlier(t, k)) == Day(t) - k
  {
    MidnightDaysBefore(t, k);
  }

  /** Date.UTC maps a year 0..99 to 1900..1999. */
  function MakeFullYear(y: int): int {
    if 0 <= y <= 99 then 1900 + y else y
  }

  /** MakeDay(year, month, date): month is a zero-based index that may lie
      outside 0..11 (it carries into the year), and date is added to the
      first of the resulting month by plain addition, so fields out of
      range roll over instead of being rejected. */
  function MakeDay(year: int, month: int, date: int): int {
    DayNumber(CarryYear(year, month), CarryMonth(month), date)
  }

  /** The year a zero-based month index lands in: whole dozens carry into the year. */
  function CarryYear(year: int, month: int): int {
    year + month / 12
  }

  /** The one-based calendar month a zero-based month index lands on. */
  function CarryMonth(month: int): int {
    month % 12 + 1
  }

  /** An in-range month index and day give exactly that civil date. */
  lemma MakeDayOfValidDate(year: int, month: int, date: int)
    requires ValidDate(Date(year, month + 1, date))
    ensures FromDayNumber(MakeDay(year, month, date)) == Date(year, month + 1, date)
  {
    assert month / 12 == 0 && month % 12 == month;
    assert MakeDay(year, month, date) == DayNumber(year, month + 1, date);
    DayNumberRoundTrip(Date(year, month + 1, date));
  }

  /** A month index 0..11 is that month of the given year, with no carry. */
  lemma MakeDayInYear(year: int, month: int, date: int)
    requires 0 <= month <= 11
    ensures MakeDay(year, month, date) == DayNumber(year, month + 1, date)
  {
    assert month / 12 == 0 && month % 12 == month;
  }

  /** Twelve months more is one year more, one day more is the next day. */
  lemma MakeDayCarries(year: int, month: int, date: int)
    ensures MakeDay(year, month + 12, date) == MakeDay(year + 1, month, date)
    ensures MakeDay(year, month, date + 1) == MakeDay(year, month, date) + 1
  {
    assert (month + 12) / 12 == month / 12 + 1;
    assert (month + 12) % 12 == month % 12;
  }

  /** A month index from 0 and a day from 1 never land before the first of the year. */
  lemma MakeDayLowerBound(year: int, month: int, date: int)
    requires month >= 0 && date >= 1
    ensures MakeDay(year, month, date) >= YearStart(year)
  {
    YearStartGrowth(year, year + month / 12);
  }

  /** Date.UTC's year rule only moves years forward, so a month index from
      0 and a day from 1 never land before the first of the given year. */
  lemma MakeDayFullYearLowerBound(year: int, month: int, date: int)
    requires month >= 0 && date >= 1
    ensures MakeDay(MakeFullYear(year), month, date) >= YearStart(year)
  {
    MakeDayLowerBound(MakeFullYear(year), month, date);
    YearStartGrowth(year, MakeFullYear(year));
  }

  /** The same month and day one year later is at least 364 days later. */
  lemma MakeDayNextYear(year: int, month: int, date: int)
    ensures MakeDay(year + 1, month, date) - MakeDay(year, month, date) >= 364
  {
    YearStartNext(year + month / 12);
    assert year + 1 + month / 12 == (year + month / 12) + 1;
  }

  lemma {:induction false} MakeDayYearMonotone(y1: int, y2: int, month: int, date: int)
    requires y1 < y2
    ensures MakeDay(y1, month, date) < MakeDay(y2, month, date)
    decreases y2 - y1
  {
    MakeDayNextYear(y1, month, date);
    if y1 + 1 < y2 {
      MakeDayYearMonotone(y1 + 1, y2, month, date);
    }
  }

  /** Math.ceil(x / k) for a positive divisor. */
  function CeilDiv(x: int, k: int): int
    requires k > 0
  {
    -((-x) / k)
  }

  function Abs(x: int): nat {
    if x < 0 then -x else x
  }

  /** toISOString writes years 0..9999 with four digits and any other year
      as a sign and six digits. */
  function IsoYear(y: int): string {
    if 0 <= y <= 9999 then PadDecimal(y, 4)
    else (if y < 0 then "-" else "+") + PadDecimal(Abs(y), 6)
  }

  /** The YYYY-MM-DD part of toISOString for the civil date c. */
  function IsoDatePart(c: Date): (s: string)
    requires ValidDate(c)
    ensures |s| >= 10
  {
    IsoYear(c.year) + "-" + PadDecimal(c.month, 2) + "-" + PadDecimal(c.day, 2)
  }

  /** The THH:mm:ss.sssZ part of toISOString for ms milliseconds into the day. */
  function IsoTimePart(ms: int): string
    requires 0 <= ms < MsPerDay
  {
    "T" + PadDecimal(ms / 3600000, 2) + ":" + PadDecimal(ms / 60000 % 60, 2)
    + ":" + PadDecimal(ms / 1000 % 60, 2) + "." + PadDecimal(ms % 1000, 3) + "Z"
  }

  /** Date.prototype.toISOString: YYYY-MM-DDTHH:mm:ss.sssZ in UTC. */
  function ToIsoString(t: TimeValue): (s: string)
    ensures |s| >= 10
  {
    var c := FromDayNumber(Day(t));
    FromDayNumberValid(Day(t));
    IsoDatePart(c) + IsoTimePart(t % MsPerDay)
  }

  /** For a year 0..9999 the date part is exactly ten characters: the
      four-digit year, the two-digit month and the two-digit day. */
  lemma IsoDatePartText(c: Date)
    requires ValidDate(c) && 0 <= c.year <= 9999
    ensures IsoDatePart(c) == PadDecimal(c.year, 4) + "-" + PadDecimal(c.month, 2) + "-" + PadDecimal(c.day, 2)
    ensures |IsoDatePart(c)| == 10
  {
    PadDecimalLength(c.year, 4);
    PadDecimalLength(c.month, 2);
    PadDecimalLength(c.day, 2);
  }

  /** For a year 0..9999 the first ten characters of toISOString are the date part. */
  lemma ToIsoStringDatePrefix(t: TimeValue)
    requires 0 <= YearOf(Day(t)) <= 9999
    ensures var c := FromDayNumber(Day(t));
      && ValidDate(c)
      && ToIsoString(t)[..10] == PadDecimal(c.year, 4) + "-" + PadDecimal(c.month, 2) + "-" + PadDecimal(c.day, 2)
  {
    var c := FromDayNumber(Day(t));
    FromDayNumberValid(Day(t));
    IsoDatePartText(c);
    var date, time := IsoDatePart(c), IsoTimePart(t % MsPerDay);
    assert ToIsoString(t) == date + time;
    assert (date + time)[..|date|] == date;
  }
}
