/** Calendar arithmetic of the ECMAScript `Date` type (section 21.4 of ECMA-262,
    the proleptic Gregorian calendar), as the portal's date code uses it: the day
    overflow of MakeDay, the wall clock, the `YYYY-MM-DD` text that
    `toISOString` writes and the `Date` string parser reads, and the comparison of
    "now" against the end of a due day. Dates are (year, month 1..12, day); days
    that run past a month's end are carried into the next month one month at a
    time, so no day-number conversion is needed. */
module Calendar {
  import opened Js

  datatype Date = Date(year: int, month: int, day: int)

  predicate IsLeapYear(y: int) {
    y % 4 == 0 && (y % 100 != 0 || y % 400 == 0)
  }

  function DaysInMonth(y: int, m: int): (n: int)
    requires 1 <= m <= 12
    ensures 28 <= n <= 31
    ensures n == 31 <==> m in {1, 3, 5, 7, 8, 10, 12}
  {
    if m == 2 then (if IsLeapYear(y) then 29 else 28)
    else if m == 4 || m == 6 || m == 9 || m == 11 then 30
    else 31
  }

  predicate ValidDate(d: Date) {
    1 <= d.month <= 12 && 1 <= d.day <= DaysInMonth(d.year, d.month)
  }

  /** Calendar order: `a` is an earlier day than `b`. */
  predicate Before(a: Date, b: Date) {
    a.year < b.year
    || (a.year == b.year && (a.month < b.month || (a.month == b.month && a.day < b.day)))
  }

  /** Day `d` counted from the first of month `m` of year `y`: days past the
      month's end run into the following months, days below 1 into the
      preceding ones. This is the day part of MakeDay. */
  function Roll(y: int, m: int, d: int): (r: Date)
    requires 1 <= m <= 12
    ensures ValidDate(r)
    decreases if d < 1 then 1 - d else 0, if d < 1 then 0 else d
  {
    if d < 1 then
      var py := if m == 1 then y - 1 else y;
      var pm := if m == 1 then 12 else m - 1;
      Roll(py, pm, d + DaysInMonth(py, pm))
    else if d > DaysInMonth(y, m) then
      var ny := if m == 12 then y + 1 else y;
      var nm := if m == 12 then 1 else m + 1;
      Roll(ny, nm, d - DaysInMonth(y, m))
    else
      Date(y, m, d)
  }

  /** MakeDay(year, month, date) with a zero-based month that may lie outside
      0..11: whole years are taken out of the month first, then the day rolls. */
  function MakeDay(year: int, month0: int, date: int): (r: Date)
    ensures ValidDate(r)
  {
    Roll(year + month0 / 12, month0 % 12 + 1, date)
  }

  /** MakeDay leaves a valid date where it is. */
  lemma MakeDayOfValid(d: Date)
    requires ValidDate(d)
    ensures MakeDay(d.year, d.month - 1, d.day) == d
  {
  }

  /** Moving a valid date one month on (what `setMonth(getMonth() + 1)` asks of
      MakeDay): the same day of the following month, December rolling into
      January of the next year, and a day the following month lacks running into
      the month after it. */
  lemma {:induction false} MakeDayNextMonth(d: Date)
    requires ValidDate(d)
    ensures var ny := if d.month == 12 then d.year + 1 else d.year;
            var nm := if d.month == 12 then 1 else d.month + 1;
            var r := MakeDay(d.year, d.month, d.day);
            (d.day <= DaysInMonth(ny, nm) ==> r == Date(ny, nm, d.day))
            && (d.day > DaysInMonth(ny, nm) ==>
                  nm < 12 && r == Date(ny, nm + 1, d.day - DaysInMonth(ny, nm)))
  {
    var ny := if d.month == 12 then d.year + 1 else d.year;
    var nm := if d.month == 12 then 1 else d.month + 1;
    assert d.year + d.month / 12 == ny && d.month % 12 + 1 == nm;
    if d.day > DaysInMonth(ny, nm) {
      assert nm in {2, 4, 6, 9, 11};
      assert Roll(ny, nm, d.day) == Roll(ny, nm + 1, d.day - DaysInMonth(ny, nm));
    }
  }

  /** The day after a valid date. */
  lemma RollNextDay(d: Date)
    requires ValidDate(d)
    ensures Before(d, Roll(d.year, d.month, d.day + 1))
  {
    if d.day + 1 > DaysInMonth(d.year, d.month) {
      var ny := if d.month == 12 then d.year + 1 else d.year;
      var nm := if d.month == 12 then 1 else d.month + 1;
      assert Roll(d.year, d.month, d.day + 1) == Roll(ny, nm, 1);
    }
  }

  /** The day before a valid date. */
  lemma RollPreviousDay(d: Date)
    requires ValidDate(d)
    ensures Before(Roll(d.year, d.month, d.day - 1), d)
  {
    if d.day == 1 {
      var py := if d.month == 1 then d.year - 1 else d.year;
      var pm := if d.month == 1 then 12 else d.month - 1;
      assert Roll(d.year, d.month, 0) == Roll(py, pm, DaysInMonth(py, pm));
    }
  }

  // ---------------------------------------------------------------------------
  // The range of time values

  /** The days a `Date` can hold (8.64e15 ms either side of the epoch). The
      first and last day are taken whole; the hours a time-zone offset shifts
      across those two edges are not modelled. */
  predicate InTimeRange(d: Date) {
    !Before(d, Date(-271821, 4, 20)) && !Before(Date(275760, 9, 13), d)
  }

  // ---------------------------------------------------------------------------
  // The wall clock

  const MsPerDay: int := 86400000

  /** 23:59:59.000 as milliseconds after midnight. */
  const EndOfDayMs: int := 86399000

  /** "Now": the local calendar date, the milliseconds since local midnight, and
      `getTimezoneOffset()` in milliseconds (UTC minus local time, positive west
      of Greenwich). One fixed offset: daylight-saving changes are not modelled.
      A clock reads a year from 1 to 9998, so that the UTC date is a four-digit
      year too. */
  datatype Clock = Clock(today: Date, msOfDay: int, offsetMs: int) {
    predicate Valid() {
      ValidDate(today) && 1 <= today.year <= 9998 && 0 <= msOfDay < MsPerDay
      && -MsPerDay < offsetMs < MsPerDay
    }
  }

  /** The UTC calendar date of the local instant `ms` milliseconds after midnight
      of `date`. */
  function UtcDate(date: Date, ms: int, offsetMs: int): (r: Date)
    requires ValidDate(date)
    ensures ValidDate(r)
  {
    Roll(date.year, date.month, date.day + (ms + offsetMs) / MsPerDay)
  }

  /** The UTC date of a valid clock is its local date or a neighbouring day, so
      its year has four digits. */
  lemma UtcDateOfClock(clock: Clock)
    requires clock.Valid()
    ensures var u := UtcDate(clock.today, clock.msOfDay, clock.offsetMs);
            FourDigitYear(u) && InTimeRange(u)
  {
    var d := clock.today;
    var k := (clock.msOfDay + clock.offsetMs) / MsPerDay;
    assert -1 <= k <= 1;
    if k == 1 && d.day + 1 > DaysInMonth(d.year, d.month) {
      var ny := if d.month == 12 then d.year + 1 else d.year;
      var nm := if d.month == 12 then 1 else d.month + 1;
      assert Roll(d.year, d.month, d.day + 1) == Roll(ny, nm, 1);
    } else if k == -1 && d.day == 1 {
      var py := if d.month == 1 then d.year - 1 else d.year;
      var pm := if d.month == 1 then 12 else d.month - 1;
      assert Roll(d.year, d.month, 0) == Roll(py, pm, DaysInMonth(py, pm));
    }
  }

  /** At or west of UTC the UTC date is never earlier than the local one. */
  lemma UtcDateNotBeforeLocal(date: Date, ms: int, offsetMs: int)
    requires ValidDate(date) && 0 <= ms < MsPerDay && 0 <= offsetMs < MsPerDay
    ensures !Before(UtcDate(date, ms, offsetMs), date)
    ensures ms + offsetMs < MsPerDay ==> UtcDate(date, ms, offsetMs) == date
  {
    if ms + offsetMs >= MsPerDay {
      assert (ms + offsetMs) / MsPerDay == 1;
      RollNextDay(date);
    } else {
      assert (ms + offsetMs) / MsPerDay == 0;
    }
  }

  /** `now > new Date(<d>T23:59:59)`: the clock has passed the last whole second
      of local day `d`. Both sides are local times in one zone, so comparing the
      local calendar is comparing the time values. */
  predicate PastEndOfDay(clock: Clock, d: Date) {
    Before(d, clock.today) || (d == clock.today && clock.msOfDay > EndOfDayMs)
  }

  /** `c1` is no later than `c2` (the same zone assumed). */
  predicate NotLater(c1: Clock, c2: Clock) {
    Before(c1.today, c2.today) || (c1.today == c2.today && c1.msOfDay <= c2.msOfDay)
  }

  /** Once a day's end has passed it stays passed. */
  lemma PastEndOfDayStays(c1: Clock, c2: Clock, d: Date)
    requires NotLater(c1, c2) && PastEndOfDay(c1, d)
    ensures PastEndOfDay(c2, d)
  {
  }

  /** Being past the end of `d` means: a later calendar day, or the last
      fraction of a second of `d` itself; never a day before `d`. */
  lemma PastEndOfDayMeaning(clock: Clock, d: Date)
    requires clock.Valid() && ValidDate(d)
    ensures Before(d, clock.today) ==> PastEndOfDay(clock, d)
    ensures Before(clock.today, d) ==> !PastEndOfDay(clock, d)
    ensures clock.today == d ==> (PastEndOfDay(clock, d) <==> clock.msOfDay > EndOfDayMs)
  {
  }

  // ---------------------------------------------------------------------------
  // ISO text: what toISOString writes and what the Date parser reads

  /** The year as `toISOString` writes it: four digits for 0..9999, otherwise a
      sign and six digits. */
  function YearText(y: int): (s: string)
    requires -1000000 < y < 1000000
  {
    if 0 <= y <= 9999 then Digits(y, 4)
    else if y > 9999 then "+" + Digits(y, 6)
    else "-" + Digits(-y, 6)
  }

  /** The date part of `toISOString()`, i.e. `toISOString().split('T')[0]`. */
  function FormatIso(d: Date): (s: string)
    requires ValidDate(d) && InTimeRange(d)
  {
    YearText(d.year) + "-" + Digits(d.month, 2) + "-" + Digits(d.day, 2)
  }

  /** The year field of an ECMAScript date-time string. */
  function ParseYear(h: string): (r: Option<int>)
  {
    if |h| == 4 && AllDigits(h) then Some(DigitsValue(h))
    else if |h| == 7 && (h[0] == '+' || h[0] == '-') && AllDigits(h[1..]) && h != "-000000" then
      var v: int := DigitsValue(h[1..]);
      Some(if h[0] == '+' then v else -v)
    else None
  }

  /** The date that `new Date(s + 'T23:59:59')` lands on, or `None` for an
      Invalid Date: `s` must be `YYYY-MM-DD` (or a signed six-digit year) with
      MM in 01..12 and DD in 01..31; a day the month lacks rolls over as MakeDay
      does; the result must lie in the range of time values. */
  function ParseIsoDate(s: string): (r: Option<Date>)
    ensures r.Some? ==> ValidDate(r.value) && InTimeRange(r.value)
  {
    if |s| < 10 then None
    else
      var t := s[|s| - 6..];
      var year := ParseYear(s[..|s| - 6]);
      if year.None? || t[0] != '-' || t[3] != '-' || !AllDigits(t[1..3]) || !AllDigits(t[4..6]) then None
      else
        var m := DigitsValue(t[1..3]);
        var d := DigitsValue(t[4..6]);
        if !(1 <= m <= 12 && 1 <= d <= 31) then None
        else
          var r := Roll(year.value, m, d);
          if InTimeRange(r) then Some(r) else None
  }

  lemma {:induction false} AllZeroDigits(w: nat)
    ensures AllDigits(seq(w, _ => '0')) && DigitsValue(seq(w, _ => '0')) == 0
  {
    if w > 0 {
      AllZeroDigits(w - 1);
      assert seq(w, _ => '0')[..w - 1] == seq(w - 1, _ => '0');
    }
  }

  /** The year field reads back what `YearText` wrote. */
  lemma ParseYearText(y: int)
    requires -1000000 < y < 1000000
    ensures ParseYear(YearText(y)) == Some(y)
  {
    var h := YearText(y);
    if 0 <= y <= 9999 {
      DigitsRoundTrip(y, 4);
    } else if y > 9999 {
      DigitsRoundTrip(y, 6);
      assert h[1..] == Digits(y, 6);
    } else {
      DigitsRoundTrip(-y, 6);
      assert h[1..] == Digits(-y, 6);
      AllZeroDigits(6);
      assert h[1..] != seq(6, _ => '0');
      assert h != "-000000" by {
        assert "-000000"[1..] == seq(6, _ => '0');
      }
    }
  }

  /** The two halves of an ISO date: the year, then `-MM-DD`. */
  lemma FormatIsoHalves(d: Date)
    requires ValidDate(d) && InTimeRange(d)
    ensures var s := FormatIso(d);
            |s| >= 10 && s[..|s| - 6] == YearText(d.year)
            && s[|s| - 6..] == "-" + Digits(d.month, 2) + "-" + Digits(d.day, 2)
  {
    var h := YearText(d.year);
    var t := "-" + Digits(d.month, 2) + "-" + Digits(d.day, 2);
    assert FormatIso(d) == h + t;
  }

  /** The parser reads back every date `toISOString` writes. */
  lemma ParseFormatIso(d: Date)
    requires ValidDate(d) && InTimeRange(d)
    ensures ParseIsoDate(FormatIso(d)) == Some(d)
  {
    var s := FormatIso(d);
    FormatIsoHalves(d);
    var mm, dd := Digits(d.month, 2), Digits(d.day, 2);
    var t := s[|s| - 6..];
    assert t == "-" + mm + "-" + dd;
    assert t[0] == '-' && t[3] == '-' && t[1..3] == mm && t[4..6] == dd;
    DigitsRoundTrip(d.month, 2);
    DigitsRoundTrip(d.day, 2);
    ParseYearText(d.year);
  }

  /** The dates a portal clock writes with a four-digit year. */
  predicate FourDigitYear(d: Date) { 0 <= d.year <= 9999 }

  lemma FourDigitYearInRange(d: Date)
    requires ValidDate(d) && FourDigitYear(d)
    ensures InTimeRange(d)
  {
  }

  /** `<s> > new Date(dateStr + 'T23:59:59')`: false whenever the text does not
      parse, since every comparison with an Invalid Date is false. */
  predicate PastDue(clock: Clock, dateStr: string) {
    var d := ParseIsoDate(dateStr);
    d.Some? && PastEndOfDay(clock, d.value)
  }
}
