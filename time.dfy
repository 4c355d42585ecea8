/** Backend/Helpers/Time.js: `CustomDate`, a holder of one calendar date
    with formatting and day-granularity comparisons. A JavaScript `Date`
    is modelled by the local-time fields its getters return. */
module Time {
  import opened Wrappers
  import opened Text

  type Month0 = m: int | 0 <= m < 12    // getMonth(): zero-based
  type Day = d: int | 1 <= d <= 31 witness 1
  type Hour = h: int | 0 <= h < 24
  type Minute = m: int | 0 <= m < 60
  type Second = s: int | 0 <= s < 60

  /** The fields of a `Date` as getFullYear, getMonth, getDate, getHours,
      getMinutes and getSeconds report them. */
  datatype DateTime = DateTime(
    year: int, month0: Month0, day: Day,
    hours: Hour, minutes: Minute, seconds: Second)

  /** The object itself: `SetDate` replaces the wrapped date in place. */
  class CustomDate {
    var date: DateTime

    constructor (date: DateTime)
      ensures this.date == date
    {
      this.date := date;
    }

    method GetDate() returns (d: DateTime)
      ensures d == date
    {
      d := date;
    }

    method SetDate(newDate: DateTime)
      modifies this
      ensures date == newDate
    {
      date := newDate;
    }

    /** `get12hTime`, step by step as the source reassigns its locals. */
    method Get12hTime() returns (text: string)
      ensures text == TwelveHourText(date)
    {
      var hours: int := date.hours;
      var minutes := NatToString(date.minutes);
      var seconds := date.seconds;
      if date.minutes <= 9 {
        minutes := "0" + NatToString(date.minutes);
      }
      assert minutes == MinuteText(date.minutes);
      var amPm := if hours >= 12 then "PM" else "AM";
      hours := hours % 12;
      hours := if hours != 0 then hours else 12;
      assert hours == DisplayHour(date.hours);
      assert amPm == Meridiem(date.hours);
      text := NatToString(hours) + ":" + minutes + amPm + " " + NatToString(seconds) + "s";
    }
  }

  // ---------------------------------------------------------------------
  // FormatDate
  // ---------------------------------------------------------------------

  /** `FormatDate(format)`; `None` is the omitted argument, which defaults
      to "YYYY/MM/DD". Month and day are not zero-padded. Splitting the
      result at '/' gives back the three fields in the format's order. */
  function FormatDate(d: DateTime, format: Option<string>): (r: string)
    ensures Split(r, '/') == FieldsInOrder(d, OrderOf(format))
  {
    var day := NatToString(d.day);
    var month := NatToString(d.month0 + 1);
    var year := IntToString(d.year);
    var f := if format.None? then "YYYY/MM/DD" else format.value;
    var r :=
      if f == "YYYY/MM/DD" then year + "/" + month + "/" + day
      else if f == "DD/MM/YYYY" then day + "/" + month + "/" + year
      else month + "/" + day + "/" + year;
    FieldsHaveNoSlash(d);
    var parts := FieldsInOrder(d, OrderOf(format));
    Join3(parts[0], parts[1], parts[2], "/");
    assert r == Join(parts, "/");
    SplitJoin(parts, '/');
    r
  }

  /** Year, one-based month and day as `String` writes them, laid out in
      the given order. */
  function FieldsInOrder(d: DateTime, order: FieldOrder): (parts: seq<string>)
    ensures |parts| == 3
  {
    var year, month, day := IntToString(d.year), NatToString(d.month0 + 1), NatToString(d.day);
    match order
    case YearMonthDay => [year, month, day]
    case DayMonthYear => [day, month, year]
    case MonthDayYear => [month, day, year]
  }

  lemma FieldsHaveNoSlash(d: DateTime)
    ensures forall order: FieldOrder, i :: 0 <= i < 3 ==> '/' !in FieldsInOrder(d, order)[i]
  {
    var year, month, day := IntToString(d.year), NatToString(d.month0 + 1), NatToString(d.day);
    assert '/' !in year by {
      if '/' in year { IntToStringChars(d.year, '/'); }
    }
    assert '/' !in month && '/' !in day;
  }

  /** The order in which a format string lays the fields out: the two
      recognised formats, and month/day/year for every other string. */
  datatype FieldOrder = YearMonthDay | DayMonthYear | MonthDayYear

  function OrderOf(format: Option<string>): FieldOrder {
    match format
    case None => YearMonthDay
    case Some(f) =>
      if f == "YYYY/MM/DD" then YearMonthDay
      else if f == "DD/MM/YYYY" then DayMonthYear
      else MonthDayYear
  }

  /** Reads a formatted date back as (year, month 1..12, day). */
  function ParseDate(s: string, order: FieldOrder): Option<(int, int, int)> {
    var f := Split(s, '/');
    if |f| != 3 then None
    else
      var (y, m, d) :=
        match order
        case YearMonthDay => (f[0], f[1], f[2])
        case DayMonthYear => (f[2], f[1], f[0])
        case MonthDayYear => (f[2], f[0], f[1]);
      match (ParseInt(y), ParseNat(m), ParseNat(d))
      case (Some(year), Some(month), Some(day)) => Some((year, month, day))
      case _ => None
  }

  lemma Join3(a: string, b: string, c: string, sep: string)
    ensures Join([a, b, c], sep) == a + sep + b + sep + c
  {
    assert [a, b, c][1..] == [b, c];
    assert [b, c][1..] == [c];
    assert Join([b, c], sep) == b + sep + c;
    assert Join([a, b, c], sep) == a + sep + (b + sep + c);
  }

  /** Formatting loses nothing: in every format the year, the one-based
      month (1..12) and the day can be read back. */
  lemma FormatDateRoundTrip(d: DateTime, format: Option<string>)
    ensures ParseDate(FormatDate(d, format), OrderOf(format)) == Some((d.year, d.month0 + 1, d.day))
  {
    IntToStringRoundTrip(d.year);
    NatToStringRoundTrip(d.month0 + 1);
    NatToStringRoundTrip(d.day);
  }

  /** Month and day are written without zero padding. */
  lemma FormatDateUnpadded(d: DateTime)
    ensures NatToString(d.month0 + 1)[0] != '0' && |NatToString(d.month0 + 1)| <= 2
    ensures NatToString(d.day)[0] != '0' && |NatToString(d.day)| <= 2
  {
    NatToStringNoPadding(d.month0 + 1);
    NatToStringNoPadding(d.day);
    assert NatToString(d.month0 + 1) == NatToString((d.month0 + 1) / 10) + [DigitChar((d.month0 + 1) % 10)] || d.month0 + 1 < 10;
  }

  // ---------------------------------------------------------------------
  // get12hTime
  // ---------------------------------------------------------------------

  /** The hour shown on a 12-hour clock. */
  function DisplayHour(h: Hour): (r: int)
    ensures 1 <= r <= 12
  {
    if h == 0 then 12 else if h <= 12 then h else h - 12
  }

  function Meridiem(h: Hour): string {
    if h < 12 then "AM" else "PM"
  }

  /** Minutes below ten get a leading zero. */
  function MinuteText(m: Minute): string {
    if m < 10 then "0" + NatToString(m) else NatToString(m)
  }

  /** What `get12hTime` returns, e.g. "3:07PM 9s". */
  function TwelveHourText(t: DateTime): string {
    NatToString(DisplayHour(t.hours)) + ":" + MinuteText(t.minutes) + Meridiem(t.hours)
      + " " + NatToString(t.seconds) + "s"
  }

  /** Back from the 12-hour clock to the 24-hour clock. */
  function To24Hour(display: int, pm: bool): int {
    if display == 12 then (if pm then 12 else 0)
    else if pm then display + 12 else display
  }

  /** The shown hour and the suffix together determine the hour of the day:
      0 and 12 both show as 12 and are told apart by AM/PM. */
  lemma DisplayHourInverse(h: Hour)
    ensures To24Hour(DisplayHour(h), Meridiem(h) == "PM") == h
    ensures Meridiem(h) == "PM" <==> h >= 12
  {
  }

  /** The minutes always take exactly two digits and read back. */
  lemma MinuteTextRoundTrip(m: Minute)
    ensures |MinuteText(m)| == 2
    ensures forall i :: 0 <= i < 2 ==> IsDigit(MinuteText(m)[i])
    ensures ParseNat(MinuteText(m)) == Some(m)
  {
    var s := MinuteText(m);
    NatToStringRoundTrip(m);
    if m < 10 {
      var t := NatToString(m);
      assert |t| == 1;
      assert s[..1] == "0";
      assert DigitsValue("0") == 0 by {
        assert "0"[..0] == [];
      }
      assert DigitsValue(s) == DigitsValue(s[..1]) * 10 + DigitValue(s[1]);
      assert DigitsValue(t) == DigitsValue(t[..0]) * 10 + DigitValue(t[0]);
    } else {
      assert NatToString(m) == NatToString(m / 10) + [DigitChar(m % 10)];
    }
  }

  /** Reads a `get12hTime` string back as (hours, minutes, seconds). */
  function ParseTwelveHour(text: string): Option<(int, int, int)> {
    var parts := Split(text, ':');
    if |parts| != 2 || |parts[1]| < 7 then None
    else
      var rest := parts[1];
      var suffix := rest[2..4];
      if (suffix != "AM" && suffix != "PM") || rest[4] != ' ' || rest[|rest| - 1] != 's' then None
      else
        match (ParseNat(parts[0]), ParseNat(rest[..2]), ParseNat(rest[5..|rest| - 1]))
        case (Some(h), Some(m), Some(s)) => Some((To24Hour(h, suffix == "PM"), m, s))
        case _ => None
  }

  /** The 12-hour rendering loses nothing: hours, minutes and seconds can
      all be recovered from it. */
  lemma TwelveHourRoundTrip(t: DateTime)
    ensures ParseTwelveHour(TwelveHourText(t)) == Some((t.hours as int, t.minutes as int, t.seconds as int))
  {
    MinuteTextRoundTrip(t.minutes);
    NatToStringRoundTrip(DisplayHour(t.hours));
    NatToStringRoundTrip(t.seconds);
    DisplayHourInverse(t.hours);
    ParseTimeParts(NatToString(DisplayHour(t.hours)), MinuteText(t.minutes), Meridiem(t.hours),
      NatToString(t.seconds));
  }

  /** Reading back a text of the `get12hTime` shape, piece by piece. */
  lemma ParseTimeParts(hour: string, mm: string, suffix: string, secs: string)
    requires ParseNat(hour).Some? && ParseNat(mm).Some? && ParseNat(secs).Some?
    requires |mm| == 2 && (suffix == "AM" || suffix == "PM")
    ensures ParseTwelveHour(hour + ":" + mm + suffix + " " + secs + "s")
      == Some((To24Hour(ParseNat(hour).value, suffix == "PM"), ParseNat(mm).value, ParseNat(secs).value))
  {
    var rest := mm + suffix + " " + secs + "s";
    DigitsHaveNoColon(hour);
    TimeRestHasNoColon(mm, suffix, secs);
    SplitAtFirstSeparator(hour, ':', rest);
    SplitWithoutSeparator(rest, ':');
    assert hour + ":" + mm + suffix + " " + secs + "s" == hour + [':'] + rest;
    TimeRestPieces(mm, suffix, secs);
  }

  /** Where the pieces sit after the colon. */
  lemma TimeRestPieces(mm: string, suffix: string, secs: string)
    requires |mm| == 2 && |suffix| == 2
    ensures var rest := mm + suffix + " " + secs + "s";
      && |rest| == |secs| + 6
      && rest[..2] == mm && rest[2..4] == suffix && rest[4] == ' '
      && rest[5..|rest| - 1] == secs && rest[|rest| - 1] == 's'
  {
  }

  lemma DigitsHaveNoColon(s: string)
    requires ParseNat(s).Some?
    ensures ':' !in s
  {
    forall i | 0 <= i < |s| ensures s[i] != ':' {
      assert IsDigit(s[i]);
    }
  }

  /** The part after the colon: two digits, the suffix, a space, the
      seconds' digits and "s". */
  lemma TimeRestHasNoColon(mm: string, suffix: string, secs: string)
    requires ParseNat(mm).Some? && ParseNat(secs).Some?
    requires suffix == "AM" || suffix == "PM"
    ensures ':' !in mm + suffix + " " + secs + "s"
  {
    DigitsHaveNoColon(mm);
    DigitsHaveNoColon(secs);
  }

  // ---------------------------------------------------------------------
  // isAfter, isBefore, isEqual
  // ---------------------------------------------------------------------

  /** `isAfter`: year, then month, then day; `None` is JavaScript's
      `undefined`, returned when the calendar days coincide. Measured
      against an independent day numbering, it is true on a later day,
      false on an earlier one and undefined on the same one. */
  function IsAfter(a: DateTime, b: DateTime): (r: Option<bool>)
    ensures r == Some(true) <==> DayNumber(a) > DayNumber(b)
    ensures r == Some(false) <==> DayNumber(a) < DayNumber(b)
    ensures r == None <==> DayNumber(a) == DayNumber(b)
  {
    DayNumberOrder(a, b);
    DayNumberOrder(b, a);
    if a.year > b.year then Some(true)
    else if a.year == b.year then
      if a.month0 > b.month0 then Some(true)
      else if a.month0 == b.month0 then
        if a.day > b.day then Some(true)
        else if a.day == b.day then None
        else Some(false)
      else Some(false)
    else Some(false)
  }

  /** `isBefore` is `!isAfter`, and `!undefined` is `true`: "not on a later
      day", so it holds on the same day too. */
  function IsBefore(a: DateTime, b: DateTime): (r: bool)
    ensures r <==> DayNumber(a) <= DayNumber(b)
  {
    IsAfter(a, b) != Some(true)
  }

  /** `isEqual`: `isAfter` returned `undefined`, that is, the same calendar
      day whatever the time. */
  function IsEqual(a: DateTime, b: DateTime): (r: bool)
    ensures r <==> a.year == b.year && a.month0 == b.month0 && a.day == b.day
  {
    DayNumberOrder(a, b);
    IsAfter(a, b) == None
  }

  /** The position of a calendar day on one line, months of 31 days; an
      independent definition of the order `isAfter` implements. */
  function DayNumber(d: DateTime): int {
    (d.year * 12 + d.month0) * 31 + (d.day - 1)
  }

  lemma DayNumberOrder(a: DateTime, b: DateTime)
    ensures DayNumber(a) < DayNumber(b) <==>
      (a.year < b.year || (a.year == b.year && (a.month0 < b.month0 || (a.month0 == b.month0 && a.day < b.day))))
    ensures DayNumber(a) == DayNumber(b) <==> (a.year == b.year && a.month0 == b.month0 && a.day == b.day)
  {
    var ma, mb := a.year * 12 + a.month0, b.year * 12 + b.month0;
    assert ma < mb <==> (a.year < b.year || (a.year == b.year && a.month0 < b.month0));
    if ma < mb {
      assert ma * 31 + 31 <= mb * 31;
    } else if ma > mb {
      assert mb * 31 + 31 <= ma * 31;
    }
  }

  /** On distinct days exactly one of the two dates is after the other. */
  lemma IsAfterAntisymmetric(a: DateTime, b: DateTime)
    ensures IsAfter(a, b) == None <==> IsAfter(b, a) == None
    ensures IsAfter(a, b).Some? ==> IsAfter(b, a) == Some(!IsAfter(a, b).value)
  {
  }

  lemma IsAfterTransitive(a: DateTime, b: DateTime, c: DateTime)
    requires IsAfter(a, b) == Some(true) && IsAfter(b, c) == Some(true)
    ensures IsAfter(a, c) == Some(true)
  {
  }

  /** The time of day plays no part in the comparisons. */
  lemma IsAfterIgnoresTime(a: DateTime, b: DateTime, a': DateTime, b': DateTime)
    requires a'.year == a.year && a'.month0 == a.month0 && a'.day == a.day
    requires b'.year == b.year && b'.month0 == b.month0 && b'.day == b.day
    ensures IsAfter(a', b') == IsAfter(a, b)
  {
  }

  /** On the same day each date is before the other. */
  lemma IsBeforeNotLater(a: DateTime, b: DateTime)
    ensures IsEqual(a, b) ==> IsBefore(a, b) && IsBefore(b, a)
  {
  }
}
