/** The target date of both checkers: the `CHECK_DATE` setting when it is a
    date in `%Y-%m-%d` form, otherwise the day after the current date. The wall
    clock is the parameter `now`. */
module CheckDate {
  import opened Text

  datatype Date = Date(year: nat, month: nat, day: nat)

  predicate IsLeapYear(y: int)
  {
    y % 4 == 0 && (y % 100 != 0 || y % 400 == 0)
  }

  function DaysInMonth(y: int, m: int): int
    requires 1 <= m <= 12
  {
    if m == 2 then (if IsLeapYear(y) then 29 else 28)
    else if m == 4 || m == 6 || m == 9 || m == 11 then 30
    else 31
  }

  function DaysInYear(y: int): int
  {
    if IsLeapYear(y) then 366 else 365
  }

  /** A date Python's `datetime` can represent: years 1 to 9999, Gregorian
      month lengths with the leap-year rule. */
  predicate ValidDate(d: Date)
  {
    1 <= d.year <= 9999 && 1 <= d.month <= 12 && 1 <= d.day <= DaysInMonth(d.year, d.month)
  }

  /** Days of year `y` before the first of month `m`. */
  function DaysBeforeMonth(y: int, m: int): int
    requires 1 <= m <= 12
  {
    [0, 31, 59, 90, 120, 151, 181, 212, 243, 273, 304, 334][m - 1]
    + (if m > 2 && IsLeapYear(y) then 1 else 0)
  }

  /** Days from 0001-01-01 up to the first of year `y`. */
  function DaysBeforeYear(y: int): int
    decreases y
  {
    if y <= 1 then 0 else DaysBeforeYear(y - 1) + DaysInYear(y - 1)
  }

  /** The proleptic Gregorian ordinal of a date, 0001-01-01 being day 1. */
  function Ordinal(d: Date): int
    requires 1 <= d.month <= 12
  {
    DaysBeforeYear(d.year) + DaysBeforeMonth(d.year, d.month) + d.day
  }

  /** `now + timedelta(days=1)` on the date part; None where Python raises
      OverflowError, after 9999-12-31. */
  function NextDay(d: Date): Option<Date>
    requires ValidDate(d)
  {
    if d.day < DaysInMonth(d.year, d.month) then Some(Date(d.year, d.month, d.day + 1))
    else if d.month < 12 then Some(Date(d.year, d.month + 1, 1))
    else if d.year < 9999 then Some(Date(d.year + 1, 1, 1))
    else None
  }

  lemma NextDayIsSuccessor(d: Date)
    requires ValidDate(d)
    ensures NextDay(d).None? <==> d == Date(9999, 12, 31)
    ensures NextDay(d).Some? ==> ValidDate(NextDay(d).value)
    ensures NextDay(d).Some? ==> Ordinal(NextDay(d).value) == Ordinal(d) + 1
  {
  }

  /** A date string in `%Y-%m-%d` form, kept as its three fields as written
      together with the date they denote. */
  datatype IsoDate = IsoDate(yearText: string, monthText: string, dayText: string, date: Date)
  {
    function Text(): string
    {
      yearText + "-" + monthText + "-" + dayText
    }
  }

  /** `%Y`: exactly four digits. */
  predicate YearField(t: string)
  {
    |t| == 4 && AllDigits(t)
  }

  /** `%m`: `1[0-2]|0[1-9]|[1-9]`. */
  predicate MonthField(t: string)
  {
    (|t| == 1 && '1' <= t[0] <= '9')
    || (|t| == 2 && ((t[0] == '0' && '1' <= t[1] <= '9') || (t[0] == '1' && '0' <= t[1] <= '2')))
  }

  /** `%d`: `3[01]|[12][0-9]|0[1-9]|[1-9]| [1-9]` (a space may stand for the leading zero). */
  predicate DayField(t: string)
  {
    (|t| == 1 && '1' <= t[0] <= '9')
    || (|t| == 2 && ((t[0] == '3' && '0' <= t[1] <= '1') || ('1' <= t[0] <= '2' && IsDigit(t[1]))
                     || ((t[0] == '0' || t[0] == ' ') && '1' <= t[1] <= '9')))
  }

  /** `int(t)` of a day field; `int` ignores the leading space. */
  function DayFieldValue(t: string): nat
    requires DayField(t)
  {
    if t[0] == ' ' then DecimalValue(t[1..]) else DecimalValue(t)
  }

  /** The fields of `p` are what the format accepts and denote a valid date. */
  predicate WellFormed(p: IsoDate)
  {
    && YearField(p.yearText) && MonthField(p.monthText) && DayField(p.dayText)
    && p.date == Date(DecimalValue(p.yearText), DecimalValue(p.monthText), DayFieldValue(p.dayText))
    && ValidDate(p.date)
  }

  /** `datetime.strptime(s, "%Y-%m-%d")`: the whole of `s` must match the
      format and the fields must give a valid date. */
  function ParseIso(s: string): Option<IsoDate>
  {
    if |s| < 8 || !YearField(s[..4]) || s[4] != '-' || (s[6] != '-' && s[7] != '-') then None
    else
      var j := if s[6] == '-' then 6 else 7;
      var p := IsoDate(s[..4], s[5..j], s[j + 1..], Date(0, 0, 0));
      if !MonthField(p.monthText) || !DayField(p.dayText) then None
      else
        var d := Date(DecimalValue(p.yearText), DecimalValue(p.monthText), DayFieldValue(p.dayText));
        if ValidDate(d) then Some(p.(date := d)) else None
  }

  lemma ParseIsoSound(s: string)
    ensures ParseIso(s).Some? ==> WellFormed(ParseIso(s).value) && ParseIso(s).value.Text() == s
  {
    if ParseIso(s).Some? {
      var p := ParseIso(s).value;
      var j := if s[6] == '-' then 6 else 7;
      assert s == s[..4] + "-" + s[5..j] + "-" + s[j + 1..];
    }
  }

  lemma ParseIsoComplete(p: IsoDate)
    requires WellFormed(p)
    ensures ParseIso(p.Text()) == Some(p)
  {
    var s := p.Text();
    var j := 5 + |p.monthText|;
    assert s[..4] == p.yearText && s[4] == '-' && s[j] == '-';
    assert s[5..j] == p.monthText && s[j + 1..] == p.dayText;
    assert j == 6 ==> s[6] == '-';
    assert j == 7 ==> s[6] != '-';
  }

  /** `%Y` output for years 1 to 9999: four digits, zero-padded. */
  function Pad4(n: nat): string
    requires n < 10000
  {
    [DigitChar(n / 1000), DigitChar(n / 100 % 10), DigitChar(n / 10 % 10), DigitChar(n % 10)]
  }

  /** `%m` and `%d` output: two digits, zero-padded. */
  function Pad2(n: nat): string
    requires n < 100
  {
    [DigitChar(n / 10), DigitChar(n % 10)]
  }

  /** `d.strftime("%Y-%m-%d")`, as the fields of a date string. */
  function Format(d: Date): IsoDate
    requires ValidDate(d)
  {
    IsoDate(Pad4(d.year), Pad2(d.month), Pad2(d.day), d)
  }

  lemma DecimalAppend(s: string, d: nat)
    requires AllDigits(s) && d < 10
    ensures AllDigits(s + [DigitChar(d)]) && DecimalValue(s + [DigitChar(d)]) == DecimalValue(s) * 10 + d
  {
    assert (s + [DigitChar(d)])[..|s|] == s;
  }

  lemma Split4(n: nat)
    requires n < 10000
    ensures n == ((n / 1000 * 10 + n / 100 % 10) * 10 + n / 10 % 10) * 10 + n % 10
  {
    var q1 := n / 10;
    var q2 := q1 / 10;
    assert n == q1 * 10 + n % 10;
    assert q1 == q2 * 10 + q1 % 10;
    assert q2 == n / 100;
    assert q2 / 10 == n / 1000;
    assert q2 == (q2 / 10) * 10 + q2 % 10;
  }

  lemma Pad4Value(n: nat)
    requires n < 10000
    ensures AllDigits(Pad4(n)) && DecimalValue(Pad4(n)) == n
  {
    var a, b, c, e := n / 1000, n / 100 % 10, n / 10 % 10, n % 10;
    DecimalAppend([], a);
    DecimalAppend([DigitChar(a)], b);
    DecimalAppend([DigitChar(a), DigitChar(b)], c);
    DecimalAppend([DigitChar(a), DigitChar(b), DigitChar(c)], e);
    assert [] + [DigitChar(a)] == [DigitChar(a)];
    assert [DigitChar(a)] + [DigitChar(b)] == [DigitChar(a), DigitChar(b)];
    assert [DigitChar(a), DigitChar(b)] + [DigitChar(c)] == [DigitChar(a), DigitChar(b), DigitChar(c)];
    assert Pad4(n) == [DigitChar(a), DigitChar(b), DigitChar(c)] + [DigitChar(e)];
    Split4(n);
  }

  lemma Pad2Value(n: nat)
    requires n < 100
    ensures AllDigits(Pad2(n)) && DecimalValue(Pad2(n)) == n
  {
    DecimalAppend([], n / 10);
    DecimalAppend([DigitChar(n / 10)], n % 10);
    assert Pad2(n) == [DigitChar(n / 10)] + [DigitChar(n % 10)];
  }

  /** What `strftime` writes is read back by `strptime` as the same date. */
  lemma FormatParses(d: Date)
    requires ValidDate(d)
    ensures WellFormed(Format(d))
    ensures ParseIso(Format(d).Text()) == Some(Format(d))
  {
    FormatFields(d);
    ParseIsoComplete(Format(d));
  }

  /** The fields `strftime` writes are the ones `strptime` accepts, with
      the date's values. */
  lemma FormatFields(d: Date)
    requires ValidDate(d)
    ensures WellFormed(Format(d))
  {
    var p := Format(d);
    Pad4Value(d.year);
    Pad2Value(d.month);
    Pad2Value(d.day);
    assert YearField(p.yearText);
    assert MonthField(p.monthText) by {
      assert p.monthText[0] == DigitChar(d.month / 10);
    }
    assert DayField(p.dayText) by {
      assert p.dayText[0] == DigitChar(d.day / 10);
    }
  }

  /** `get_check_date()`: `raw` is the `CHECK_DATE` setting ("" when unset).
      None stands for the OverflowError of `now + timedelta(days=1)` on the
      last representable day. */
  function GetCheckDate(raw: string, now: Date): (r: Option<IsoDate>)
    requires ValidDate(now)
    ensures r.Some? ==> WellFormed(r.value)
    ensures ParseIso(Strip(raw)).Some? ==> r.Some? && r.value.Text() == Strip(raw)
  {
    var s := Strip(raw);
    ParseIsoSound(s);
    NextDayIsSuccessor(now);
    if s != "" && ParseIso(s).Some? then ParseIso(s)
    else match NextDay(now)
      case None => None
      case Some(t) => FormatParses(t); Some(Format(t))
  }

  /** The setting is returned unchanged exactly when it is a valid
      `%Y-%m-%d` date; whatever is returned denotes a valid date. */
  lemma {:induction false} KeepsSettingIffValid(raw: string, now: Date)
    requires ValidDate(now) && now != Date(9999, 12, 31)
    ensures var r := GetCheckDate(raw, now);
            r.Some? && (r.value.Text() == Strip(raw) <==> ParseIso(Strip(raw)).Some?)
            && ValidDate(r.value.date)
  {
    if ParseIso(Strip(raw)).None? {
      DefaultIsTomorrow(raw, now);
    } else {
      ParseIsoSound(Strip(raw));
    }
  }

  /** Without a valid setting the result is tomorrow, as a zero-padded date
      string that itself parses back to tomorrow; it exists except on the
      last representable day. */
  lemma DefaultIsTomorrow(raw: string, now: Date)
    requires ValidDate(now) && ParseIso(Strip(raw)).None?
    ensures var r := GetCheckDate(raw, now);
            && (r.Some? <==> now != Date(9999, 12, 31))
            && (r.Some? ==> Ordinal(r.value.date) == Ordinal(now) + 1)
            && (r.Some? ==> r.value == Format(r.value.date) && ParseIso(r.value.Text()) == r)
  {
    NextDayIsSuccessor(now);
    if NextDay(now).Some? {
      FormatParses(NextDay(now).value);
    }
  }
}
