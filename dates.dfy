/** Calendar dates as the Python views handle them: `datetime.date` values,
    `datetime.strptime(s, '%Y-%m-%d')` for parsing a posted string,
    `strftime("%Y-%m-%d")` for formatting, chronological comparison and
    `max`, and Django's own coercion of a raw string assigned to or compared
    with a `DateField`. */
module Dates {
  import opened Wrappers
  import opened Text

  datatype Date = Date(year: int, month: int, day: int)

  predicate IsLeap(y: int) {
    y % 4 == 0 && (y % 100 != 0 || y % 400 == 0)
  }

  function DaysInMonth(y: int, m: int): (n: int)
    requires 1 <= m <= 12
    ensures 28 <= n <= 31
  {
    if m == 2 then (if IsLeap(y) then 29 else 28)
    else if m == 4 || m == 6 || m == 9 || m == 11 then 30
    else 31
  }

  /** A value `datetime.date` can hold: years 1 to 9999 of the proleptic
      Gregorian calendar. */
  predicate ValidDate(d: Date) {
    1 <= d.year <= 9999 && 1 <= d.month <= 12 && 1 <= d.day <= DaysInMonth(d.year, d.month)
  }

  /** The dates a `DateField` stores and `strptime` returns. */
  type CalendarDate = d: Date | ValidDate(d) witness Date(1, 1, 1)

  /** Chronological `a < b`. */
  predicate Before(a: Date, b: Date) {
    a.year < b.year ||
    (a.year == b.year && (a.month < b.month || (a.month == b.month && a.day < b.day)))
  }

  /** Python's `max(a, b)`: the first argument unless the second is later. */
  function MaxDate(a: Date, b: Date): (m: Date)
    ensures !Before(m, a) && !Before(m, b)
    ensures m == a || m == b
  {
    if Before(a, b) then b else a
  }

  // ---------------------------------------------------------------------
  // strptime(s, '%Y-%m-%d')
  // ---------------------------------------------------------------------

  /** The `%m` directive: `1[0-2]|0[1-9]|[1-9]`. */
  function MonthField(t: string): (m: Option<int>)
    ensures m.Some? ==> 1 <= m.value <= 12
  {
    if |t| == 2 && t[0] == '1' && '0' <= t[1] <= '2' then Some(10 + DigitValue(t[1]))
    else if |t| == 2 && t[0] == '0' && '1' <= t[1] <= '9' then Some(DigitValue(t[1]))
    else if |t| == 1 && '1' <= t[0] <= '9' then Some(DigitValue(t[0]))
    else None
  }

  /** The `%d` directive: `3[01]|[12]\d|0[1-9]|[1-9]| [1-9]` (the last form
      is a space followed by one digit). */
  function DayField(t: string): (d: Option<int>)
    ensures d.Some? ==> 1 <= d.value <= 31
  {
    if |t| == 2 && t[0] == '3' && '0' <= t[1] <= '1' then Some(30 + DigitValue(t[1]))
    else if |t| == 2 && '1' <= t[0] <= '2' && IsDigit(t[1]) then Some(DigitValue(t[0]) * 10 + DigitValue(t[1]))
    else if |t| == 2 && t[0] == '0' && '1' <= t[1] <= '9' then Some(DigitValue(t[1]))
    else if |t| == 1 && '1' <= t[0] <= '9' then Some(DigitValue(t[0]))
    else if |t| == 2 && t[0] == ' ' && '1' <= t[1] <= '9' then Some(DigitValue(t[1]))
    else None
  }

  /** `datetime.strptime(s, '%Y-%m-%d').date()`, `None` where it raises:
      four digits of year, `-`, a month field, `-`, a day field, nothing
      left over, and a date that exists (no year 0, no 30 February).
      Neither field may hold a `-`, so splitting the rest on `-` into exactly
      two pieces finds the same fields the pattern does. */
  function ParseIsoDate(s: string): Option<CalendarDate>
  {
    if |s| < 5 || !AllDigits(s[..4]) || s[4] != '-' then None
    else
      var fields := Split(s[5..], '-');
      if |fields| != 2 then None
      else
        var m := MonthField(fields[0]);
        var d := DayField(fields[1]);
        if m.None? || d.None? then None
        else
          var date := Date(DigitsValue(s[..4]), m.value, d.value);
          if ValidDate(date) then Some(date) else None
  }

  /** `d.strftime("%Y-%m-%d")` and `d.isoformat()`: month and day
      zero-padded to two digits, the year to four digits as `isoformat`
      always writes it. A C library whose `%Y` leaves years below 1000
      unpadded makes `strftime` differ from this below year 1000. */
  function IsoFormat(d: CalendarDate): (s: string)
    ensures |s| == 10
  {
    PadFour(d.year);
    var y := PadStart(NatToDecimal(d.year), 4, '0');
    y + "-" + TwoDigits(d.month) + "-" + TwoDigits(d.day)
  }

  /** Four digits, `-`, two digits, `-`, two digits. */
  lemma {:induction false} DashedShape(y: string, m: string, dd: string)
    requires |y| == 4 && |m| == 2 && |dd| == 2 && AllDigits(y) && AllDigits(m) && AllDigits(dd)
    ensures var s := y + "-" + m + "-" + dd;
      |s| == 10 && s[4] == '-' && s[7] == '-' &&
      forall i :: 0 <= i < 10 && i != 4 && i != 7 ==> IsDigit(s[i])
  {
    var s := y + "-" + m + "-" + dd;
    forall i | 0 <= i < 10 && i != 4 && i != 7 ensures IsDigit(s[i]) {
      if i < 4 {
        assert s[i] == y[i];
      } else if i < 7 {
        assert s[i] == m[i - 5];
      } else {
        assert s[i] == dd[i - 8];
      }
    }
  }

  /** The text is ten characters: digits, with `-` at positions 4 and 7. */
  lemma {:induction false} IsoFormatShape(d: CalendarDate)
    ensures var s := IsoFormat(d);
      |s| == 10 && s[4] == '-' && s[7] == '-' &&
      forall i :: 0 <= i < 10 && i != 4 && i != 7 ==> IsDigit(s[i])
  {
    var y := PadStart(NatToDecimal(d.year), 4, '0');
    PadFour(d.year);
    PaddedValue(NatToDecimal(d.year), 4);
    DashedShape(y, TwoDigits(d.month), TwoDigits(d.day));
  }

  lemma {:induction false} MonthOfTwoDigits(m: int)
    requires 1 <= m <= 12
    ensures MonthField(TwoDigits(m)) == Some(m)
  {
  }

  lemma {:induction false} DayOfTwoDigits(d: int)
    requires 1 <= d <= 31
    ensures DayField(TwoDigits(d)) == Some(d)
  {
  }

  /** The pieces of a `YYYY-M-D` shaped string, as the parser sees them. */
  lemma {:induction false} DatePieces(y: string, m: string, dd: string)
    requires |y| == 4 && AllDigits(y) && AllDigits(m) && AllDigits(dd)
    ensures var s := y + "-" + m + "-" + dd;
      |s| >= 5 && s[..4] == y && s[4] == '-' && Split(s[5..], '-') == [m, dd]
  {
    var s := y + "-" + m + "-" + dd;
    assert s[..4] == y;
    assert s[5..] == Join([m, dd], '-');
    assert forall i :: 0 <= i < |m| ==> m[i] != '-';
    assert forall i :: 0 <= i < |dd| ==> dd[i] != '-';
    JoinSplit([m, dd], '-');
  }

  /** What strftime writes, strptime reads back: the blocked-date strings
      the listing publishes denote exactly the stored dates. */
  lemma {:induction false} ParseFormat(d: CalendarDate)
    ensures ParseIsoDate(IsoFormat(d)) == Some(d)
  {
    var y := PadStart(NatToDecimal(d.year), 4, '0');
    var m, dd := TwoDigits(d.month), TwoDigits(d.day);
    DecimalLength(d.year, 4);
    PaddedValue(NatToDecimal(d.year), 4);
    DigitsValueOfDecimal(d.year);
    DatePieces(y, m, dd);
    assert IsoFormat(d) == y + "-" + m + "-" + dd;
    MonthOfTwoDigits(d.month);
    DayOfTwoDigits(d.day);
  }

  /** Formatting is injective on real dates, so two distinct claimed dates
      never publish the same blocked-date string. */
  lemma {:induction false} FormatInjective(a: CalendarDate, b: CalendarDate)
    requires IsoFormat(a) == IsoFormat(b)
    ensures a == b
  {
    ParseFormat(a);
    ParseFormat(b);
  }

  // ---------------------------------------------------------------------
  // Django's coercion of a raw string for a DateField
  // ---------------------------------------------------------------------

  /** Django's `parse_date` pattern `\d{4}-\d{1,2}-\d{1,2}`, which a
      `DateField` applies to a raw string used in a filter or a create. */
  function DjangoDate(s: string): (r: Option<Date>)
  {
    if |s| < 5 || !AllDigits(s[..4]) || s[4] != '-' then None
    else
      var fields := Split(s[5..], '-');
      if |fields| != 2 then None
      else if !(1 <= |fields[0]| <= 2 && AllDigits(fields[0])) then None
      else if !(1 <= |fields[1]| <= 2 && AllDigits(fields[1])) then None
      else Some(Date(DigitsValue(s[..4]), DigitsValue(fields[0]), DigitsValue(fields[1])))
  }

  /** A string strptime accepted is coerced by Django to the same date,
      unless its day is written as a space and a digit, which Django's
      pattern refuses. */
  lemma {:induction false} DjangoAgrees(s: string)
    requires ParseIsoDate(s).Some?
    ensures DjangoDate(s).Some? <==> Split(s[5..], '-')[1][0] != ' '
    ensures DjangoDate(s).Some? ==> DjangoDate(s) == ParseIsoDate(s)
  {
    var fields := Split(s[5..], '-');
    var m, d := fields[0], fields[1];
    assert 1 <= |m| <= 2 && AllDigits(m);
    DigitsValueShort(m);
    if 1 <= |d| <= 2 && AllDigits(d) {
      DigitsValueShort(d);
    }
  }

  /** The pieces of the example below. */
  lemma {:induction false} SpacePaddedFields()
    ensures var s := "2025-01- 5";
      |s| == 10 && s[..4] == "2025" && s[4] == '-' && Split(s[5..], '-') == ["01", " 5"]
  {
    var s := "2025-01- 5";
    assert s[5..] == Join(["01", " 5"], '-');
    JoinSplit(["01", " 5"], '-');
  }

  /** What strptime reads from a string whose pieces are known. */
  lemma {:induction false} ParseFromFields(s: string, m: string, d: string)
    requires |s| >= 5 && AllDigits(s[..4]) && s[4] == '-' && Split(s[5..], '-') == [m, d]
    requires MonthField(m).Some? && DayField(d).Some?
    requires ValidDate(Date(DigitsValue(s[..4]), MonthField(m).value, DayField(d).value))
    ensures ParseIsoDate(s) == Some(Date(DigitsValue(s[..4]), MonthField(m).value, DayField(d).value))
  {
  }

  lemma {:induction false} SpacePaddedValues()
    ensures DigitsValue("2025") == 2025 && MonthField("01") == Some(1) && DayField(" 5") == Some(5)
    ensures ValidDate(Date(2025, 1, 5))
  {
    assert "2025"[..3] == "202" && "202"[..2] == "20" && "20"[..1] == "2" && "2"[..0] == "";
  }

  /** The space-padded day is a real case: strptime accepts it, Django
      refuses it. */
  lemma {:induction false} SpacePaddedDay()
    ensures ParseIsoDate("2025-01- 5") == Some(Date(2025, 1, 5))
    ensures DjangoDate("2025-01- 5") == None
  {
    var s := "2025-01- 5";
    SpacePaddedFields();
    SpacePaddedValues();
    ParseFromFields(s, "01", " 5");
    DjangoAgrees(s);
  }
}
