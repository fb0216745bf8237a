/** The home page calendar: month navigation over the globals
    `currentYear`/`currentMonth`, the `YYYY-MM-DD` key of each day, the
    classification of a day as an action day (a repost is due), a request
    day or neither, and `renderCalendar`, which lays the month out in
    Monday-first rows of at most seven cells. The weekday of the first of
    the month, which the script reads from a `Date`, is a parameter. */
module Calendar {
  import opened Wrappers
  import opened Text
  import opened Dates
  import opened Schema
  import opened Listing

  // ---------------------------------------------------------------------
  // Month navigation
  // ---------------------------------------------------------------------

  datatype YearMonth = YearMonth(year: int, month: int)

  predicate ValidMonth(ym: YearMonth) {
    1 <= ym.month <= 12
  }

  /** The number of months since January of year 0: a reference for what
      "one month later" means. */
  function MonthIndex(ym: YearMonth): int {
    ym.year * 12 + ym.month - 1
  }

  /** The "previous month" button: decrement, wrapping from 1 to 12 of the
      year before. */
  function PrevMonth(ym: YearMonth): YearMonth {
    if ym.month - 1 < 1 then YearMonth(ym.year - 1, 12) else YearMonth(ym.year, ym.month - 1)
  }

  /** The "next month" button: increment, wrapping from 12 to 1 of the year
      after. */
  function NextMonth(ym: YearMonth): YearMonth {
    if ym.month + 1 > 12 then YearMonth(ym.year + 1, 1) else YearMonth(ym.year, ym.month + 1)
  }

  /** Both buttons keep the month in 1..12 and move exactly one month; from
      December the next month is January of the following year, from
      January the previous month is December of the year before. */
  lemma {:induction false} NavigationSteps(ym: YearMonth)
    requires ValidMonth(ym)
    ensures ValidMonth(PrevMonth(ym)) && ValidMonth(NextMonth(ym))
    ensures MonthIndex(NextMonth(ym)) == MonthIndex(ym) + 1
    ensures MonthIndex(PrevMonth(ym)) == MonthIndex(ym) - 1
    ensures ym.month == 12 ==> NextMonth(ym) == YearMonth(ym.year + 1, 1)
    ensures ym.month == 1 ==> PrevMonth(ym) == YearMonth(ym.year - 1, 12)
  {
  }

  /** A valid month is fixed by its index. */
  lemma {:induction false} MonthIndexInjective(a: YearMonth, b: YearMonth)
    requires ValidMonth(a) && ValidMonth(b) && MonthIndex(a) == MonthIndex(b)
    ensures a == b
  {
    assert (a.year - b.year) * 12 == b.month - a.month;
  }

  /** Going back and forth returns to the same month. */
  lemma {:induction false} PrevNextInverse(ym: YearMonth)
    requires ValidMonth(ym)
    ensures NextMonth(PrevMonth(ym)) == ym && PrevMonth(NextMonth(ym)) == ym
  {
    NavigationSteps(ym);
    NavigationSteps(PrevMonth(ym));
    NavigationSteps(NextMonth(ym));
    MonthIndexInjective(NextMonth(PrevMonth(ym)), ym);
    MonthIndexInjective(PrevMonth(NextMonth(ym)), ym);
  }

  const MonthNames: seq<string> := [
    "Январь", "Февраль", "Март", "Апрель", "Май", "Июнь", "Июль",
    "Август", "Сентябрь", "Октябрь", "Ноябрь", "Декабрь"]

  /** The page's month state. */
  class CalendarState {
    var currentYear: int
    var currentMonth: int

    /** `getFullYear()` and `getMonth() + 1` of today. */
    constructor (today: CalendarDate)
      ensures currentYear == today.year && currentMonth == today.month
      ensures Valid()
    {
      currentYear, currentMonth := today.year, today.month;
    }

    predicate Valid()
      reads this
    {
      ValidMonth(YearMonth(currentYear, currentMonth))
    }

    function Current(): YearMonth
      reads this
    {
      YearMonth(currentYear, currentMonth)
    }

    method Prev()
      modifies this
      ensures Current() == PrevMonth(old(Current()))
      ensures old(Valid()) ==> Valid() && MonthIndex(Current()) == MonthIndex(old(Current())) - 1
    {
      currentMonth := currentMonth - 1;
      if currentMonth < 1 {
        currentMonth := 12;
        currentYear := currentYear - 1;
      }
      if old(Valid()) {
        NavigationSteps(old(Current()));
      }
    }

    method Next()
      modifies this
      ensures Current() == NextMonth(old(Current()))
      ensures old(Valid()) ==> Valid() && MonthIndex(Current()) == MonthIndex(old(Current())) + 1
    {
      currentMonth := currentMonth + 1;
      if currentMonth > 12 {
        currentMonth := 1;
        currentYear := currentYear + 1;
      }
      if old(Valid()) {
        NavigationSteps(old(Current()));
      }
    }

    /** `updateCalendarHeader`: the month's name and the year. */
    function Title(): string
      reads this
      requires Valid()
    {
      MonthNames[currentMonth - 1] + " " + IntToDecimal(currentYear)
    }
  }

  // ---------------------------------------------------------------------
  // Day keys and classification
  // ---------------------------------------------------------------------

  /** `${yearNum}-${monthNum}-${dayNum}`: the year as `toString` writes it,
      month and day as two digits (see `DateKeyPadded`). */
  function DateKey(year: int, month: nat, day: nat): string
    requires month < 100 && day < 100
  {
    IntToDecimal(year) + "-" + TwoDigits(month) + "-" + TwoDigits(day)
  }

  /** Two digits are what `toString().padStart(2, '0')` gives for a month
      and a day. */
  lemma {:induction false} DateKeyPadded(year: int, month: nat, day: nat)
    requires month < 100 && day < 100
    ensures DateKey(year, month, day) ==
      IntToDecimal(year) + "-" + PadStart(NatToDecimal(month), 2, '0') + "-" + PadStart(NatToDecimal(day), 2, '0')
  {
    PadTwo(month);
    PadTwo(day);
  }

  /** For four-digit years the key is exactly the `%Y-%m-%d` text the
      server sends for a date, so the calendar and the server agree on which
      day a date string denotes. */
  lemma {:induction false} DateKeyIsIso(d: CalendarDate)
    requires d.year >= 1000
    ensures DateKey(d.year, d.month, d.day) == IsoFormat(d)
  {
    assert Pow10(4) == 10000 && Pow10(3) == 1000;
    DecimalLengthExact(d.year, 4);
  }

  datatype DayKind =
    | ActionDay                          // green: a repost is due
    | RequestDay(link: Option<int>)      // blue: the user's own request, linked when its id is known
    | NeutralDay                         // pink: nothing to do

  /** `isActionDay` is tested first, then `isRequestDay`; a request day
      links to the request `ownRequestMap` names, unless that id is
      missing or 0 (falsy). */
  function Classify(key: string, actionDates: seq<string>, requestDates: seq<string>, ownRequestMap: map<string, int>): DayKind
  {
    if key in actionDates then ActionDay
    else if key in requestDates then
      RequestDay(if key in ownRequestMap && ownRequestMap[key] != 0 then Some(ownRequestMap[key]) else None)
    else NeutralDay
  }

  /** A day in both lists is an action day, a day in neither is neutral;
      only a request day carries a link, and only to a non-zero id. */
  lemma {:induction false} ClassifyCases(key: string, actionDates: seq<string>, requestDates: seq<string>, ownRequestMap: map<string, int>)
    ensures var k := Classify(key, actionDates, requestDates, ownRequestMap);
      (k == ActionDay <==> key in actionDates) &&
      (k.RequestDay? <==> key !in actionDates && key in requestDates) &&
      (k == NeutralDay <==> key !in actionDates && key !in requestDates) &&
      (k.RequestDay? && k.link.Some? ==> key in ownRequestMap && k.link.value == ownRequestMap[key] != 0)
  {
  }

  /** With `actionDates` the list the home view renders, a day of a
      four-digit year is an action day exactly when the user holds a claim
      on another user's request whose start date is that day. */
  lemma {:induction false} ActionDayIffClaimed(db: Db, user: UserId, actionDates: seq<string>, requestDates: seq<string>,
                            ownRequestMap: map<string, int>, d: CalendarDate)
    requires forall s :: s in actionDates <==> s in ActionDates(db, user)
    requires d.year >= 1000
    ensures Classify(DateKey(d.year, d.month, d.day), actionDates, requestDates, ownRequestMap) == ActionDay <==>
      exists id :: id in ActionRequests(db, user) && db.requests[id].startDate == d
  {
    var key := DateKey(d.year, d.month, d.day);
    DateKeyIsIso(d);
    ClassifyCases(key, actionDates, requestDates, ownRequestMap);
    if key in actionDates {
      assert IsoFormat(d) in ActionDates(db, user);
      var id :| id in ActionRequests(db, user) && IsoFormat(d) == IsoFormat(db.requests[id].startDate);
      FormatInjective(d, db.requests[id].startDate);
    }
    if exists id :: id in ActionRequests(db, user) && db.requests[id].startDate == d {
      var id :| id in ActionRequests(db, user) && db.requests[id].startDate == d;
      assert IsoFormat(db.requests[id].startDate) in ActionDates(db, user);
    }
  }

  // ---------------------------------------------------------------------
  // renderCalendar
  // ---------------------------------------------------------------------

  datatype Cell = Blank | DayCell(day: int, key: string, kind: DayKind)

  /** `(weekDay + 6) % 7`: how many blank cells precede the first day when
      the week starts on Monday (`getDay` counts from Sunday = 0). */
  function LeadingBlanks(firstWeekday: int): (n: int)
    ensures 0 <= n <= 6
  {
    (firstWeekday + 6) % 7
  }

  lemma {:induction false} MondayFirst()
    ensures LeadingBlanks(1) == 0 && LeadingBlanks(0) == 6
  {
  }

  /** The cells of days 1 to `n`, in order. The contract gives only the
      length; what cell `i` holds is stated by `DayCellsAt`, and for the
      whole grid by `MonthCellAt`. */
  function DayCells(year: int, month: int, n: nat,
                    actionDates: seq<string>, requestDates: seq<string>, ownRequestMap: map<string, int>): (cells: seq<Cell>)
    requires 1 <= month <= 12 && n <= 31
    ensures |cells| == n
  {
    if n == 0 then []
    else
      DayCells(year, month, n - 1, actionDates, requestDates, ownRequestMap) +
      [DayFor(year, month, n, actionDates, requestDates, ownRequestMap)]
  }

  lemma {:induction false} DayCellsAt(year: int, month: int, n: nat,
                   actionDates: seq<string>, requestDates: seq<string>, ownRequestMap: map<string, int>, i: nat)
    requires 1 <= month <= 12 && i < n <= 31
    ensures DayCells(year, month, n, actionDates, requestDates, ownRequestMap)[i] ==
      DayFor(year, month, i + 1, actionDates, requestDates, ownRequestMap)
  {
    if i < n - 1 {
      DayCellsAt(year, month, n - 1, actionDates, requestDates, ownRequestMap, i);
    }
  }

  /** The cells of the month in reading order: the blanks, then every day
      from 1 to the month's length with its key and kind. */
  function MonthCells(year: int, month: int, firstWeekday: int,
                      actionDates: seq<string>, requestDates: seq<string>, ownRequestMap: map<string, int>): (cells: seq<Cell>)
    requires 1 <= month <= 12
    ensures |cells| == LeadingBlanks(firstWeekday) + DaysInMonth(year, month)
  {
    seq(LeadingBlanks(firstWeekday), _ => Blank) +
    DayCells(year, month, DaysInMonth(year, month), actionDates, requestDates, ownRequestMap)
  }

  /** Cell j of the month: a blank before the first day, day j - lead + 1
      after. */
  lemma {:induction false} MonthCellAt(year: int, month: int, firstWeekday: int,
                    actionDates: seq<string>, requestDates: seq<string>, ownRequestMap: map<string, int>, j: nat)
    requires 1 <= month <= 12
    requires j < LeadingBlanks(firstWeekday) + DaysInMonth(year, month)
    ensures var cells := MonthCells(year, month, firstWeekday, actionDates, requestDates, ownRequestMap);
      var lead := LeadingBlanks(firstWeekday);
      cells[j] == if j < lead then Blank else DayFor(year, month, j - lead + 1, actionDates, requestDates, ownRequestMap)
  {
    var lead := LeadingBlanks(firstWeekday);
    if j >= lead {
      DayCellsAt(year, month, DaysInMonth(year, month), actionDates, requestDates, ownRequestMap, j - lead);
    }
  }

  /** The first cells are the blanks. */
  lemma {:induction false} BlankCellAt(year: int, month: int, firstWeekday: int,
                    actionDates: seq<string>, requestDates: seq<string>, ownRequestMap: map<string, int>, i: nat)
    requires 1 <= month <= 12 && i < LeadingBlanks(firstWeekday)
    ensures MonthCells(year, month, firstWeekday, actionDates, requestDates, ownRequestMap)[i] == Blank
  {
    MonthCellAt(year, month, firstWeekday, actionDates, requestDates, ownRequestMap, i);
  }

  /** The cell of day `day` sits after the blanks. */
  lemma {:induction false} DayCellAt(year: int, month: int, firstWeekday: int,
                  actionDates: seq<string>, requestDates: seq<string>, ownRequestMap: map<string, int>, day: nat)
    requires 1 <= month <= 12 && 1 <= day <= DaysInMonth(year, month)
    ensures MonthCells(year, month, firstWeekday, actionDates, requestDates, ownRequestMap)[LeadingBlanks(firstWeekday) + day - 1]
      == DayFor(year, month, day, actionDates, requestDates, ownRequestMap)
  {
    MonthCellAt(year, month, firstWeekday, actionDates, requestDates, ownRequestMap, LeadingBlanks(firstWeekday) + day - 1);
  }

  /** The cell of one day. */
  function DayFor(year: int, month: nat, day: nat,
                  actionDates: seq<string>, requestDates: seq<string>, ownRequestMap: map<string, int>): Cell
    requires month <= 12 && day <= 31
  {
    var key := DateKey(year, month, day);
    DayCell(day, key, Classify(key, actionDates, requestDates, ownRequestMap))
  }

  /** `(d.getDay() + 6) % 7` on the `day`-th of the month: its column,
      Monday 0 to Sunday 6, when the 1st falls on `firstWeekday`. */
  function WeekColumn(firstWeekday: int, day: int): int {
    ((firstWeekday + day - 1) % 7 + 6) % 7
  }

  /** The script recomputes the Monday-first weekday of each day from the
      date; with `r` cells already in the current row, it is Sunday
      exactly when `r` is 6. */
  lemma {:induction false} SundayColumn(firstWeekday: int, day: int, t: nat, r: nat)
    requires 0 <= firstWeekday <= 6 && day >= 1 && r < 7
    requires 7 * t + r == LeadingBlanks(firstWeekday) + day - 1
    ensures WeekColumn(firstWeekday, day) == r
  {
    var k := if firstWeekday == 0 then t - 1 else t;
    assert firstWeekday + day - 1 == 7 * k + (r + 1);
    ShiftByWeeks(firstWeekday + day - 1, k, r + 1);
  }

  lemma {:induction false} ShiftByWeeks(a: int, k: int, b: int)
    requires a == 7 * k + b && 1 <= b <= 7
    ensures (a % 7 + 6) % 7 == b - 1
  {
    assert a % 7 == b % 7;
  }

  /** A layout of `total` cells with `t` full rows and `r` cells left over
      has ceil(total / 7) rows once the leftover row is kept. */
  lemma {:induction false} RowsNeeded(t: nat, r: nat, total: nat)
    requires 7 * t + r == total && r < 7
    ensures r == 0 ==> t == (total + 6) / 7
    ensures r > 0 ==> t + 1 == (total + 6) / 7
  {
  }

  function Flatten(rows: seq<seq<Cell>>): seq<Cell> {
    if |rows| == 0 then [] else Flatten(rows[..|rows| - 1]) + rows[|rows| - 1]
  }

  lemma {:induction false} TakeOneMore(s: seq<Cell>, k: nat)
    requires k < |s|
    ensures s[..k + 1] == s[..k] + [s[k]]
  {
  }

  lemma {:induction false} FlattenAppend(rows: seq<seq<Cell>>, row: seq<Cell>)
    ensures Flatten(rows + [row]) == Flatten(rows) + row
  {
    assert (rows + [row])[..|rows|] == rows;
  }

  /** The end of the day loop's body: the cell joins the current row, and
      after a Sunday the row is closed and a new one begun. */
  method PlaceCell(table: seq<seq<Cell>>, row: seq<Cell>, cell: Cell, sunday: bool)
    returns (table': seq<seq<Cell>>, row': seq<Cell>)
    requires |row| < 7 && (sunday <==> |row| == 6)
    requires forall j :: 0 <= j < |table| ==> |table[j]| == 7
    ensures Flatten(table') + row' == Flatten(table) + row + [cell]
    ensures 7 * |table'| + |row'| == 7 * |table| + |row| + 1 && |row'| < 7
    ensures forall j :: 0 <= j < |table'| ==> |table'[j]| == 7
  {
    if sunday {
      FlattenAppend(table, row + [cell]);
      table', row' := table + [row + [cell]], [];
    } else {
      table', row' := table, row + [cell];
    }
  }

  /** One pass of the day loop's body: the day's key, whether it is an
      action day or a request day, and the request it links to. */
  method DayCellOf(year: int, month: int, firstWeekday: int, day: int,
                   actionDates: seq<string>, requestDates: seq<string>, ownRequestMap: map<string, int>)
    returns (cell: Cell)
    requires 1 <= month <= 12 && 1 <= day <= DaysInMonth(year, month)
    ensures cell == MonthCells(year, month, firstWeekday, actionDates, requestDates, ownRequestMap)[LeadingBlanks(firstWeekday) + day - 1]
  {
    var dateStr := DateKey(year, month, day);
    var kind := NeutralDay;
    if dateStr in actionDates {
      kind := ActionDay;
    } else if dateStr in requestDates {
      var reqId := if dateStr in ownRequestMap then ownRequestMap[dateStr] else 0;
      kind := RequestDay(if reqId != 0 then Some(reqId) else None);
    }
    cell := DayCell(day, dateStr, kind);
    DayCellAt(year, month, firstWeekday, actionDates, requestDates, ownRequestMap, day);
  }

  /** Keeping the last row when it is not empty completes the layout:
      every cell in order, rows of seven except a shorter last one, and
      as many rows as the cells need. */
  lemma {:induction false} CloseLayout(table: seq<seq<Cell>>, row: seq<Cell>, cells: seq<Cell>)
    requires Flatten(table) + row == cells
    requires 7 * |table| + |row| == |cells| && |row| < 7
    requires forall j :: 0 <= j < |table| ==> |table[j]| == 7
    ensures var t := if |row| > 0 then table + [row] else table;
      Flatten(t) == cells &&
      (forall i :: 0 <= i < |t| ==> 1 <= |t[i]| <= 7) &&
      (forall i :: 0 <= i < |t| - 1 ==> |t[i]| == 7) &&
      |t| == (|cells| + 6) / 7
  {
    RowsNeeded(|table|, |row|, |cells|);
    FlattenAppend(table, row);
  }

  /** `((d.getDay() + 6) % 7) === 6`, the test that closes a row: with
      `r` cells already in the current row it holds exactly when `r` is 6. */
  method IsSunday(firstWeekday: int, day: int, ghost t: nat, ghost r: nat) returns (sunday: bool)
    requires 0 <= firstWeekday <= 6 && day >= 1 && r < 7
    requires 7 * t + r == LeadingBlanks(firstWeekday) + day - 1
    ensures sunday <==> r == 6
  {
    SundayColumn(firstWeekday, day, t, r);
    sunday := WeekColumn(firstWeekday, day) == 6;
  }

  /** One pass of the day loop: the day's cell joins the layout, which
      then holds the month's cells up to and including that day. */
  method LayDay(year: int, month: int, firstWeekday: int,
                actionDates: seq<string>, requestDates: seq<string>, ownRequestMap: map<string, int>,
                day: int, table: seq<seq<Cell>>, row: seq<Cell>)
    returns (table': seq<seq<Cell>>, row': seq<Cell>)
    requires 1 <= month <= 12 && 0 <= firstWeekday <= 6 && 1 <= day <= DaysInMonth(year, month)
    requires Flatten(table) + row ==
      MonthCells(year, month, firstWeekday, actionDates, requestDates, ownRequestMap)[..LeadingBlanks(firstWeekday) + day - 1]
    requires 7 * |table| + |row| == LeadingBlanks(firstWeekday) + day - 1 && |row| < 7
    requires forall j :: 0 <= j < |table| ==> |table[j]| == 7
    ensures Flatten(table') + row' ==
      MonthCells(year, month, firstWeekday, actionDates, requestDates, ownRequestMap)[..LeadingBlanks(firstWeekday) + day]
    ensures 7 * |table'| + |row'| == LeadingBlanks(firstWeekday) + day && |row'| < 7
    ensures forall j :: 0 <= j < |table'| ==> |table'[j]| == 7
  {
    var cell := DayCellOf(year, month, firstWeekday, day, actionDates, requestDates, ownRequestMap);
    var sunday := IsSunday(firstWeekday, day, |table|, |row|);
    TakeOneMore(MonthCells(year, month, firstWeekday, actionDates, requestDates, ownRequestMap), LeadingBlanks(firstWeekday) + day - 1);
    table', row' := PlaceCell(table, row, cell, sunday);
  }

  /** The day loop of `renderCalendar`: from the row of blanks on, one
      cell per day of the month, a row closed after each Sunday. */
  method LayDays(year: int, month: int, firstWeekday: int,
                 actionDates: seq<string>, requestDates: seq<string>, ownRequestMap: map<string, int>,
                 blanks: seq<Cell>)
    returns (table: seq<seq<Cell>>, row: seq<Cell>)
    requires 1 <= month <= 12 && 0 <= firstWeekday <= 6
    requires blanks == MonthCells(year, month, firstWeekday, actionDates, requestDates, ownRequestMap)[..LeadingBlanks(firstWeekday)]
    ensures Flatten(table) + row == MonthCells(year, month, firstWeekday, actionDates, requestDates, ownRequestMap)
    ensures 7 * |table| + |row| == LeadingBlanks(firstWeekday) + DaysInMonth(year, month) && |row| < 7
    ensures forall j :: 0 <= j < |table| ==> |table[j]| == 7
  {
    ghost var cells := MonthCells(year, month, firstWeekday, actionDates, requestDates, ownRequestMap);
    var n := DaysInMonth(year, month);
    var weekDay := LeadingBlanks(firstWeekday);
    table, row := [], blanks;
    var day := 1;
    while day <= n
      invariant 1 <= day <= n + 1
      invariant Flatten(table) + row == cells[..weekDay + day - 1]
      invariant 7 * |table| + |row| == weekDay + day - 1 && |row| < 7
      invariant forall j :: 0 <= j < |table| ==> |table[j]| == 7
    {
      table, row := LayDay(year, month, firstWeekday, actionDates, requestDates, ownRequestMap, day, table, row);
      day := day + 1;
    }
    assert cells[..weekDay + n] == cells;
  }

  /** `renderCalendar` without the header row: blanks, then one cell per
      day, a row closed after each Sunday and a last partial row kept when
      it is not empty. */
  method RenderCalendar(year: int, month: int, firstWeekday: int,
                        actionDates: seq<string>, requestDates: seq<string>, ownRequestMap: map<string, int>)
    returns (table: seq<seq<Cell>>)
    requires 1 <= month <= 12 && 0 <= firstWeekday <= 6
    ensures Flatten(table) == MonthCells(year, month, firstWeekday, actionDates, requestDates, ownRequestMap)
    ensures forall i :: 0 <= i < |table| ==> 1 <= |table[i]| <= 7
    ensures forall i :: 0 <= i < |table| - 1 ==> |table[i]| == 7
    ensures |table| == (LeadingBlanks(firstWeekday) + DaysInMonth(year, month) + 6) / 7
  {
    ghost var cells := MonthCells(year, month, firstWeekday, actionDates, requestDates, ownRequestMap);
    var weekDay := LeadingBlanks(firstWeekday);
    var row: seq<Cell> := [];

    var i := 0;
    while i < weekDay
      invariant 0 <= i <= weekDay
      invariant row == cells[..i]
    {
      BlankCellAt(year, month, firstWeekday, actionDates, requestDates, ownRequestMap, i);
      TakeOneMore(cells, i);
      row := row + [Blank];
      i := i + 1;
    }

    var row';
    table, row' := LayDays(year, month, firstWeekday, actionDates, requestDates, ownRequestMap, row);
    row := row';
    CloseLayout(table, row, cells);
    if |row| > 0 {
      table := table + [row];
    }
  }
}
