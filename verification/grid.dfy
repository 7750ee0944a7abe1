/** The month grid of `renderCells`: the first and last day of the anchor's
    month, its length, the Monday-first offset of its first day, the flat
    sequence of cells (leading blanks, then one cell per day) and the rows it
    is cut into. Markup and styling are left to the renderer. */
module Grid {
  import opened Gregorian
  import DateKey

  /** `getFirstDayOfMonth(anchor)`: `new Date(year, month, 1)`. */
  function FirstDayOfMonth(anchor: Date): (r: Date)
    ensures r == Ymd(anchor.year, anchor.month0, 1)
  {
    NormalizeValid(anchor.year, anchor.month0, 1);
    NormalizeDate(anchor.year, anchor.month0, 1)
  }

  /** `getLastDayOfMonth(anchor)`: day 0 of the following month. */
  function LastDayOfMonth(anchor: Date): (r: Date)
    ensures r.year == anchor.year && r.month0 == anchor.month0
    ensures r.day == DaysInMonth(anchor.year, anchor.month0)
  {
    DayZeroIsLastDay(anchor.year, anchor.month0);
    NormalizeDate(anchor.year, anchor.month0 + 1, 0)
  }

  /** `getDaysInMonth(anchor)`: the day number of day 0 of the following month. */
  function DaysInMonthOf(anchor: Date): (n: int)
    ensures n == DaysInMonth(anchor.year, anchor.month0)
    ensures 28 <= n <= 31
    ensures anchor.month0 == 1 ==> (n == 29 <==> IsLeapYear(anchor.year))
    ensures n == LastDayOfMonth(anchor).day
  {
    DayZeroIsLastDay(anchor.year, anchor.month0);
    NormalizeDate(anchor.year, anchor.month0 + 1, 0).day
  }

  /** `getDaysInMonth` as the source computes it, through the Date
      constructor, which reads a year in 0..99 as 1900 + year: such a month
      gets the length of the same month of the 20th century. */
  function DaysInMonthOfAsWritten(anchor: Date): (n: int)
    ensures 0 <= anchor.year <= 99 ==> n == DaysInMonth(1900 + anchor.year, anchor.month0)
    ensures !(0 <= anchor.year <= 99) ==> n == DaysInMonthOf(anchor)
  {
    DayZeroIsLastDay(anchor.year, anchor.month0);
    DayZeroIsLastDay(1900 + anchor.year, anchor.month0);
    ConstructDate(anchor.year, anchor.month0 + 1, 0).day
  }

  /** February of year 0 has 29 days (year 0 is divisible by 400), but the
      source's grid shows 28, the length of February 1900. */
  lemma YearZeroFebruary()
    ensures IsLeapYear(0) && !IsLeapYear(1900)
    ensures DaysInMonthOf(Ymd(0, 1, 1)) == 29
    ensures DaysInMonthOfAsWritten(Ymd(0, 1, 1)) == 28
  {
  }

  /** Number of leading blanks: the weekday of the 1st with Monday as 0
      (`getDay()` counts from Sunday, so Sunday becomes 6). The 1st is
      written out as a triple here; StartDayOfFirstDay ties it to
      FirstDayOfMonth. */
  function StartDay(anchor: Date): (s: int)
    ensures 0 <= s < 7
  {
    var wd := JsWeekday(Ymd(anchor.year, anchor.month0, 1));
    if wd == 0 then 6 else wd - 1
  }

  /** The offset is the Monday-first weekday of the 1st: 0 for a Monday and
      6 for a Sunday. */
  lemma StartDayIsWeekday(anchor: Date)
    ensures StartDay(anchor) == MondayFirstWeekday(Ymd(anchor.year, anchor.month0, 1))
    ensures StartDay(anchor) == 0 <==> JsWeekday(Ymd(anchor.year, anchor.month0, 1)) == 1
    ensures StartDay(anchor) == 6 <==> JsWeekday(Ymd(anchor.year, anchor.month0, 1)) == 0
  {
    MondayFirstFromSundayFirst(Ymd(anchor.year, anchor.month0, 1));
  }

  /** The offset is the source's expression on `getFirstDayOfMonth`. */
  lemma StartDayOfFirstDay(anchor: Date)
    ensures var wd := JsWeekday(FirstDayOfMonth(anchor));
      StartDay(anchor) == if wd == 0 then 6 else wd - 1
    ensures StartDay(anchor) == MondayFirstWeekday(FirstDayOfMonth(anchor))
  {
    StartDayIsWeekday(anchor);
  }

  /** Day `d` lands in the column of its own Monday-first weekday. */
  lemma StartDayAligns(anchor: Date, d: int)
    requires 1 <= d <= DaysInMonth(anchor.year, anchor.month0)
    ensures (StartDay(anchor) + d - 1) % 7 == MondayFirstWeekday(Ymd(anchor.year, anchor.month0, d))
  {
    StartDayIsWeekday(anchor);
    WeekdayOfDay(anchor.year, anchor.month0, d);
  }

  datatype Cell =
    | Blank
    | DayCell(day: int, date: Date, key: string, selected: bool)

  /** The cell of day `day`: its date, its key, and whether the key equals
      the selected date's key. The date is `new Date(year, month, day)`,
      which for a day within the month is the triple itself
      (DayCellDateIsConstructed). */
  function DayCellOf(anchor: Date, day: int, selectedKey: string): Cell
    requires 1 <= day <= DaysInMonth(anchor.year, anchor.month0)
  {
    var date: Date := Ymd(anchor.year, anchor.month0, day);
    var key := DateKey.FormattedDate(date);
    DayCell(day, date, key, key == selectedKey)
  }

  lemma DayCellDateIsConstructed(anchor: Date, day: int, selectedKey: string)
    requires 1 <= day <= DaysInMonth(anchor.year, anchor.month0)
    ensures DayCellOf(anchor, day, selectedKey).date == NormalizeDate(anchor.year, anchor.month0, day)
  {
    NormalizeValid(anchor.year, anchor.month0, day);
  }

  /** The day cells of the anchor's month, days 1..n in order. */
  function MonthDays(anchor: Date, selected: Date): (days: seq<Cell>)
    ensures |days| == DaysInMonth(anchor.year, anchor.month0)
    ensures forall i :: 0 <= i < |days| ==>
      days[i] == DayCellOf(anchor, i + 1, DateKey.FormattedDate(selected))
  {
    var n := DaysInMonth(anchor.year, anchor.month0);
    var key := DateKey.FormattedDate(selected);
    seq(n, i requires 0 <= i < n => DayCellOf(anchor, i + 1, key))
  }

  /** Cells numbered 1, 2, ... in order. */
  ghost predicate Numbered(days: seq<Cell>) {
    forall i :: 0 <= i < |days| ==> days[i].DayCell? && days[i].day == i + 1
  }

  function Blanks(s: nat): (r: seq<Cell>)
    ensures |r| == s && forall i :: 0 <= i < s ==> r[i] == Blank
  {
    seq(s, _ => Blank)
  }

  /** The flat cell sequence: StartDay blanks, then days 1..n in order. */
  function MonthCells(anchor: Date, selected: Date): (cells: seq<Cell>)
    ensures |cells| == StartDay(anchor) + DaysInMonth(anchor.year, anchor.month0)
  {
    Blanks(StartDay(anchor)) + MonthDays(anchor, selected)
  }

  lemma MonthCellsLayout(anchor: Date, selected: Date)
    ensures var cells, s := MonthCells(anchor, selected), StartDay(anchor);
      && |cells| == s + DaysInMonth(anchor.year, anchor.month0)
      && (forall i :: 0 <= i < s ==> cells[i] == Blank)
      && (forall i :: s <= i < |cells| ==>
            cells[i].DayCell? && cells[i].day == i - s + 1 &&
            cells[i].date == Ymd(anchor.year, anchor.month0, i - s + 1))
    ensures Numbered(MonthDays(anchor, selected))
  {
    var s, days := StartDay(anchor), MonthDays(anchor, selected);
    var cells := MonthCells(anchor, selected);
    MonthDaysLayout(anchor, selected);
    forall i | s <= i < |cells|
      ensures cells[i] == days[i - s]
    {
    }
  }

  lemma MonthDaysLayout(anchor: Date, selected: Date)
    ensures var days := MonthDays(anchor, selected);
      && Numbered(days)
      && forall i :: 0 <= i < |days| ==> days[i].date == Ymd(anchor.year, anchor.month0, i + 1)
  {
    var days := MonthDays(anchor, selected);
    forall i | 0 <= i < |days|
      ensures days[i].DayCell? && days[i].day == i + 1 && days[i].date == Ymd(anchor.year, anchor.month0, i + 1)
    {
      DayCellFields(anchor, i + 1, DateKey.FormattedDate(selected));
    }
  }

  /** The fields of a day's cell. */
  lemma DayCellFields(anchor: Date, day: int, selectedKey: string)
    requires 1 <= day <= DaysInMonth(anchor.year, anchor.month0)
    ensures var c := DayCellOf(anchor, day, selectedKey);
      && c.DayCell? && c.day == day && c.date == Ymd(anchor.year, anchor.month0, day)
      && c.key == DateKey.FormattedDate(c.date) && (c.selected <==> c.key == selectedKey)
  {
  }

  /** A cell is highlighted exactly when its date is the selected date. */
  lemma HighlightIsSelection(anchor: Date, selected: Date)
    ensures var cells := MonthCells(anchor, selected);
      forall i :: 0 <= i < |cells| && cells[i].DayCell? ==>
        (cells[i].selected <==> cells[i].date == selected)
  {
    var cells := MonthCells(anchor, selected);
    MonthCellsLayout(anchor, selected);
    forall i | 0 <= i < |cells| && cells[i].DayCell?
      ensures cells[i].selected <==> cells[i].date == selected
    {
      DateKey.FormattedDateInjective(cells[i].date, selected);
    }
  }

  /** Hence at most one cell is highlighted. */
  lemma AtMostOneHighlight(anchor: Date, selected: Date)
    ensures var cells := MonthCells(anchor, selected);
      forall i, j ::
        0 <= i < |cells| && 0 <= j < |cells| && cells[i].DayCell? && cells[j].DayCell? &&
        cells[i].selected && cells[j].selected
        ==> i == j
  {
    var cells := MonthCells(anchor, selected);
    MonthCellsLayout(anchor, selected);
    HighlightIsSelection(anchor, selected);
  }

  /** A cell is highlighted exactly when the selection lies in the displayed
      month. */
  lemma HighlightShownIffSameMonth(anchor: Date, selected: Date)
    ensures var cells := MonthCells(anchor, selected);
      (exists i :: 0 <= i < |cells| && cells[i].DayCell? && cells[i].selected) <==>
        (selected.year == anchor.year && selected.month0 == anchor.month0)
  {
    var cells := MonthCells(anchor, selected);
    var s := StartDay(anchor);
    MonthCellsLayout(anchor, selected);
    HighlightIsSelection(anchor, selected);
    if selected.year == anchor.year && selected.month0 == anchor.month0 {
      var i := s + selected.day - 1;
      assert cells[i].date == selected;
    }
  }

  /** Cuts a sequence into rows of seven; the last row keeps what is left
      over and is not padded. */
  function Weeks<T>(s: seq<T>): seq<seq<T>>
    decreases |s|
  {
    if |s| == 0 then []
    else if |s| <= 7 then [s]
    else [s[..7]] + Weeks(s[7..])
  }

  function Flatten<T>(rows: seq<seq<T>>): seq<T>
    decreases |rows|
  {
    if |rows| == 0 then [] else rows[0] + Flatten(rows[1..])
  }

  lemma WeeksCons<T>(a: seq<T>, b: seq<T>)
    requires |a| == 7
    ensures Weeks(a + b) == [a] + Weeks(b)
  {
    if |b| > 0 {
      assert (a + b)[..7] == a;
      assert (a + b)[7..] == b;
    } else {
      assert a + b == a;
    }
  }

  /** Every row but the last has seven cells, the last has one to seven, there
      are ceil(|s| / 7) rows, and the rows put together give `s` back. */
  lemma {:induction false} WeeksShape<T>(s: seq<T>)
    ensures var w := Weeks(s);
      && |w| == (|s| + 6) / 7
      && (forall i :: 0 <= i < |w| - 1 ==> |w[i]| == 7)
      && (|s| > 0 ==> 1 <= |w[|w| - 1]| <= 7)
      && Flatten(w) == s
    decreases |s|
  {
    if |s| > 7 {
      WeeksShape(s[7..]);
      var w := Weeks(s);
      assert w[1..] == Weeks(s[7..]);
      assert s == s[..7] + s[7..];
    }
  }

  /** Cell `j` of row `i` is cell `7 * i + j` of the flat sequence. */
  lemma {:induction false} WeeksIndex<T>(s: seq<T>, i: int)
    requires 0 <= i < |Weeks(s)|
    ensures 7 * i < |s|
    ensures var row := Weeks(s)[i];
      && |row| == (if |s| - 7 * i < 7 then |s| - 7 * i else 7)
      && forall j :: 0 <= j < |row| ==> row[j] == s[7 * i + j]
    decreases |s|
  {
    WeeksShape(s);
    if i > 0 {
      WeeksIndex(s[7..], i - 1);
    }
  }

  /** The source's row-break test after day `day`. */
  predicate BreaksAfter(startDay: int, daysInMonth: int, day: int) {
    (day + startDay) % 7 == 0 || day == daysInMonth
  }

  /** `s` blanks followed by days numbered 1, 2, ... */
  ghost predicate IsLayout(cells: seq<Cell>, s: int) {
    && 0 <= s <= |cells|
    && (forall k :: 0 <= k < s ==> cells[k].Blank?)
    && (forall k :: s <= k < |cells| ==> cells[k].DayCell? && cells[k].day == k - s + 1)
  }

  lemma BlanksThenDays(s: nat, days: seq<Cell>)
    requires Numbered(days)
    ensures IsLayout(Blanks(s) + days, s)
  {
    var cells := Blanks(s) + days;
    forall k | s <= k < |cells|
      ensures cells[k].DayCell? && cells[k].day == k - s + 1
    {
      assert cells[k] == days[k - s];
    }
  }

  /** For any offset below 7 and at least one day, every row ends with a day
      that passes the break test, and no other day in a row passes it. */
  lemma LayoutBreaks(cells: seq<Cell>, s: int)
    requires s < 7 && |cells| > s && IsLayout(cells, s)
    ensures var n, rows := |cells| - s, Weeks(cells);
      forall i :: 0 <= i < |rows| ==>
        |rows[i]| >= 1 && rows[i][|rows[i]| - 1].DayCell? && BreaksAfter(s, n, rows[i][|rows[i]| - 1].day)
    ensures var n, rows := |cells| - s, Weeks(cells);
      forall i, j :: 0 <= i < |rows| && 0 <= j < |rows[i]| - 1 && rows[i][j].DayCell? ==>
        !BreaksAfter(s, n, rows[i][j].day)
  {
    var rows: seq<seq<Cell>> := Weeks(cells);
    forall i | 0 <= i < |rows|
      ensures |rows[i]| >= 1 && rows[i][|rows[i]| - 1].DayCell? && BreaksAfter(s, |cells| - s, rows[i][|rows[i]| - 1].day)
      ensures forall j :: 0 <= j < |rows[i]| - 1 && rows[i][j].DayCell? ==> !BreaksAfter(s, |cells| - s, rows[i][j].day)
    {
      RowEndBreaks(cells, s, i);
      RowInsideDoesNotBreak(cells, s, i);
    }
  }

  lemma RowEndBreaks(cells: seq<Cell>, s: int, i: int)
    requires s < 7 && |cells| > s && IsLayout(cells, s)
    requires 0 <= i < |Weeks(cells)|
    ensures var row := Weeks(cells)[i];
      |row| >= 1 && row[|row| - 1].DayCell? && BreaksAfter(s, |cells| - s, row[|row| - 1].day)
  {
    WeeksIndex(cells, i);
    var row := Weeks(cells)[i];
    var len := |row|;
    assert 7 * i + len - 1 >= s;
    assert row[len - 1] == cells[7 * i + len - 1];
  }

  lemma RowInsideDoesNotBreak(cells: seq<Cell>, s: int, i: int)
    requires s < 7 && |cells| > s && IsLayout(cells, s)
    requires 0 <= i < |Weeks(cells)|
    ensures var row := Weeks(cells)[i];
      forall j :: 0 <= j < |row| - 1 && row[j].DayCell? ==> !BreaksAfter(s, |cells| - s, row[j].day)
  {
    WeeksIndex(cells, i);
    var row := Weeks(cells)[i];
    forall j | 0 <= j < |row| - 1 && row[j].DayCell?
      ensures !BreaksAfter(s, |cells| - s, row[j].day)
    {
      assert row[j] == cells[7 * i + j];
      assert (7 * i + j + 1) % 7 == j + 1;
    }
  }

  /** The month's rows break exactly where the source breaks them. */
  lemma RowsBreakExactly(anchor: Date, selected: Date)
    ensures var s, n, rows := StartDay(anchor), DaysInMonth(anchor.year, anchor.month0), Weeks(MonthCells(anchor, selected));
      forall i :: 0 <= i < |rows| ==>
        |rows[i]| >= 1 && rows[i][|rows[i]| - 1].DayCell? && BreaksAfter(s, n, rows[i][|rows[i]| - 1].day)
    ensures var s, n, rows := StartDay(anchor), DaysInMonth(anchor.year, anchor.month0), Weeks(MonthCells(anchor, selected));
      forall i, j :: 0 <= i < |rows| && 0 <= j < |rows[i]| - 1 && rows[i][j].DayCell? ==>
        !BreaksAfter(s, n, rows[i][j].day)
  {
    var s, cells := StartDay(anchor), MonthCells(anchor, selected);
    assert IsLayout(cells, s) by {
      MonthCellsLayout(anchor, selected);
      BlanksThenDays(s, MonthDays(anchor, selected));
    }
    LayoutBreaks(cells, s);
  }

  /** A month spans four to six rows; four only for a 28-day February that
      starts on a Monday. */
  lemma RowCount(anchor: Date, selected: Date)
    ensures var rows := Weeks(MonthCells(anchor, selected));
      && |rows| == (StartDay(anchor) + DaysInMonth(anchor.year, anchor.month0) + 6) / 7
      && 4 <= |rows| <= 6
      && (|rows| == 4 <==> StartDay(anchor) == 0 && DaysInMonth(anchor.year, anchor.month0) == 28)
  {
    var cells := MonthCells(anchor, selected);
    WeeksShape(cells);
    RowsForLength(StartDay(anchor), DaysInMonth(anchor.year, anchor.month0));
  }

  lemma RowsForLength(s: int, n: int)
    requires 0 <= s < 7 && 28 <= n <= 31
    ensures 4 <= (s + n + 6) / 7 <= 6
    ensures (s + n + 6) / 7 == 4 <==> s == 0 && n == 28
  {
  }

  /** The loops of `renderCells` on `startDay` and the day cells: push the
      blanks, then each day's cell, and close a row after day `day` when
      `(day + startDay) % 7 == 0` or it is the last day. */
  method CutRows(startDay: int, days: seq<Cell>) returns (rows: seq<seq<Cell>>)
    requires 0 <= startDay < 7 && |days| >= 1
    ensures rows == Weeks(Blanks(startDay) + days)
  {
    var daysInMonth := |days|;
    ghost var flat := Blanks(startDay) + days;
    rows := [];
    var cells: seq<Cell> := [];
    var i := 0;
    while i < startDay
      invariant 0 <= i <= startDay
      invariant cells == flat[..i]
    {
      cells := cells + [Blank];
      i := i + 1;
    }
    assert cells + flat[startDay..] == flat;
    var day := 1;
    while day <= daysInMonth
      invariant 1 <= day <= daysInMonth + 1
      invariant rows + Weeks(cells + flat[startDay + day - 1..]) == Weeks(flat)
      invariant day <= daysInMonth ==> |cells| == (startDay + day - 1) % 7
      invariant day > daysInMonth ==> cells == []
    {
      var k := startDay + day - 1;
      assert flat[k] == days[day - 1];
      var close := (day + startDay) % 7 == 0 || day == daysInMonth;
      NextPlace(k);
      AdvanceRow(rows, cells, flat, k, close);
      cells := cells + [days[day - 1]];
      if close {
        rows := rows + [cells];
        cells := [];
      }
      day := day + 1;
    }
  }

  /** One day of the loop: the next cell joins the open row, and a row that
      is full, or holds the last day, is closed. Either way the rows so far
      and the rows still to come make up the rows of the whole sequence. */
  lemma AdvanceRow<T>(rows: seq<seq<T>>, cells: seq<T>, flat: seq<T>, k: int, close: bool)
    requires 0 <= k < |flat|
    requires rows + Weeks(cells + flat[k..]) == Weeks(flat)
    requires close ==> |cells| + 1 == 7 || (k + 1 == |flat| && |cells| + 1 <= 7)
    ensures close ==> (rows + [cells + [flat[k]]]) + Weeks([] + flat[k + 1..]) == Weeks(flat)
    ensures !close ==> rows + Weeks((cells + [flat[k]]) + flat[k + 1..]) == Weeks(flat)
  {
    PushNext(cells, flat, k);
    if close {
      CloseRow(cells + [flat[k]], flat[k + 1..]);
    }
  }

  /** Moving the next element of `flat` onto the open row leaves the
      concatenation unchanged. */
  lemma PushNext<T>(cells: seq<T>, flat: seq<T>, k: int)
    requires 0 <= k < |flat|
    ensures (cells + [flat[k]]) + flat[k + 1..] == cells + flat[k..]
  {
    assert flat[k..] == [flat[k]] + flat[k + 1..];
  }

  /** Closing a full row, or the last row, peels it off the front. */
  lemma CloseRow<T>(cells: seq<T>, rest: seq<T>)
    requires |cells| == 7 || (rest == [] && 1 <= |cells| <= 7)
    ensures Weeks(cells + rest) == [cells] + Weeks([] + rest)
  {
    if |cells| == 7 {
      WeeksCons(cells, rest);
    } else {
      assert cells + rest == cells;
    }
    assert [] + rest == rest;
  }

  /** `renderCells`: the month's rows, as the source builds them. */
  method RenderRows(anchor: Date, selected: Date) returns (rows: seq<seq<Cell>>)
    ensures rows == Weeks(MonthCells(anchor, selected))
    ensures Flatten(rows) == MonthCells(anchor, selected)
    ensures |rows| == (StartDay(anchor) + DaysInMonth(anchor.year, anchor.month0) + 6) / 7
    ensures forall i :: 0 <= i < |rows| - 1 ==> |rows[i]| == 7
    ensures 1 <= |rows[|rows| - 1]| <= 7
  {
    rows := CutRows(StartDay(anchor), MonthDays(anchor, selected));
    MonthRowsShape(anchor, selected);
  }

  lemma MonthRowsShape(anchor: Date, selected: Date)
    ensures var cells := MonthCells(anchor, selected); var w := Weeks(cells);
      && Flatten(w) == cells
      && |w| == (StartDay(anchor) + DaysInMonth(anchor.year, anchor.month0) + 6) / 7
      && (forall i :: 0 <= i < |w| - 1 ==> |w[i]| == 7)
      && |w| >= 1 && 1 <= |w[|w| - 1]| <= 7
  {
    var cells := MonthCells(anchor, selected);
    assert |cells| == StartDay(anchor) + DaysInMonth(anchor.year, anchor.month0) >= 1;
    WeeksShape(cells);
  }
}
