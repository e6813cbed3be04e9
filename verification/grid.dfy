/**
 * The habit activity calendar: a month laid out in rows of seven cells,
 * Sunday first, each day carrying its `YYYY-MM-DD` date string, and the test
 * that tells a future date from a past one by comparing date strings.
 */
module HabitGrid {
  import opened Strings

  /** A calendar cell: `null` after the month's last day, the blank
      placeholder before its first day, or a day of the month. */
  datatype Cell = Empty | Blank | Day(date: string, day: nat)

  /** `${year}-${month padded to 2}-${day padded to 2}`. */
  function DateStr(year: nat, month: nat, day: nat): string
  {
    Decimal(year) + "-" + PadStart(Decimal(month), 2, '0') + "-" + PadStart(Decimal(day), 2, '0')
  }

  /** The cell the grid holds at position `p`, counted row by row from the
      top left (row `p / 7`, column `p % 7`), for a month of `days` days whose
      first day falls on weekday `startDay`. */
  function CellAt(year: nat, month: nat, startDay: nat, days: nat, p: nat): Cell
  {
    if p < startDay then Blank
    else if p < startDay + days then Day(DateStr(year, month, p - startDay + 1), p - startDay + 1)
    else Empty
  }

  function Empties(): (w: seq<Cell>)
    ensures |w| == 7 && forall c :: 0 <= c < 7 ==> w[c] == Empty
  {
    [Empty, Empty, Empty, Empty, Empty, Empty, Empty]
  }

  /** Row `r` of the month's grid. */
  function RowAt(year: nat, month: nat, startDay: nat, days: nat, r: nat): (row: seq<Cell>)
    ensures |row| == 7
    ensures forall c :: 0 <= c < 7 ==> row[c] == CellAt(year, month, startDay, days, 7 * r + c)
  {
    seq(7, c requires 0 <= c < 7 => CellAt(year, month, startDay, days, 7 * r + c))
  }

  /** The first `n` rows of the month's grid. */
  function RowsUpTo(year: nat, month: nat, startDay: nat, days: nat, n: nat): (rows: seq<seq<Cell>>)
    ensures |rows| == n
    ensures forall r :: 0 <= r < n ==> rows[r] == RowAt(year, month, startDay, days, r)
  {
    if n == 0 then [] else RowsUpTo(year, month, startDay, days, n - 1) + [RowAt(year, month, startDay, days, n - 1)]
  }

  /** Row `r` filled in up to column `k`, `null` from there on. */
  function PartialRow(year: nat, month: nat, startDay: nat, days: nat, r: nat, k: nat): (row: seq<Cell>)
    ensures |row| == 7
    ensures forall c :: 0 <= c < 7 ==> row[c] == if c < k then CellAt(year, month, startDay, days, 7 * r + c) else Empty
  {
    seq(7, c requires 0 <= c < 7 => if c < k then CellAt(year, month, startDay, days, 7 * r + c) else Empty)
  }

  lemma FillCell(year: nat, month: nat, startDay: nat, days: nat, r: nat, k: nat)
    requires k < 7
    ensures PartialRow(year, month, startDay, days, r, k)[k := CellAt(year, month, startDay, days, 7 * r + k)]
            == PartialRow(year, month, startDay, days, r, k + 1)
  {
  }

  /** A row filled up to a column from which on the month is over is the
      whole row; in particular a row filled to its end is. */
  lemma RowComplete(year: nat, month: nat, startDay: nat, days: nat, r: nat, k: nat)
    requires k == 7 || 7 * r + k >= startDay + days
    ensures PartialRow(year, month, startDay, days, r, k) == RowAt(year, month, startDay, days, r)
  {
  }

  lemma NothingFilled(year: nat, month: nat, startDay: nat, days: nat, r: nat)
    ensures PartialRow(year, month, startDay, days, r, 0) == Empties()
  {
  }

  /** `week.some((c) => c !== null)`. */
  predicate AnyFilled(week: seq<Cell>)
  {
    exists c :: 0 <= c < |week| && week[c] != Empty
  }

  /** `getMonthGrid` with the weekday of the 1st (0 for Sunday) and the
      length of the month as inputs. The grid has as many rows as the month
      spans weeks, every row has seven cells, and every cell is the one
      `CellAt` places there. */
  method MonthGrid(year: nat, month: nat, startDay: nat, days: nat) returns (grid: seq<seq<Cell>>)
    requires startDay < 7
    ensures |grid| == (startDay + days + 6) / 7
    ensures forall r :: 0 <= r < |grid| ==> |grid[r]| == 7
    ensures forall r, c :: 0 <= r < |grid| && 0 <= c < 7 ==> grid[r][c] == CellAt(year, month, startDay, days, 7 * r + c)
  {
    grid := [];
    var week := Empties();
    NothingFilled(year, month, startDay, days, 0);
    var i := 0;
    while i < startDay
      invariant 0 <= i <= startDay
      invariant week == PartialRow(year, month, startDay, days, 0, i)
    {
      FillCell(year, month, startDay, days, 0, i);
      week := week[i := Blank];
      i := i + 1;
    }
    var d := 1;
    ghost var r, col := 0, startDay;
    while d <= days
      invariant 1 <= d <= days + 1
      invariant 7 * r + col == startDay + d - 1 && col < 7
      invariant d <= days || days == 0 ==>
                  grid == RowsUpTo(year, month, startDay, days, r)
                  && week == PartialRow(year, month, startDay, days, r, col)
      invariant d > days && days > 0 ==>
                  grid == RowsUpTo(year, month, startDay, days, if col == 0 then r else r + 1) && week == Empties()
    {
      week, grid := PlaceDay(year, month, startDay, days, d, week, grid, r, col);
      if col == 6 {
        r, col := r + 1, 0;
      } else {
        col := col + 1;
      }
      d := d + 1;
    }
    CeilRows(r, col);
    if days == 0 {
      RowComplete(year, month, startDay, days, 0, startDay);
      if startDay > 0 {
        assert week[0] == Blank;
      }
    }
    if AnyFilled(week) {
      grid := grid + [week];
    }
  }

  /** One turn of the day loop: day `d` goes into its column of the
      current week, and the week is pushed as a row when it is full or the
      month is over. */
  method PlaceDay(year: nat, month: nat, startDay: nat, days: nat, d: nat, week: seq<Cell>, grid: seq<seq<Cell>>,
                  ghost r: nat, ghost col: nat)
    returns (week': seq<Cell>, grid': seq<seq<Cell>>)
    requires 1 <= d <= days && 7 * r + col == startDay + d - 1 && col < 7
    requires grid == RowsUpTo(year, month, startDay, days, r)
    requires week == PartialRow(year, month, startDay, days, r, col)
    ensures col < 6 && d < days ==> grid' == grid && week' == PartialRow(year, month, startDay, days, r, col + 1)
    ensures col == 6 || d == days ==> grid' == RowsUpTo(year, month, startDay, days, r + 1) && week' == Empties()
    ensures col == 6 ==> week' == PartialRow(year, month, startDay, days, r + 1, 0)
  {
    var dayOfWeek := (startDay + d - 1) % 7;
    RowColumn(r, col);
    assert CellAt(year, month, startDay, days, 7 * r + col) == Day(DateStr(year, month, d), d);
    FillCell(year, month, startDay, days, r, col);
    week' := week[dayOfWeek := Day(DateStr(year, month, d), d)];
    grid' := grid;
    if dayOfWeek == 6 || d == days {
      RowComplete(year, month, startDay, days, r, col + 1);
      grid' := grid + [week'];
      assert grid' == RowsUpTo(year, month, startDay, days, r + 1);
      week' := Empties();
      NothingFilled(year, month, startDay, days, r + 1);
    }
  }

  /** Position `7 * r + col` lies in row `r`, column `col`. */
  lemma RowColumn(r: nat, col: nat)
    requires col < 7
    ensures (7 * r + col) % 7 == col && (7 * r + col) / 7 == r
  {
  }

  /** The number of rows a month ending before position `7 * r + col` spans. */
  lemma CeilRows(r: nat, col: nat)
    requires col < 7
    ensures (7 * r + col + 6) / 7 == if col == 0 then r else r + 1
  {
  }

  /** Day `d` of the month sits at position `startDay + d - 1`, and no other
      position holds it. */
  lemma EachDayOnce(year: nat, month: nat, startDay: nat, days: nat, d: nat, p: nat)
    requires 1 <= d <= days
    ensures CellAt(year, month, startDay, days, startDay + d - 1) == Day(DateStr(year, month, d), d)
    ensures CellAt(year, month, startDay, days, p).Day? && CellAt(year, month, startDay, days, p).day == d
            ==> p == startDay + d - 1
  {
  }

  /** Only the cells before the first day are placeholders, and they all lie
      in the first row. */
  lemma BlanksLeadTheFirstRow(year: nat, month: nat, startDay: nat, days: nat, p: nat)
    requires startDay < 7
    ensures CellAt(year, month, startDay, days, p) == Blank <==> p < startDay
    ensures CellAt(year, month, startDay, days, p) == Blank ==> p / 7 == 0
  {
  }

  /** For a four-digit year, a month and a day below 100 the date string is
      the fixed-width `YYYY-MM-DD`. */
  lemma DateStrFixedWidth(year: nat, month: nat, day: nat)
    requires 1000 <= year <= 9999 && month < 100 && day < 100
    ensures DateStr(year, month, day) == Digits(year, 4) + "-" + Digits(month, 2) + "-" + Digits(day, 2)
    ensures |DateStr(year, month, day)| == 10
  {
    DecimalIsDigits(year, 4);
    PadTwoIsDigits(month);
    PadTwoIsDigits(day);
  }

  /** `isFuture(dateStr)`: the date string sorts after today's. */
  predicate IsFuture(dateStr: string, today: string)
  {
    LexLess(today, dateStr)
  }

  /** `(y, m, d)` comes before `(y', m', d')` on the calendar. */
  predicate Before(y: nat, m: nat, d: nat, y': nat, m': nat, d': nat)
  {
    y < y' || (y == y' && (m < m' || (m == m' && d < d')))
  }

  /** A shared separator in front does not change the order. */
  lemma LexLessAfterDash(x: string, y: string)
    ensures LexLess("-" + x, "-" + y) <==> LexLess(x, y)
  {
    LexLessConcat("-", x, "-", y);
    LexLessIrreflexive("-");
  }

  /** Strings of two fixed-width fields and a tail, joined by dashes,
      compare field by field. */
  lemma LexLessFields(a1: string, a2: string, a3: string, b1: string, b2: string, b3: string)
    requires |a1| == |b1| && |a2| == |b2|
    ensures LexLess(a1 + "-" + a2 + "-" + a3, b1 + "-" + b2 + "-" + b3)
            <==> LexLess(a1, b1) || (a1 == b1 && (LexLess(a2, b2) || (a2 == b2 && LexLess(a3, b3))))
  {
    var ta, tb := a2 + ("-" + a3), b2 + ("-" + b3);
    assert a1 + "-" + a2 + "-" + a3 == a1 + ("-" + ta);
    assert b1 + "-" + b2 + "-" + b3 == b1 + ("-" + tb);
    LexLessConcat(a1, "-" + ta, b1, "-" + tb);
    LexLessAfterDash(ta, tb);
    LexLessConcat(a2, "-" + a3, b2, "-" + b3);
    LexLessAfterDash(a3, b3);
  }

  /** For four-digit years, comparing date strings is comparing dates. */
  lemma IsFutureIsChronological(y: nat, m: nat, d: nat, ty: nat, tm: nat, td: nat)
    requires 1000 <= y <= 9999 && m < 100 && d < 100
    requires 1000 <= ty <= 9999 && tm < 100 && td < 100
    ensures IsFuture(DateStr(y, m, d), DateStr(ty, tm, td)) <==> Before(ty, tm, td, y, m, d)
  {
    DateStrFixedWidth(y, m, d);
    DateStrFixedWidth(ty, tm, td);
    LexLessFields(Digits(ty, 4), Digits(tm, 2), Digits(td, 2), Digits(y, 4), Digits(m, 2), Digits(d, 2));
    DigitsOrder(ty, y, 4);
    DigitsOrder(tm, m, 2);
    DigitsOrder(td, d, 2);
    DigitsInjective(ty, y, 4);
    DigitsInjective(tm, m, 2);
  }
}
