/**
  The date picker's month grid (backend/static/js/datepicker.js). Dates are
  proleptic Gregorian local dates; day numbers and week days are those of section
  21.4.1 of ECMA-262. Months count from 0, as in the source.
 */
module Calendar {
  import opened Common

  datatype Date = Date(y: int, m: int, d: int)

  // ---------- the calendar ----------

  predicate IsLeap(y: int) {
    y % 4 == 0 && (y % 100 != 0 || y % 400 == 0)
  }

  function DaysInMonth(y: int, m: int): (n: int)
    ensures 28 <= n <= 31
  {
    if m == 1 then (if IsLeap(y) then 29 else 28)
    else if m == 3 || m == 5 || m == 8 || m == 10 then 30
    else 31
  }

  predicate ValidDate(t: Date) {
    0 <= t.m <= 11 && 1 <= t.d <= DaysInMonth(t.y, t.m)
  }

  function MonthAfter(y: int, m: int): (int, int) {
    if m == 11 then (y + 1, 0) else (y, m + 1)
  }

  function MonthBefore(y: int, m: int): (int, int) {
    if m == 0 then (y - 1, 11) else (y, m - 1)
  }

  /** The calendar successor. */
  function NextDay(t: Date): Date {
    if t.d < DaysInMonth(t.y, t.m) then Date(t.y, t.m, t.d + 1)
    else Date(MonthAfter(t.y, t.m).0, MonthAfter(t.y, t.m).1, 1)
  }

  // ---------- ECMA-262 ----------

  /** DayFromYear: days from 1 January 1970 to 1 January of year y. */
  function DayFromYear(y: int): int {
    365 * (y - 1970) + (y - 1969) / 4 - (y - 1901) / 100 + (y - 1601) / 400
  }

  function DayWithinYear(y: int, m: int): int
    requires 0 <= m <= 11
  {
    if m == 0 then 0 else DayWithinYear(y, m - 1) + DaysInMonth(y, m - 1)
  }

  function DayNumber(t: Date): int
    requires 0 <= t.m <= 11
  {
    DayFromYear(t.y) + DayWithinYear(t.y, t.m) + t.d - 1
  }

  /** WeekDay: 0 is Sunday. */
  function WeekDay(day: int): (w: int)
    ensures 0 <= w < 7
  {
    (day + 4) % 7
  }

  /** MakeDay for a month and day that may lie outside their ranges. */
  function MakeDay(y: int, m: int, d: int): int {
    DayFromYear(y + m / 12) + DayWithinYear(y + m / 12, m % 12) + d - 1
  }

  lemma YearLength(y: int)
    ensures DayFromYear(y + 1) == DayFromYear(y) + (if IsLeap(y) then 366 else 365)
  {
    FourthYear(y);
    Century(y);
    FourthCentury(y);
    CenturiesDivide(y);
  }

  lemma CenturiesDivide(y: int)
    ensures y % 400 == 0 ==> y % 100 == 0
    ensures y % 100 == 0 ==> y % 4 == 0
  {
    assert y % 400 == 0 ==> y % 100 == 0 by { assert y == 100 * (4 * (y / 400)) + y % 400; }
    assert y % 100 == 0 ==> y % 4 == 0 by { assert y == 4 * (25 * (y / 100)) + y % 100; }
  }

  lemma FourthYear(y: int)
    ensures (y - 1968) / 4 == (y - 1969) / 4 + if y % 4 == 0 then 1 else 0
  {
    var q, r := y / 4, y % 4;
    assert y == 4 * q + r;
  }

  lemma Century(y: int)
    ensures (y - 1900) / 100 == (y - 1901) / 100 + if y % 100 == 0 then 1 else 0
  {
    var q, r := y / 100, y % 100;
    assert y == 100 * q + r;
  }

  lemma FourthCentury(y: int)
    ensures (y - 1600) / 400 == (y - 1601) / 400 + if y % 400 == 0 then 1 else 0
  {
    var q, r := y / 400, y % 400;
    assert y == 400 * q + r;
  }

  lemma YearIsTwelveMonths(y: int)
    ensures DayWithinYear(y, 11) + 31 == if IsLeap(y) then 366 else 365
  {
    var february := DaysInMonth(y, 1);
    assert DayWithinYear(y, 1) == 31;
    assert DayWithinYear(y, 2) == 31 + february;
    assert DayWithinYear(y, 3) == 62 + february;
    assert DayWithinYear(y, 4) == 92 + february;
    assert DayWithinYear(y, 5) == 123 + february;
    assert DayWithinYear(y, 6) == 153 + february;
    assert DayWithinYear(y, 7) == 184 + february;
    assert DayWithinYear(y, 8) == 215 + february;
    assert DayWithinYear(y, 9) == 245 + february;
    assert DayWithinYear(y, 10) == 276 + february;
  }

  /** The calendar successor is the next ECMA-262 day. */
  lemma NextDayIsNextNumber(t: Date)
    requires ValidDate(t)
    ensures ValidDate(NextDay(t)) && DayNumber(NextDay(t)) == DayNumber(t) + 1
  {
    YearLength(t.y);
    YearIsTwelveMonths(t.y);
  }

  // ---------- new Date(y, m, d) ----------

  /** Rolls a day outside its month into the neighbouring months. */
  function Roll(y: int, m: int, d: int): (t: Date)
    requires 0 <= m <= 11
    ensures ValidDate(t)
    decreases if d < 1 then -d + 64 else d
  {
    if d < 1 then
      var before := MonthBefore(y, m);
      Roll(before.0, before.1, d + DaysInMonth(before.0, before.1))
    else if d > DaysInMonth(y, m) then
      var after := MonthAfter(y, m);
      Roll(after.0, after.1, d - DaysInMonth(y, m))
    else Date(y, m, d)
  }

  /** The Date constructor; a year from 0 to 99 means 1900 and after. */
  function NewDate(y: int, m: int, d: int): Date {
    var year := if 0 <= y <= 99 then 1900 + y else y;
    Roll(year + m / 12, m % 12, d)
  }

  lemma {:induction false} RollKeepsDay(y: int, m: int, d: int)
    requires 0 <= m <= 11
    ensures DayNumber(Roll(y, m, d)) == DayNumber(Date(y, m, d))
    decreases if d < 1 then -d + 64 else d
  {
    var b, a := MonthBefore(y, m), MonthAfter(y, m);
    MonthBoundary(y, m);
    MonthBoundary(b.0, b.1);
    if d < 1 {
      RollKeepsDay(b.0, b.1, d + DaysInMonth(b.0, b.1));
    } else if d > DaysInMonth(y, m) {
      RollKeepsDay(a.0, a.1, d - DaysInMonth(y, m));
    }
  }

  lemma MonthBoundary(y: int, m: int)
    requires 0 <= m <= 11
    ensures var a := MonthAfter(y, m);
            DayNumber(Date(a.0, a.1, 1)) == DayNumber(Date(y, m, 1)) + DaysInMonth(y, m)
  {
    YearLength(y);
    YearIsTwelveMonths(y);
  }

  /** The constructor yields the date of the day MakeDay computes, outside the two-digit years. */
  lemma NewDateIsMakeDay(y: int, m: int, d: int)
    requires y < 0 || y > 99
    ensures ValidDate(NewDate(y, m, d)) && DayNumber(NewDate(y, m, d)) == MakeDay(y, m, d)
  {
    RollKeepsDay(y + m / 12, m % 12, d);
  }

  // ---------- the grid ----------

  datatype Cell = Cell(y: int, m: int, d: int, other: bool)

  function DateOf(c: Cell): Date {
    Date(c.y, c.m, c.d)
  }

  /** Forty-two consecutive days from a Monday. */
  ghost predicate SixWeeks(cells: seq<Cell>) {
    && |cells| == 42
    && ValidDate(DateOf(cells[0])) && WeekDay(DayNumber(DateOf(cells[0]))) == 1
    && forall i | 0 <= i < 41 :: DateOf(cells[i + 1]) == NextDay(DateOf(cells[i]))
  }

  /** The month shown is there once, whole and in order, and every other cell is marked. */
  ghost predicate ShowsMonth(cells: seq<Cell>, y: int, m: int, offset: int) {
    && 0 <= offset < 7 && offset + DaysInMonth(y, m) <= |cells|
    && (forall i | 0 <= i < |cells| ::
          cells[i].other <==> !(offset <= i < offset + DaysInMonth(y, m)))
    && (forall i | 0 <= i < |cells| :: cells[i].other <==> !(cells[i].y == y && cells[i].m == m))
    && (forall d | 1 <= d <= DaysInMonth(y, m) :: cells[offset + d - 1] == Cell(y, m, d, false))
  }

  /** A year the constructor takes as it is. */
  predicate PlainYear(y: int) {
    y < 0 || y >= 100
  }

  /** The month shown and the days around it lie in years the constructor takes as they are. */
  predicate PlainView(y: int, m: int) {
    PlainYear(y) && !(y == -1 && m == 11)
  }

  lemma LastDayOf(y: int, m: int)
    requires 0 <= m <= 11 && PlainYear(y)
    ensures NewDate(y, m + 1, 0).d == DaysInMonth(y, m)
    ensures NewDate(y, m, 0).d == DaysInMonth(MonthBefore(y, m).0, MonthBefore(y, m).1)
  {
    if m == 11 {
      assert NewDate(y, 12, 0) == Roll(y + 1, 0, 0);
    }
  }

  /** Asking for the day after a valid day is asking for its successor. */
  lemma DayAfter(t: Date)
    requires ValidDate(t) && PlainYear(t.y)
    ensures NewDate(t.y, t.m, t.d + 1) == NextDay(t)
  {
    if t.d == DaysInMonth(t.y, t.m) {
      var after := MonthAfter(t.y, t.m);
      assert Roll(t.y, t.m, t.d + 1) == Roll(after.0, after.1, 1);
    }
  }

  /** What stands at position k when the month shown starts at position offset. */
  function CellAt(y: int, m: int, offset: int, k: int): Cell {
    var before, after, n := MonthBefore(y, m), MonthAfter(y, m), DaysInMonth(y, m);
    if k < offset then Cell(before.0, before.1, DaysInMonth(before.0, before.1) - offset + 1 + k, true)
    else if k < offset + n then Cell(y, m, k - offset + 1, false)
    else Cell(after.0, after.1, k - offset - n + 1, true)
  }

  lemma CellsFollow(y: int, m: int, offset: int, k: int)
    requires 0 <= m <= 11 && 0 <= offset < 7 && 0 <= k < 42
    ensures ValidDate(DateOf(CellAt(y, m, offset, k)))
    ensures DateOf(CellAt(y, m, offset, k + 1)) == NextDay(DateOf(CellAt(y, m, offset, k)))
  {
  }

  lemma LastCell(y: int, m: int, offset: int, k: int)
    requires 0 <= m <= 11 && PlainView(y, m) && 0 <= offset < 7 && offset + DaysInMonth(y, m) - 1 <= k < 42
    ensures var t := DateOf(CellAt(y, m, offset, k));
            NewDate(t.y, t.m, t.d + 1) == DateOf(CellAt(y, m, offset, k + 1))
  {
    CellsFollow(y, m, offset, k);
    DayAfter(DateOf(CellAt(y, m, offset, k)));
  }

  lemma FirstCell(y: int, m: int, offset: int)
    requires 0 <= m <= 11 && offset == (WeekDay(DayNumber(Date(y, m, 1))) + 6) % 7
    ensures WeekDay(DayNumber(DateOf(CellAt(y, m, offset, 0)))) == 1
  {
    var day, before := DayNumber(Date(y, m, 1)), MonthBefore(y, m);
    OffsetReachesMonday(day);
    MonthBoundary(before.0, before.1);
    assert DayNumber(DateOf(CellAt(y, m, offset, 0))) == day - offset;
  }

  lemma GridIsRight(cells: seq<Cell>, y: int, m: int, offset: int)
    requires 0 <= m <= 11 && offset == (WeekDay(DayNumber(Date(y, m, 1))) + 6) % 7
    requires |cells| == 42 && forall k | 0 <= k < 42 :: cells[k] == CellAt(y, m, offset, k)
    ensures SixWeeks(cells) && ShowsMonth(cells, y, m, offset)
  {
    FirstCell(y, m, offset);
    forall k | 0 <= k < 42
      ensures ValidDate(DateOf(CellAt(y, m, offset, k)))
      ensures DateOf(CellAt(y, m, offset, k + 1)) == NextDay(DateOf(CellAt(y, m, offset, k)))
    {
      CellsFollow(y, m, offset, k);
    }
  }

  // ---------- the grid as it is built, for any year ----------

  /** Leading cells: the week day of the first, Monday first. */
  function Offset(y: int, m: int): (n: int)
    requires 0 <= m <= 11
    ensures 0 <= n < 7
  {
    (WeekDay(DayNumber(NewDate(y, m, 1))) + 6) % 7
  }

  /** The cell pushed after `last` to fill the grid. */
  function Following(last: Cell): Cell {
    var next := NewDate(last.y, last.m, last.d + 1);
    Cell(next.y, next.m, next.d, true)
  }

  function BuiltCell(y: int, m: int, offset: nat, prevMonthDays: int, daysInMonth: nat, k: nat): Cell {
    var before := MonthBefore(y, m);
    if k < offset then Cell(before.0, before.1, prevMonthDays - offset + 1 + k, true)
    else if k < offset + daysInMonth || k == 0 then Cell(y, m, k - offset + 1, false)
    else Following(BuiltCell(y, m, offset, prevMonthDays, daysInMonth, k - 1))
  }

  function GridCell(y: int, m: int, k: nat): Cell
    requires 0 <= m <= 11
  {
    BuiltCell(y, m, Offset(y, m), NewDate(y, m, 0).d, NewDate(y, m + 1, 0).d, k)
  }

  function Grid(y: int, m: int): (cells: seq<Cell>)
    requires 0 <= m <= 11
    ensures |cells| == 42
  {
    seq(42, k requires 0 <= k < 42 => GridCell(y, m, k))
  }

  /** Every cell so far is the one that belongs there. */
  predicate Built(cells: seq<Cell>, y: int, m: int, offset: nat, prevMonthDays: int, daysInMonth: nat) {
    forall k | 0 <= k < |cells| :: cells[k] == BuiltCell(y, m, offset, prevMonthDays, daysInMonth, k)
  }

  lemma BuiltIsGrid(cells: seq<Cell>, y: int, m: int, offset: nat, prevMonthDays: int, daysInMonth: nat)
    requires 0 <= m <= 11 && offset == Offset(y, m)
    requires prevMonthDays == NewDate(y, m, 0).d && daysInMonth == NewDate(y, m + 1, 0).d
    requires |cells| == 42 && Built(cells, y, m, offset, prevMonthDays, daysInMonth)
    ensures cells == Grid(y, m)
  {
    assert forall k | 0 <= k < 42 :: cells[k] == GridCell(y, m, k);
  }

  lemma PlainGridCell(y: int, m: int, k: nat)
    requires 0 <= m <= 11 && PlainView(y, m) && k < 42
    ensures GridCell(y, m, k) == CellAt(y, m, Offset(y, m), k)
  {
    var before := MonthBefore(y, m);
    LastDayOf(y, m);
    PlainBuiltCell(y, m, Offset(y, m), k);
  }

  lemma {:induction false} PlainBuiltCell(y: int, m: int, offset: nat, k: nat)
    requires 0 <= m <= 11 && PlainView(y, m) && offset < 7 && k < 42
    ensures var before := MonthBefore(y, m);
            BuiltCell(y, m, offset, DaysInMonth(before.0, before.1), DaysInMonth(y, m), k) == CellAt(y, m, offset, k)
    decreases k
  {
    if k >= offset + DaysInMonth(y, m) {
      PlainBuiltCell(y, m, offset, k - 1);
      LastCell(y, m, offset, k - 1);
    }
  }

  /** Nineteen centuries on, the week day is another. */
  lemma CenturiesShift(y: int, m: int)
    requires 0 <= y <= 99 && 0 <= m <= 11
    ensures WeekDay(DayNumber(Date(1900 + y, m, 1))) != WeekDay(DayNumber(Date(y, m, 1)))
  {
    YearsShift(y);
    WithinYearsShift(y, m);
    var a, b := DayNumber(Date(y, m, 1)), DayNumber(Date(1900 + y, m, 1));
    WeekDayMoves(a, 99137, b - a - 7 * 99137);
  }

  lemma WeekDayMoves(day: int, weeks: int, days: int)
    requires 1 <= days <= 6
    ensures WeekDay(day + 7 * weeks + days) != WeekDay(day)
  {
    var q, w := (day + 4) / 7, WeekDay(day);
    assert day + 4 == 7 * q + w;
    var moved := if w + days < 7 then w + days else w + days - 7;
    assert day + 7 * weeks + days + 4 == 7 * (q + weeks + if w + days < 7 then 0 else 1) + moved;
  }

  lemma YearsShift(y: int)
    requires 0 <= y <= 99
    ensures DayFromYear(1900 + y) - DayFromYear(y) == 693960 + if y == 0 then 1 else 0
  {
    assert (y - 69) / 4 == (y - 1969) / 4 + 475;
    assert (y - 1) / 100 == (y - 1901) / 100 + 19;
    assert (y + 299) / 400 == 0;
    assert (y - 1601) / 400 == if y == 0 then -5 else -4;
  }

  lemma LeapAlike(y: int)
    requires 0 <= y <= 99
    ensures IsLeap(y) <==> IsLeap(1900 + y) || y == 0
  {
    assert (1900 + y) % 4 == y % 4;
    assert 1 <= y ==> y % 100 == y && (1900 + y) % 100 == y;
  }

  lemma {:induction false} WithinYearsShift(y: int, m: int)
    requires 0 <= y <= 99 && 0 <= m <= 11
    ensures DayWithinYear(1900 + y, m) == DayWithinYear(y, m) - if y == 0 && m >= 2 then 1 else 0
  {
    LeapAlike(y);
    if m > 0 {
      WithinYearsShift(y, m - 1);
    }
  }

  lemma {:induction false} ConsecutiveDays(cells: seq<Cell>, k: nat)
    requires SixWeeks(cells) && k < 42
    ensures ValidDate(DateOf(cells[k])) && DayNumber(DateOf(cells[k])) == DayNumber(DateOf(cells[0])) + k
  {
    if k > 0 {
      ConsecutiveDays(cells, k - 1);
      NextDayIsNextNumber(DateOf(cells[k - 1]));
      assert DateOf(cells[k - 1 + 1]) == NextDay(DateOf(cells[k - 1]));
    }
  }

  lemma WeekDaysGoOn(day: int, n: nat)
    requires WeekDay(day) == 1 && n < 7
    ensures (WeekDay(day + n) + 6) % 7 == n
  {
    var q := (day + 4) / 7;
    assert day + n + 4 == 7 * q + 1 + n;
  }

  /** With a two-digit year in view the grid takes its first column from nineteen centuries later. */
  lemma TwoDigitViewFails(y: int, m: int)
    requires 0 <= y <= 99 && 0 <= m <= 11
    ensures !SixWeeks(Grid(y, m))
  {
    TwoDigitOffset(y, m);
    FirstOfMonth(y, m);
    CenturiesShift(y, m);
    WrongColumn(Grid(y, m), Offset(y, m), Date(y, m, 1), WeekDay(DayNumber(Date(1900 + y, m, 1))));
  }

  lemma WrongColumn(cells: seq<Cell>, k: nat, t: Date, w: int)
    requires |cells| == 42 && k < 7 && 0 <= t.m <= 11 && DateOf(cells[k]) == t
    requires 0 <= w < 7 && k == (w + 6) % 7 && w != WeekDay(DayNumber(t))
    ensures !SixWeeks(cells)
  {
    if SixWeeks(cells) {
      SixWeeksColumn(cells, k);
      SameColumn(WeekDay(DayNumber(t)), w);
    }
  }

  lemma SixWeeksColumn(cells: seq<Cell>, k: nat)
    requires SixWeeks(cells) && k < 7
    ensures ValidDate(DateOf(cells[k])) && (WeekDay(DayNumber(DateOf(cells[k]))) + 6) % 7 == k
  {
    ConsecutiveDays(cells, k);
    WeekDaysGoOn(DayNumber(DateOf(cells[0])), k);
  }

  lemma TwoDigitOffset(y: int, m: int)
    requires 0 <= y <= 99 && 0 <= m <= 11
    ensures Offset(y, m) == (WeekDay(DayNumber(Date(1900 + y, m, 1))) + 6) % 7
  {
    TwoDigitFirst(y, m);
  }

  lemma TwoDigitFirst(y: int, m: int)
    requires 0 <= y <= 99 && 0 <= m <= 11
    ensures NewDate(y, m, 1) == Date(1900 + y, m, 1)
  {
  }

  lemma FirstOfMonth(y: int, m: int)
    requires 0 <= m <= 11
    ensures Grid(y, m)[Offset(y, m)] == Cell(y, m, 1, false)
  {
  }

  lemma SameColumn(v: int, w: int)
    requires 0 <= v < 7 && 0 <= w < 7 && (v + 6) % 7 == (w + 6) % 7
    ensures v == w
  {
  }

  /** December of the year before 0 runs on into January of 1900. */
  lemma YearZeroFollowsFails()
    ensures !SixWeeks(Grid(-1, 11))
  {
    var cells, k := Grid(-1, 11), Offset(-1, 11) + 31;
    LastDayOf(-1, 11);
    DayAfter(Date(-1, 11, 31));
    assert GridCell(-1, 11, k - 1) == Cell(-1, 11, 31, false);
    assert GridCell(-1, 11, k) == Cell(0, 0, 1, true);
    assert NewDate(0, 0, 2) == Date(1900, 0, 2);
    assert GridCell(-1, 11, k + 1) == Cell(1900, 0, 2, true);
    assert DateOf(cells[k + 1]) != NextDay(DateOf(cells[k]));
  }

  /**
    For every year and month: the grid is forty-two consecutive days from a Monday
    with the whole month once, in order and alone unmarked, exactly when no year in
    view is one the Date constructor takes for nineteen hundred and some.
   */
  lemma GridExact(y: int, m: int)
    requires 0 <= m <= 11
    ensures SixWeeks(Grid(y, m)) <==> PlainView(y, m)
    ensures PlainView(y, m) ==> ShowsMonth(Grid(y, m), y, m, Offset(y, m))
  {
    if PlainView(y, m) {
      assert NewDate(y, m, 1) == Date(y, m, 1);
      forall k | 0 <= k < 42
        ensures Grid(y, m)[k] == CellAt(y, m, Offset(y, m), k)
      {
        PlainGridCell(y, m, k);
      }
      GridIsRight(Grid(y, m), y, m, Offset(y, m));
    } else if y == -1 {
      YearZeroFollowsFails();
    } else {
      TwoDigitViewFails(y, m);
    }
  }

  lemma OffsetReachesMonday(day: int)
    ensures var offset := (WeekDay(day) + 6) % 7; 0 <= offset < 7 && WeekDay(day - offset) == 1
  {
    var q, w := (day + 4) / 7, WeekDay(day);
    assert day + 4 == 7 * q + w;
    assert day - (w + 6) % 7 + 4 == if w == 0 then 7 * (q - 1) + 1 else 7 * q + 1;
  }

  // ---------- days that cannot be picked ----------

  const DAY_SECONDS := 86400

  /** isDateDisabled: with data-min="now", the last second of the day lies before today's midnight. */
  predicate IsDateDisabled(minNow: bool, t: Date, today: Date)
    requires 0 <= t.m <= 11 && 0 <= today.m <= 11
  {
    minNow && DayNumber(t) * DAY_SECONDS + DAY_SECONDS - 1 < DayNumber(today) * DAY_SECONDS
  }

  /** Year, then month, then day. */
  predicate Before(a: Date, b: Date) {
    a.y < b.y || (a.y == b.y && (a.m < b.m || (a.m == b.m && a.d < b.d)))
  }

  lemma {:induction false} LaterYear(y: int, z: int)
    requires y <= z
    ensures DayFromYear(y) + 365 * (z - y) <= DayFromYear(z)
    ensures y < z ==> DayFromYear(y) + (if IsLeap(y) then 366 else 365) <= DayFromYear(z)
    decreases z - y
  {
    if y < z {
      YearLength(z - 1);
      LaterYear(y, z - 1);
      YearLength(y);
    }
  }

  lemma {:induction false} LaterMonth(y: int, m: int, n: int)
    requires 0 <= m < n <= 11
    ensures DayWithinYear(y, m) + DaysInMonth(y, m) <= DayWithinYear(y, n)
    decreases n
  {
    if m < n - 1 {
      LaterMonth(y, m, n - 1);
    }
  }

  lemma WithinYear(t: Date)
    requires ValidDate(t)
    ensures 0 <= DayWithinYear(t.y, t.m) + t.d - 1 < if IsLeap(t.y) then 366 else 365
  {
    YearIsTwelveMonths(t.y);
    if t.m < 11 {
      LaterMonth(t.y, t.m, 11);
    }
    if t.m > 0 {
      LaterMonth(t.y, 0, t.m);
    }
  }

  /** The order of day numbers is the order of dates. */
  lemma BeforeIsSmaller(a: Date, b: Date)
    requires ValidDate(a) && ValidDate(b) && Before(a, b)
    ensures DayNumber(a) < DayNumber(b)
  {
    if a.y < b.y {
      LaterYear(a.y, b.y);
      WithinYear(a);
      WithinYear(b);
    } else if a.m < b.m {
      LaterMonth(a.y, a.m, b.m);
    }
  }

  /** Disabled are exactly the dates before today. */
  lemma DisabledAreThePast(t: Date, today: Date)
    requires ValidDate(t) && ValidDate(today)
    ensures IsDateDisabled(true, t, today) <==> Before(t, today)
    ensures !IsDateDisabled(false, t, today)
  {
    if Before(t, today) {
      BeforeIsSmaller(t, today);
    } else if Before(today, t) {
      BeforeIsSmaller(today, t);
    }
  }

  class Picker {
    var viewYear: int
    var viewMonth: int
    var picked: Option<Date>

    predicate Valid()
      reads this
    {
      0 <= viewMonth <= 11 && (picked.Some? ==> ValidDate(picked.value) && picked.value.y >= 0)
    }

    constructor (year: int, month: int)
      requires 0 <= month <= 11
      ensures Valid() && viewYear == year && viewMonth == month && picked == None
    {
      viewYear, viewMonth, picked := year, month, None;
    }

    method RenderGrid() returns (cells: seq<Cell>)
      requires Valid()
      ensures cells == Grid(viewYear, viewMonth)
    {
      var first := NewDate(viewYear, viewMonth, 1);
      var offset := (WeekDay(DayNumber(first)) + 6) % 7;
      var daysInMonth := NewDate(viewYear, viewMonth + 1, 0).d;
      var prevMonthDays := NewDate(viewYear, viewMonth, 0).d;
      cells := FillGrid(offset, prevMonthDays, daysInMonth);
      BuiltIsGrid(cells, viewYear, viewMonth, offset, prevMonthDays, daysInMonth);
    }

    /** The three loops of renderGrid. */
    method FillGrid(offset: nat, prevMonthDays: nat, daysInMonth: nat) returns (cells: seq<Cell>)
      requires Valid() && offset < 7 && 1 <= daysInMonth <= 31
      ensures |cells| == 42 && Built(cells, viewYear, viewMonth, offset, prevMonthDays, daysInMonth)
    {
      cells := [];
      var i := offset - 1;
      while i >= 0
        invariant -1 <= i < offset && |cells| == offset - 1 - i
        invariant Built(cells, viewYear, viewMonth, offset, prevMonthDays, daysInMonth)
      {
        var d := prevMonthDays - i;
        var m := if viewMonth == 0 then 11 else viewMonth - 1;
        var y := if viewMonth == 0 then viewYear - 1 else viewYear;
        cells := cells + [Cell(y, m, d, true)];
        i := i - 1;
      }
      for d := 1 to daysInMonth + 1
        invariant |cells| == offset + d - 1
        invariant Built(cells, viewYear, viewMonth, offset, prevMonthDays, daysInMonth)
      {
        cells := cells + [Cell(viewYear, viewMonth, d, false)];
      }
      while |cells| < 42
        invariant offset + daysInMonth <= |cells| <= 42
        invariant Built(cells, viewYear, viewMonth, offset, prevMonthDays, daysInMonth)
      {
        var last := cells[|cells| - 1];
        var next := NewDate(last.y, last.m, last.d + 1);
        assert Cell(next.y, next.m, next.d, true) == Following(last);
        cells := cells + [Cell(next.y, next.m, next.d, true)];
      }
    }

    method Previous()
      requires Valid()
      modifies this`viewYear, this`viewMonth
      ensures Valid() && (viewYear, viewMonth) == MonthBefore(old(viewYear), old(viewMonth))
    {
      if viewMonth == 0 {
        viewMonth := 11;
        viewYear := viewYear - 1;
      } else {
        viewMonth := viewMonth - 1;
      }
    }

    method Next()
      requires Valid()
      modifies this`viewYear, this`viewMonth
      ensures Valid() && (viewYear, viewMonth) == MonthAfter(old(viewYear), old(viewMonth))
    {
      if viewMonth == 11 {
        viewMonth := 0;
        viewYear := viewYear + 1;
      } else {
        viewMonth := viewMonth + 1;
      }
    }

    /** A click on a cell: a disabled day does not listen, a day of a neighbouring month switches the view. */
    method Pick(c: Cell, minNow: bool, today: Date)
      requires Valid() && ValidDate(DateOf(c)) && ValidDate(today) && c.y >= 0
      modifies this
      ensures Valid()
      ensures minNow && Before(DateOf(c), today) ==>
                picked == old(picked) && viewYear == old(viewYear) && viewMonth == old(viewMonth)
      ensures !(minNow && Before(DateOf(c), today)) ==>
                && picked == Some(DateOf(c)) && viewMonth == c.m
                && viewYear == if c.m == old(viewMonth) then old(viewYear) else c.y
    {
      DisabledAreThePast(DateOf(c), today);
      if IsDateDisabled(minNow, DateOf(c), today) {
        return;
      }
      picked := Some(Date(c.y, c.m, c.d));
      if c.m != viewMonth {
        viewYear := c.y;
        viewMonth := c.m;
      }
    }

    /** The value submitted with the form; None stands for the error highlight. */
    method Commit(hh: Option<int>, mm: Option<int>) returns (value: Option<string>)
      requires Valid()
      ensures picked.None? ==> value == Some("")
      ensures picked.Some? ==>
                value == if hh.Some? && mm.Some? && 0 <= hh.value <= 23 && 0 <= mm.value <= 59
                         then Some(FormatIso(picked.value, hh.value, mm.value)) else None
    {
      if picked.Some? {
        if hh.None? || mm.None? {
          return None;
        }
        if hh.value < 0 || hh.value > 23 || mm.value < 0 || mm.value > 59 {
          return None;
        }
        return Some(FormatIso(picked.value, hh.value, mm.value));
      }
      return Some("");
    }
  }

  /** The two navigation buttons undo each other. */
  lemma NavigationInverse(y: int, m: int)
    requires 0 <= m <= 11
    ensures var b := MonthBefore(y, m); 0 <= b.1 <= 11 && MonthAfter(b.0, b.1) == (y, m)
    ensures var a := MonthAfter(y, m); 0 <= a.1 <= 11 && MonthBefore(a.0, a.1) == (y, m)
  {
  }

  // ---------- the submitted text ----------

  predicate IsDigit(c: char) {
    '0' <= c <= '9'
  }

  predicate Digits(s: string) {
    forall i | 0 <= i < |s| :: IsDigit(s[i])
  }

  function DigitValue(c: char): nat
    requires IsDigit(c)
  {
    c as int - '0' as int
  }

  function DigitChar(n: int): (c: char)
    requires 0 <= n <= 9
    ensures IsDigit(c) && DigitValue(c) == n
  {
    ('0' as int + n) as char
  }

  /** Number to text, most significant digit first. */
  function Decimal(n: nat): (s: string)
    ensures s != "" && Digits(s)
  {
    if n < 10 then [DigitChar(n)] else Decimal(n / 10) + [DigitChar(n % 10)]
  }

  /** String(n).padStart(2, '0') */
  function Pad(n: nat): string {
    if |Decimal(n)| < 2 then "0" + Decimal(n) else Decimal(n)
  }

  /** fmtDateISO */
  function FormatIso(t: Date, hh: nat, mm: nat): string
    requires t.y >= 0 && ValidDate(t)
  {
    Layout(Decimal(t.y), Pad(t.m + 1), Pad(t.d), Pad(hh), Pad(mm))
  }

  function Value(s: string): nat
    requires Digits(s)
  {
    if s == "" then 0 else 10 * Value(s[..|s| - 1]) + DigitValue(s[|s| - 1])
  }

  datatype DateTime = DateTime(date: Date, hh: int, mm: int)

  /** time.ParseInLocation("2006-01-02 15:04", text) for two-digit fields, the day checked against its month. */
  function ParseGo(s: string): Option<DateTime> {
    if |s| != 16 || s[4] != '-' || s[7] != '-' || s[10] != ' ' || s[13] != ':' then None
    else if !(Digits(s[0..4]) && Digits(s[5..7]) && Digits(s[8..10]) && Digits(s[11..13]) && Digits(s[14..16])) then None
    else
      var t := Date(Value(s[0..4]), Value(s[5..7]) - 1, Value(s[8..10]));
      var hh, mm := Value(s[11..13]), Value(s[14..16]);
      if ValidDate(t) && hh <= 23 && mm <= 59 then Some(DateTime(t, hh, mm)) else None
  }

  /** Reading undoes writing. */
  lemma {:induction false} ValueOfDecimal(n: nat)
    ensures Value(Decimal(n)) == n
  {
    var s := Decimal(n);
    if n < 10 {
      assert s[..0] == "";
    } else {
      ValueOfDecimal(n / 10);
      assert s[..|s| - 1] == Decimal(n / 10);
    }
  }

  lemma TwoDigits(n: nat)
    requires n <= 99
    ensures Shows(Pad(n), n, 2)
  {
    ValueOfDecimal(n);
    if n < 10 {
      var s := Pad(n);
      assert s == ['0', DigitChar(n)] && s[..1] == "0" && s[..1][..0] == "";
    } else {
      assert |Decimal(n)| == |Decimal(n / 10)| + 1;
    }
  }

  lemma FourDigits(n: nat)
    requires 1000 <= n <= 9999
    ensures Shows(Decimal(n), n, 4)
  {
    ValueOfDecimal(n);
    assert |Decimal(n / 1000)| == 1;
    assert |Decimal(n / 100)| == 2;
    assert |Decimal(n / 10)| == 3;
  }

  function Layout(year: string, month: string, day: string, hour: string, minute: string): string {
    year + "-" + month + "-" + day + " " + hour + ":" + minute
  }

  /** `s` is the five fields at their places, with the separators between them. */
  predicate LaidOut(s: string, year: string, month: string, day: string, hour: string, minute: string) {
    && |s| == 16 && s[4] == '-' && s[7] == '-' && s[10] == ' ' && s[13] == ':'
    && s[0..4] == year && s[5..7] == month && s[8..10] == day && s[11..13] == hour && s[14..16] == minute
  }

  lemma LayoutParts(year: string, month: string, day: string, hour: string, minute: string)
    requires |year| == 4 && |month| == 2 && |day| == 2 && |hour| == 2 && |minute| == 2
    ensures LaidOut(Layout(year, month, day, hour, minute), year, month, day, hour, minute)
  {
  }

  /** `s` is `n` written in `width` digits. */
  predicate Shows(s: string, n: nat, width: nat) {
    |s| == width && Digits(s) && Value(s) == n
  }

  lemma LayoutParses(s: string, year: string, month: string, day: string, hour: string, minute: string,
                     t: Date, hh: nat, mm: nat)
    requires LaidOut(s, year, month, day, hour, minute)
    requires ValidDate(t) && t.y >= 0 && hh <= 23 && mm <= 59
    requires Shows(year, t.y, 4) && Shows(month, t.m + 1, 2) && Shows(day, t.d, 2)
    requires Shows(hour, hh, 2) && Shows(minute, mm, 2)
    ensures ParseGo(s) == Some(DateTime(t, hh, mm))
  {
  }

  /** What the picker submits parses back to the date and time that were picked. */
  lemma FormatParses(t: Date, hh: int, mm: int)
    requires ValidDate(t) && 1000 <= t.y <= 9999 && 0 <= hh <= 23 && 0 <= mm <= 59
    ensures ParseGo(FormatIso(t, hh, mm)) == Some(DateTime(t, hh, mm))
  {
    FourDigits(t.y);
    TwoDigits(t.m + 1);
    TwoDigits(t.d);
    TwoDigits(hh);
    TwoDigits(mm);
    LayoutParts(Decimal(t.y), Pad(t.m + 1), Pad(t.d), Pad(hh), Pad(mm));
    LayoutParses(FormatIso(t, hh, mm), Decimal(t.y), Pad(t.m + 1), Pad(t.d), Pad(hh), Pad(mm), t, hh, mm);
  }
}
