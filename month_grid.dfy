/**
 * The month view's table: weeks as rows of seven cells, Monday first. The
 * first row is padded before the weekday of the 1st, the last row after
 * the last day, and every day cell carries its date key and the indicator
 * of the events bound to it.
 */
module MonthGrid {
  import opened Text
  import opened Events
  import opened Binding
  import Gregorian
  import Holidays

  /** A table cell: padding, or a day with its key and indicator. */
  datatype Cell = Empty | Day(dia: nat, key: string, mark: Indicator)

  function Max(a: int, b: int): int { if a < b then b else a }

  /** The cell of day `dia`: its key and the indicator of the events bound to it. */
  function DayCell(ano: int, mes0: nat, todos: seq<Event>, dia: nat): Cell
  {
    var key := DateKey(ano, mes0 + 1, dia);
    Day(dia, key, IndicatorFor(EventsOn(todos, key)))
  }

  /** The day cells of month `mes0` of year `ano`, by day number. */
  function DayCells(ano: int, mes0: nat, todos: seq<Event>): nat -> Cell
  {
    (dia: nat) => DayCell(ano, mes0, todos, dia)
  }

  /** The day shown at position `p` of a table whose 1st sits at `start` and that has `total` days; 0 for padding. */
  function DayAt(start: int, total: int, p: int): int
  {
    if start <= p < start + total then p - start + 1 else 0
  }

  /** Position `p` of a table whose 1st sits at `start`, with `total` days whose cells `dayCell` gives. */
  function Slot(start: int, total: int, dayCell: nat -> Cell, p: int): Cell
  {
    var d := DayAt(start, total, p);
    if d > 0 then dayCell(d) else Empty
  }

  /**
   * The cell at reading position `p` (row `p / 7`, column `p % 7`) of the
   * table of month `mes0` of year `ano`, against the combined list `todos`.
   */
  function CellAt(ano: int, mes0: nat, todos: seq<Event>, p: int): Cell
    requires mes0 < 12
  {
    Slot(Gregorian.FirstWeekday(ano, mes0), Gregorian.DaysInMonth(ano, mes0), DayCells(ano, mes0, todos), p)
  }

  /** Position `p` shows day `DayAt(…)` of the month, or padding where that is 0. */
  lemma CellAtIs(ano: int, mes0: nat, todos: seq<Event>, p: int)
    requires mes0 < 12
    ensures var d := DayAt(Gregorian.FirstWeekday(ano, mes0), Gregorian.DaysInMonth(ano, mes0), p);
      CellAt(ano, mes0, todos, p) == if d > 0 then DayCell(ano, mes0, todos, d) else Empty
  {
  }

  /** Number of week rows: ceil((inicioSemana + totalDias) / 7). */
  function RowCount(ano: int, mes0: nat): nat
    requires mes0 < 12
  {
    (Gregorian.FirstWeekday(ano, mes0) + Gregorian.DaysInMonth(ano, mes0) + 6) / 7
  }

  /**
   * The month view's table: `totalDias` and `inicioSemana` from the two
   * `Date` calls, then the week loop. Every row has seven cells and each
   * cell is the one `CellAt` describes.
   */
  method BuildMonthGrid(ano: int, mes0: nat, todos: seq<Event>) returns (rows: seq<seq<Cell>>)
    requires mes0 < 12
    ensures |rows| == RowCount(ano, mes0)
    ensures forall r :: 0 <= r < |rows| ==> |rows[r]| == 7
    ensures forall r, c :: 0 <= r < |rows| && 0 <= c < 7 ==> rows[r][c] == CellAt(ano, mes0, todos, 7 * r + c)
  {
    var totalDias: int := Gregorian.DaysInMonth(ano, mes0);
    var inicioSemana: int := Gregorian.FirstWeekday(ano, mes0);
    rows := LayWeeks(ano, mes0, todos, inicioSemana, totalDias, DayCells(ano, mes0, todos));
  }

  /**
   * The `while (diaAtual <= totalDias)` loop: one week row per pass until
   * every day is laid out, which takes `ceil((inicioSemana + totalDias) / 7)`
   * rows of seven cells, each the cell `Slot` places at its position.
   */
  method LayWeeks(ano: int, mes0: nat, todos: seq<Event>, inicioSemana: int, totalDias: int, ghost dayCell: nat -> Cell)
    returns (rows: seq<seq<Cell>>)
    requires 0 <= inicioSemana < 7 && 1 <= totalDias
    requires dayCell == DayCells(ano, mes0, todos)
    ensures |rows| == (inicioSemana + totalDias + 6) / 7
    ensures forall r :: 0 <= r < |rows| ==> |rows[r]| == 7
    ensures forall r, c :: 0 <= r < |rows| && 0 <= c < 7 ==> rows[r][c] == Slot(inicioSemana, totalDias, dayCell, 7 * r + c)
  {
    var diaAtual: int := 1;
    var semana: int := 1;
    rows := [];
    while diaAtual <= totalDias
      invariant semana == |rows| + 1
      invariant diaAtual == Min(Max(7 * |rows| - inicioSemana, 0), totalDias) + 1
      invariant |rows| == 0 || 7 * (|rows| - 1) < inicioSemana + totalDias
      invariant rows == Weeks(inicioSemana, totalDias, dayCell, |rows|)
      decreases inicioSemana + totalDias - 7 * |rows|
    {
      assert 7 * |rows| < inicioSemana + totalDias;
      var cells;
      cells, diaAtual := LayWeek(ano, mes0, todos, inicioSemana, totalDias, semana, diaAtual, dayCell);
      rows := rows + [cells];
      semana := semana + 1;
    }
    TableOfWeeks(inicioSemana, totalDias, dayCell, rows);
  }

  /**
   * The `for col` loop that lays out week `semana` (1-based): the first week
   * skips the columns before `inicioSemana`, later days past `totalDias`
   * become padding, and `diaAtual` moves past every day laid out.
   */
  method LayWeek(ano: int, mes0: nat, todos: seq<Event>, inicioSemana: int, totalDias: int, semana: int, diaAtual0: int,
                 ghost dayCell: nat -> Cell)
    returns (cells: seq<Cell>, diaAtual: int)
    requires 0 <= inicioSemana < 7 && 0 <= totalDias && semana >= 1
    requires dayCell == DayCells(ano, mes0, todos)
    requires diaAtual0 == Min(Max(7 * (semana - 1) - inicioSemana, 0), totalDias) + 1
    ensures cells == Week(inicioSemana, totalDias, dayCell, semana - 1)
    ensures diaAtual == Min(Max(7 * semana - inicioSemana, 0), totalDias) + 1
  {
    diaAtual := diaAtual0;
    cells := [];
    ghost var base := 7 * (semana - 1);
    for col := 0 to 7
      invariant diaAtual == Min(Max(base + col - inicioSemana, 0), totalDias) + 1
      invariant cells == Row(inicioSemana, totalDias, dayCell, base, col)
    {
      var cell;
      cell, diaAtual := LayCell(ano, mes0, todos, inicioSemana, totalDias, semana, col, diaAtual, dayCell);
      cells := cells + [cell];
    }
  }

  /**
   * One pass of the column loop: an empty cell before the 1st in the first
   * week or after the last day, otherwise the counter's day with its key
   * and indicator, after which the counter moves on.
   */
  method LayCell(ano: int, mes0: nat, todos: seq<Event>, inicioSemana: int, totalDias: int, semana: int, col: int, diaAtual0: int,
                 ghost dayCell: nat -> Cell)
    returns (cell: Cell, diaAtual: int)
    requires 0 <= inicioSemana < 7 && 0 <= totalDias && semana >= 1 && 0 <= col < 7
    requires dayCell == DayCells(ano, mes0, todos)
    requires diaAtual0 == Min(Max(7 * (semana - 1) + col - inicioSemana, 0), totalDias) + 1
    ensures cell == Slot(inicioSemana, totalDias, dayCell, 7 * (semana - 1) + col)
    ensures diaAtual == Min(Max(7 * (semana - 1) + col + 1 - inicioSemana, 0), totalDias) + 1
  {
    diaAtual := diaAtual0;
    ghost var base := 7 * (semana - 1);
    SlotAt(inicioSemana, totalDias, base, col);
    if semana == 1 && col < inicioSemana {
      cell := Empty;
    } else if diaAtual > totalDias {
      cell := Empty;
    } else {
      assert DayAt(inicioSemana, totalDias, base + col) == diaAtual;
      cell := LayDay(ano, mes0, todos, diaAtual);
      assert cell == dayCell(diaAtual);
      diaAtual := diaAtual + 1;
    }
  }

  /** The day branch of the column loop: the key `${ano}-${pad2(mes + 1)}-${pad2(diaAtual)}`, the day's events and their indicator. */
  method LayDay(ano: int, mes0: nat, todos: seq<Event>, diaAtual: nat) returns (cell: Cell)
    ensures cell == DayCell(ano, mes0, todos, diaAtual)
  {
    var dataStr := DateKey(ano, mes0 + 1, diaAtual);
    var eventosDia := EventsOn(todos, dataStr);
    cell := Day(diaAtual, dataStr, IndicatorFor(eventosDia));
  }

  /**
   * Once the loop stops, its rows are the table: `ceil((start + total) / 7)`
   * rows of seven cells, each the cell `Slot` places at its position.
   */
  lemma TableOfWeeks(start: int, total: int, dayCell: nat -> Cell, rows: seq<seq<Cell>>)
    requires 0 < |rows| && 7 * (|rows| - 1) < start + total <= 7 * |rows|
    requires rows == Weeks(start, total, dayCell, |rows|)
    ensures |rows| == (start + total + 6) / 7
    ensures forall r :: 0 <= r < |rows| ==> |rows[r]| == 7
    ensures forall r, c :: 0 <= r < |rows| && 0 <= c < 7 ==> rows[r][c] == Slot(start, total, dayCell, 7 * r + c)
  {
    forall r | 0 <= r < |rows| ensures |rows[r]| == 7 {
      WeeksAt(start, total, dayCell, |rows|, r);
    }
    forall r, c | 0 <= r < |rows| && 0 <= c < 7 ensures rows[r][c] == Slot(start, total, dayCell, 7 * r + c) {
      WeeksAt(start, total, dayCell, |rows|, r);
      RowAt(start, total, dayCell, 7 * r, 7, c);
    }
  }

  /** The first `n` week rows. */
  function Weeks(start: int, total: int, dayCell: nat -> Cell, n: nat): (t: seq<seq<Cell>>)
    ensures |t| == n
  {
    if n == 0 then [] else Weeks(start, total, dayCell, n - 1) + [Week(start, total, dayCell, n - 1)]
  }

  lemma {:induction false} WeeksAt(start: int, total: int, dayCell: nat -> Cell, n: nat, r: nat)
    requires r < n
    ensures Weeks(start, total, dayCell, n)[r] == Week(start, total, dayCell, r)
  {
    if r < n - 1 { WeeksAt(start, total, dayCell, n - 1, r); }
  }

  /** The seven cells of week row `r` (0-based). */
  function Week(start: int, total: int, dayCell: nat -> Cell, r: int): (w: seq<Cell>)
    ensures |w| == 7
  {
    Row(start, total, dayCell, 7 * r, 7)
  }

  /** The `n` cells from position `base` on. */
  function Row(start: int, total: int, dayCell: nat -> Cell, base: int, n: nat): (w: seq<Cell>)
    ensures |w| == n
  {
    if n == 0 then [] else Row(start, total, dayCell, base, n - 1) + [Slot(start, total, dayCell, base + n - 1)]
  }

  lemma {:induction false} RowAt(start: int, total: int, dayCell: nat -> Cell, base: int, n: nat, c: nat)
    requires c < n
    ensures Row(start, total, dayCell, base, n)[c] == Slot(start, total, dayCell, base + c)
  {
    if c < n - 1 { RowAt(start, total, dayCell, base, n - 1, c); }
  }

  /**
   * One step of the column loop: position `base + col` is padding exactly
   * when the loop writes an empty cell, otherwise it shows the counter's
   * day, and the counter moves exactly when a day is laid out.
   */
  lemma SlotAt(start: int, total: int, base: int, col: int)
    requires 0 <= start < 7 && 0 <= total && 0 <= col < 7 && (base == 0 || base >= 7)
    ensures var dia := Min(Max(base + col - start, 0), total) + 1;
      var next := Min(Max(base + col + 1 - start, 0), total) + 1;
      && (base == 0 && col < start ==> DayAt(start, total, base + col) == 0 && next == dia)
      && (!(base == 0 && col < start) && dia > total ==> DayAt(start, total, base + col) == 0 && next == dia)
      && (!(base == 0 && col < start) && dia <= total ==> DayAt(start, total, base + col) == dia && next == dia + 1)
  {
  }

  /** Day `d` of the month sits at position `inicioSemana + d - 1`, and a day cell sits nowhere else. */
  lemma GridDayPositions(ano: int, mes0: nat, todos: seq<Event>)
    requires mes0 < 12
    ensures var start, total := Gregorian.FirstWeekday(ano, mes0), Gregorian.DaysInMonth(ano, mes0);
      && (forall d :: 1 <= d <= total ==> CellAt(ano, mes0, todos, start + d - 1) == DayCell(ano, mes0, todos, d))
      && (forall p :: CellAt(ano, mes0, todos, p).Day? ==>
                        1 <= CellAt(ano, mes0, todos, p).dia <= total && p == start + CellAt(ano, mes0, todos, p).dia - 1)
  {
    var start := Gregorian.FirstWeekday(ano, mes0);
    forall d | 1 <= d <= Gregorian.DaysInMonth(ano, mes0)
      ensures CellAt(ano, mes0, todos, start + d - 1) == DayCell(ano, mes0, todos, d)
    {
      CellAtIs(ano, mes0, todos, start + d - 1);
    }
    forall p | CellAt(ano, mes0, todos, p).Day?
      ensures 1 <= CellAt(ano, mes0, todos, p).dia <= Gregorian.DaysInMonth(ano, mes0)
      ensures p == start + CellAt(ano, mes0, todos, p).dia - 1
    {
      CellAtIs(ano, mes0, todos, p);
    }
  }

  /** Day numbers increase along the reading order, so no day appears twice. */
  lemma GridDaysIncrease(ano: int, mes0: nat, todos: seq<Event>, p: int, q: int)
    requires mes0 < 12 && p < q
    requires CellAt(ano, mes0, todos, p).Day? && CellAt(ano, mes0, todos, q).Day?
    ensures CellAt(ano, mes0, todos, p).dia < CellAt(ano, mes0, todos, q).dia
  {
    CellAtIs(ano, mes0, todos, p);
    CellAtIs(ano, mes0, todos, q);
  }

  /**
   * Padding occurs only in the first row before the weekday of the 1st or
   * after the last day; the last day lies in the last row.
   */
  lemma GridPadding(ano: int, mes0: nat, todos: seq<Event>, p: int)
    requires mes0 < 12 && 0 <= p < 7 * RowCount(ano, mes0)
    ensures var start, total := Gregorian.FirstWeekday(ano, mes0), Gregorian.DaysInMonth(ano, mes0);
      && (CellAt(ano, mes0, todos, p).Empty? <==> (p < 7 && p < start) || p >= start + total)
      && 7 * (RowCount(ano, mes0) - 1) < start + total <= 7 * RowCount(ano, mes0)
  {
    CellAtIs(ano, mes0, todos, p);
  }

  /** Different day cells of one table carry different keys. */
  lemma GridKeysDistinct(ano: int, mes0: nat, todos: seq<Event>, p: int, q: int)
    requires mes0 < 12
    requires CellAt(ano, mes0, todos, p).Day? && CellAt(ano, mes0, todos, q).Day? && p != q
    ensures CellAt(ano, mes0, todos, p).key != CellAt(ano, mes0, todos, q).key
  {
    CellAtIs(ano, mes0, todos, p);
    CellAtIs(ano, mes0, todos, q);
    var a, b := CellAt(ano, mes0, todos, p), CellAt(ano, mes0, todos, q);
    if a.key == b.key {
      DateKeyInjective(ano, mes0 + 1, a.dia, ano, mes0 + 1, b.dia);
    }
  }

  /**
   * With a single event on day `dia` of the month, that day's cell is the
   * only marked cell, and it shows one bar in the event's colour.
   */
  lemma SingleEventMarksOneCell(ano: int, mes0: nat, dia: nat, ev: Event)
    requires mes0 < 12 && 1 <= dia <= Gregorian.DaysInMonth(ano, mes0)
    requires ev.data == DateKey(ano, mes0 + 1, dia)
    ensures forall p :: CellAt(ano, mes0, [ev], p).Day? && !CellAt(ano, mes0, [ev], p).mark.NoEvents?
                        <==> p == Gregorian.FirstWeekday(ano, mes0) + dia - 1
    ensures CellAt(ano, mes0, [ev], Gregorian.FirstWeekday(ano, mes0) + dia - 1) == Day(dia, ev.data, Bar(ev.cor))
  {
    var start, total := Gregorian.FirstWeekday(ano, mes0), Gregorian.DaysInMonth(ano, mes0);
    forall p ensures CellAt(ano, mes0, [ev], p).Day? && !CellAt(ano, mes0, [ev], p).mark.NoEvents? <==> p == start + dia - 1
    {
      CellAtIs(ano, mes0, [ev], p);
      var d := DayAt(start, total, p);
      if d > 0 { OneEventMark(ano, mes0, dia, ev, d); }
    }
    CellAtIs(ano, mes0, [ev], start + dia - 1);
    OneEventMark(ano, mes0, dia, ev, dia);
  }

  /** Against a single event, the cell of day `d` is marked exactly when `d` is the event's day, and then with its bar. */
  lemma OneEventMark(ano: int, mes0: nat, dia: nat, ev: Event, d: nat)
    requires mes0 < 12 && dia < 100 && d < 100
    requires ev.data == DateKey(ano, mes0 + 1, dia)
    ensures DayCell(ano, mes0, [ev], d).mark.NoEvents? <==> d != dia
    ensures d == dia ==> DayCell(ano, mes0, [ev], d) == Day(dia, ev.data, Bar(ev.cor))
  {
    var key := DateKey(ano, mes0 + 1, d);
    assert [ev][1..] == [];
    assert EventsOn([ev], key) == (if ev.data == key then [ev] else []) + EventsOn([], key);
    if ev.data == key {
      DateKeyInjective(ano, mes0 + 1, dia, ano, mes0 + 1, d);
    }
  }

  lemma Key20240229()
    ensures DateKey(2024, 2, 29) == "2024-02-29"
  {
    assert NatToString(2024) == "2024" by {
      assert NatToString(2) == "2";
      assert NatToString(20) == NatToString(2) + "0";
      assert NatToString(202) == NatToString(20) + "2";
      assert NatToString(2024) == NatToString(202) + "4";
    }
    assert Pad2(2) == "02" by { assert NatToString(2) == "2"; }
    assert Pad2(29) == "29" by { assert NatToString(29) == NatToString(2) + "9"; }
  }

  /**
   * February 2024 with one company event on 2024-02-29, bound together with
   * that year's holidays as the month view binds them: the table has a
   * leap-day cell numbered 29, it is the only cell marked as having an
   * event, and it shows one bar in the event's colour.
   */
  lemma LeapDayExample(ev: Event)
    requires ev.data == "2024-02-29"
    ensures Gregorian.DaysInMonth(2024, 1) == 29
    ensures var todos := AllEvents([ev], Holidays.HolidaysForYear(2024));
      exists p :: 0 <= p < 7 * RowCount(2024, 1) && CellAt(2024, 1, todos, p) == Day(29, "2024-02-29", Bar(ev.cor))
    ensures var todos := AllEvents([ev], Holidays.HolidaysForYear(2024));
      forall p :: CellAt(2024, 1, todos, p).Day? && !CellAt(2024, 1, todos, p).mark.NoEvents?
                  <==> p == Gregorian.FirstWeekday(2024, 1) + 28
  {
    var todos := AllEvents([ev], Holidays.HolidaysForYear(2024));
    Key20240229();
    SingleEventMarksOneCell(2024, 1, 29, ev);
    var p := Gregorian.FirstWeekday(2024, 1) + 28;
    GridPadding(2024, 1, [ev], p);
    forall q ensures CellAt(2024, 1, todos, q) == CellAt(2024, 1, [ev], q) {
      SameCellsWithHolidays2024(ev, q);
    }
    assert CellAt(2024, 1, todos, p) == Day(29, "2024-02-29", Bar(ev.cor));
  }

  /** In February 2024 the holidays bind to no day, so each cell is the one the company events alone give. */
  lemma SameCellsWithHolidays2024(ev: Event, p: int)
    ensures CellAt(2024, 1, AllEvents([ev], Holidays.HolidaysForYear(2024)), p) == CellAt(2024, 1, [ev], p)
  {
    var hs := Holidays.HolidaysForYear(2024);
    CellAtIs(2024, 1, AllEvents([ev], hs), p);
    CellAtIs(2024, 1, [ev], p);
    var d := DayAt(Gregorian.FirstWeekday(2024, 1), Gregorian.DaysInMonth(2024, 1), p);
    if d > 0 {
      var key := DateKey(2024, 2, d);
      NoHolidayOnFebruary2024(d);
      FilterAppend([ev], hs, SameDay(key));
      assert EventsOn(AllEvents([ev], hs), key) == EventsOn([ev], key);
    }
  }

  /** No holiday of 2024 carries the key of a day of February 2024. */
  lemma NoHolidayOnFebruary2024(d: nat)
    requires d < 100
    ensures EventsOn(Holidays.HolidaysForYear(2024), DateKey(2024, 2, d)) == []
  {
    var hs := Holidays.HolidaysForYear(2024);
    var key := DateKey(2024, 2, d);
    forall k | 0 <= k < |hs| ensures hs[k].data != key {
      var h := Holidays.Fixed[k];
      assert 1 <= h.mes <= 12 && h.dia <= 31 && hs[k].data == DateKey(2024, h.mes, h.dia) by {
        Holidays.HolidayIsCalendarDay(2024, k);
      }
      Holidays.NoHolidayInFebruary(k);
      if hs[k].data == key {
        DateKeyInjective(2024, h.mes, h.dia, 2024, 2, d);
      }
    }
    NoneWithKey(hs, key);
  }

  /**
   * A holiday with no company event on its date is drawn, in its month's
   * table, as the day cell of its day with one bar in the holiday colour.
   */
  lemma HolidayCellShowsGreyBar(eventos: seq<Event>, ano: int, i: nat)
    requires i < |Holidays.Fixed|
    requires EventsOn(eventos, Holidays.HolidaysForYear(ano)[i].data) == []
    ensures var h := Holidays.Fixed[i];
      1 <= h.mes <= 12 && 1 <= h.dia <= Gregorian.DaysInMonth(ano, h.mes - 1) &&
      DayCell(ano, h.mes - 1, AllEvents(eventos, Holidays.HolidaysForYear(ano)), h.dia)
        == Day(h.dia, DateKey(ano, h.mes, h.dia), Bar(HolidayColor))
  {
    var hs := Holidays.HolidaysForYear(ano);
    var h := Holidays.Fixed[i];
    var ev := hs[i];
    assert 1 <= h.mes <= 12 && 1 <= h.dia <= Gregorian.DaysInMonth(ano, h.mes - 1)
      && ev.data == DateKey(ano, h.mes, h.dia) && ev.cor == HolidayColor by {
      Holidays.HolidayIsCalendarDay(ano, i);
    }
    var m0: nat := h.mes - 1;
    assert EventsOn(AllEvents(eventos, hs), DateKey(ano, m0 + 1, h.dia)) == [ev] by {
      HolidayAloneOnItsDate(eventos, ano, i);
    }
    DayCellOfOneEvent(ano, m0, AllEvents(eventos, hs), h.dia, ev);
  }

  /** With no company event on a holiday's date, the holiday is the one entry bound to that date. */
  lemma HolidayAloneOnItsDate(eventos: seq<Event>, ano: int, i: nat)
    requires i < |Holidays.Fixed|
    requires EventsOn(eventos, Holidays.HolidaysForYear(ano)[i].data) == []
    ensures var hs := Holidays.HolidaysForYear(ano);
      EventsOn(AllEvents(eventos, hs), hs[i].data) == [hs[i]]
  {
    var hs := Holidays.HolidaysForYear(ano);
    Holidays.HolidaysInDateOrder(ano);
    FilterAppend(eventos, hs, SameDay(hs[i].data));
    OnlyHolidayOnItsDate(hs, i);
  }

  /** A day with exactly one bound entry shows one bar in that entry's colour. */
  lemma DayCellOfOneEvent(ano: int, mes0: nat, todos: seq<Event>, dia: nat, ev: Event)
    requires EventsOn(todos, DateKey(ano, mes0 + 1, dia)) == [ev]
    ensures DayCell(ano, mes0, todos, dia) == Day(dia, DateKey(ano, mes0 + 1, dia), Bar(ev.cor))
  {
  }

  /** In a list of entries with pairwise different keys, each key selects its one entry. */
  lemma OnlyHolidayOnItsDate(hs: seq<Event>, i: nat)
    requires i < |hs|
    requires forall a, b :: 0 <= a < b < |hs| ==> hs[a].data != hs[b].data
    ensures EventsOn(hs, hs[i].data) == [hs[i]]
  {
    var key := hs[i].data;
    assert hs == hs[..i] + [hs[i]] + hs[i + 1..];
    FilterAppend(hs[..i] + [hs[i]], hs[i + 1..], SameDay(key));
    FilterAppend(hs[..i], [hs[i]], SameDay(key));
    NoneWithKey(hs[..i], key);
    NoneWithKey(hs[i + 1..], key);
  }
}
