# Calendar core of `calendario.js`, modelled in Dafny

`calendario.js` drives a company agenda page. It keeps company events
loaded from a remote store, together with the national holidays of the
displayed year, and shows them in four ways:

- a month table of week rows, Monday first, where each day cell is marked
  with one colour bar or up to four dots;
- a year listing;
- a semester listing;
- a single-day view.

It also draws a colour legend and handles month, year and semester
navigation.

This project models the parts of that page that compute something:

- **Text** (`text.dfy`): `String(n)`, `pad2`, `split("-")` and the
  character-code order that `localeCompare` gives on date keys.
- **Gregorian** (`gregorian.dfy`): the day count behind `new Date(y, m, d)`.
  From it come the month length (`totalDias`, the "day 0 of next month"
  trick) and the Monday-first weekday of the 1st (`inicioSemana`).
- **Events** (`events.dfy`): the entry record and the date key
  `${ano}-${pad2(mes)}-${pad2(dia)}`. Keys are injective, their string order
  is chronological, and they can be tested against a month prefix. It also
  holds the `DD/MM/YYYY` relabelling.
- **Holidays** (`holidays.dfy`): `gerarFeriadosParaAno`, the table of eight
  fixed holidays stamped with a year.
- **Binding** (`binding.dfy`): the combined list `[...eventosGlobal,
  ...feriados]` and the exact-date filter. Also the month-prefix filter
  followed by the stable sort by key, the year and semester listings, the
  per-cell indicator, the details panel and the day view's date.
- **MonthGrid** (`month_grid.dfy`): the `while (diaAtual <= totalDias)` /
  `for col` loop of `renderizarCalendarioMensal`, as methods with loop
  invariants. They are proved against a position function `CellAt`, and the
  table's shape is proved from that function.
- **Legend** (`legend.dfy`): the insertion-ordered `Map` of
  `renderizarLegenda`. It is an association list filled by a loop method,
  proved equal to a recursive definition whose properties are lemmas.
- **Navigation** (`navigation.dfy`): the page's module variables
  (`eventosGlobal`, `feriados`, `mesAtual`, `anoAtual`, `semestreAtual`) as
  the fields of a class. Its methods are `mudarMes`, `trocarSemestre`,
  `alterarAno`, `alterarMesSelect` and `gerarFeriadosParaAno`.

Day numbers count from 0001-01-01 (day 0, a Monday) in the proleptic
Gregorian calendar. Dafny's `/` and `%` round down for a positive divisor,
so the count is right for every integer year. `Date` reads a year in 0..99
as 1900 + year; the finding below covers that case.

## Model

| member | source | states |
|---|---|---|
| Text.Pad2 | calendario.js:19-21 | `pad2(n)`: the decimal rendering, with one leading `0` when it has a single character; its promises are Pad2Digits, Pad2Length and Pad2RoundTrip |
| Text.NatToString | calendario.js:20 | `String(n)` of a non-negative number: its decimal digits, without leading zeros; its promises are NatToStringShape, NatToStringRoundTrip and NatToStringInjective |
| Text.IntToString | calendario.js:37 | `${ano}`: a minus sign for a negative year, then its digits; its promises are IntToStringSign and IntToStringInjective |
| Text.LexLe | calendario.js:346 | the `localeCompare` order on keys, by character code; a total order by LexLeReflexive, LexLeTotal, LexLeTransitive and LexLeAntisymmetric |
| Text.NatToStringShape | calendario.js:20 | `String(n)` of a natural is a non-empty string of digits with no leading zero; it has one character exactly below 10 and two exactly from 10 to 99 |
| Text.Pad2Digits | calendario.js:19-21 | `pad2(n)` is all digits and at least two characters long |
| Text.Pad2Length | calendario.js:19-21 | below 100, `pad2(n)` is exactly two characters |
| Text.NatToStringRoundTrip | calendario.js:20 | reading the digits of `String(n)` back gives `n` |
| Text.Pad2RoundTrip | calendario.js:19-21 | below 100, `pad2(n)` is the tens digit then the units digit, and reads back as `n` |
| Text.Pad2Injective | calendario.js:19-21 | different numbers below 100 get different `pad2` strings |
| Text.NatToStringInjective | calendario.js:20 | different naturals render differently |
| Text.IntToStringSign | calendario.js:37 | a rendered year starts with `-` exactly when it is negative |
| Text.IntToStringInjective | calendario.js:37 | different years render differently |
| Text.Split | calendario.js:204 | `split("-")` gives at least one piece, and no piece holds the separator |
| Text.Field | calendario.js:204-205 | piece `i` of the destructured `split` result, printed as `undefined` when the piece is missing; its promises are LabelOfPieces and FormatLabelOfKey |
| Text.StartsWith | calendario.js:345 | `String.prototype.startsWith`; on keys it holds exactly for the key's own month prefix, by MonthPrefixIff and DateKeyParts |
| Text.SplitNoSep | calendario.js:204 | a string without the separator splits into itself alone |
| Text.SplitAtSep | calendario.js:204 | splitting `a-b`, with `a` dash-free, gives `a` followed by the pieces of `b` |
| Text.SplitThree | calendario.js:204 | splitting `a-b-c` made of dash-free pieces gives exactly `[a, b, c]` |
| Text.LexLeReflexive | calendario.js:346 | the key order puts every key at or before itself |
| Text.LexLeTotal | calendario.js:346 | any two keys are comparable |
| Text.LexLeTransitive | calendario.js:346 | the key order is transitive |
| Text.LexLeAntisymmetric | calendario.js:346 | keys ordered both ways are equal |
| Events.DateKey | calendario.js:271 | the key `${ano}-${pad2(mes)}-${pad2(dia)}`; injective by DateKeyInjective, chronologically ordered by KeyOrderIsChronological |
| Events.MonthPrefix | calendario.js:343-345 | the prefix `${anoAtual}-${pad2(m + 1)}` of the year view's filter; every key of that month starts with it (DateKeyParts) and no key of another month does (MonthPrefixIff) |
| Events.FormatLabel | calendario.js:204-205 | `${dia}/${mes}/${ano}` from `dataStr.split("-")`; its promise is FormatLabelOfKey |
| Events.DayField | calendario.js:357 | `ev.data.split("-")[2]`, the day shown in the listings; its promise is FormatLabelOfKey |
| Events.KeyLayout | calendario.js:271 | in `y-mm-dd` the year, the dashes, the month and the day sit at fixed offsets from the year's length |
| Events.DateKeyParts | calendario.js:271 | a day key is its month prefix `${ano}-${pad2(mes)}`, then `-` and the padded day; it is 6 characters longer than the year and starts with that prefix |
| Events.DateKeyInjective | calendario.js:271 | two days share a key only if year, month and day are all equal |
| Events.SameLayout | calendario.js:271 | two equal `y-mm-dd` strings have equal pieces |
| Events.NoDashAfterSign | calendario.js:37 | a rendered year holds no dash after its first character |
| Events.PrefixPieces | calendario.js:345 | a `y-mm-dd` string starting with `y'-nn` has `y == y'` and `mm == nn` |
| Events.MonthPrefixIff | calendario.js:345 | a day key starts with a month's prefix exactly when the day lies in that month of that year |
| Events.PrefixNamesTheMonth | calendario.js:345 | a key that starts with a month prefix names that year and month |
| Events.TwoCharOrder | calendario.js:346 | strings with two-character heads compare by the first character, then the second, then the rest |
| Events.TwoDigitOrder | calendario.js:346 | on padded numbers below 100, the string order is the numeric order |
| Events.DecimalOrder | calendario.js:346 | numbers below 100 compare by tens digit, then by units digit |
| Events.LexLeCommonPrefix | calendario.js:346 | a shared prefix does not change the string order |
| Events.MonthDayPartOrder | calendario.js:346 | `-mm-dd` strings compare as (month, day) pairs |
| Events.KeyOrderIsChronological | calendario.js:346 | within a year, `localeCompare` order on keys is calendar order (month, then day), in both directions |
| Events.LabelOfPieces | calendario.js:204-205 | relabelling `y-m-d` made of dash-free pieces gives `d/m/y`, and its third field is `d` |
| Events.FormatLabelOfKey | calendario.js:204-205 | the key of a non-negative year is relabelled `pad2(dia)/pad2(mes)/ano`, and the listing's day field is `pad2(dia)` |
| Gregorian.DaysInMonth | calendario.js:235 | every month has 28 to 31 days |
| Gregorian.NormalizeMonth | calendario.js:235 | `Date`'s carry of an out-of-range month gives a month in 0..11 and keeps the month count `12 * year + month` |
| Gregorian.JsWeekday | calendario.js:238 | `getDay()` lies in 0..6 |
| Gregorian.JsDayNumber | calendario.js:234-235 | the day addressed by `new Date(y, m, d)`, month overflow and day 0 included; day 0 of the next month is the last day of this one (DayZeroOfNextMonth), and the first day's weekday is the Monday-based one (FirstWeekdayIsMondayBased) |
| Gregorian.FirstWeekday | calendario.js:238-239 | `inicioSemana = (jsDay + 6) % 7` lies in 0..6 |
| Gregorian.ShiftToMonday | calendario.js:239 | shifting a Sunday-first weekday by six is counting weekdays from a Monday |
| Gregorian.FirstWeekdayIsMondayBased | calendario.js:238-239 | `inicioSemana` is the day number of the 1st modulo 7, with Monday as 0 |
| Gregorian.FloorStep4 | calendario.js:235 | from `y - 1` to `y`, `y / 4` grows by one exactly at multiples of 4 |
| Gregorian.FloorStep100 | calendario.js:235 | from `y - 1` to `y`, `y / 100` grows by one exactly at multiples of 100 |
| Gregorian.FloorStep400 | calendario.js:235 | from `y - 1` to `y`, `y / 400` grows by one exactly at multiples of 400 |
| Gregorian.MultiplesNest | calendario.js:235 | multiples of 400 are multiples of 100, which are multiples of 4 |
| Gregorian.YearStep | calendario.js:235 | consecutive years start exactly one year length apart, leap day included |
| Gregorian.MonthStep | calendario.js:235 | the cumulative month table agrees with the month lengths, and December closes the year |
| Gregorian.DayZeroOfNextMonth | calendario.js:235 | `new Date(y, m + 1, 0)` is the last day of month `m`, December included, so `getDate()` is the month length |
| Gregorian.ModAddSeven | calendario.js:239 | adding days commutes with taking the weekday |
| Gregorian.NextMonthFirstWeekday | calendario.js:234-239 | the next month's first weekday is this month's first weekday plus its length, modulo 7 |
| Gregorian.CalendarExamples | calendario.js:234-239 | February has 29 days in 2024 and 28 in 2023, April 2025 has 30, 2025-01-01 is a Wednesday and 2024-02-01 a Thursday |
| Gregorian.FirstWeekdayAsWritten | calendario.js:234 | the code's `inicioSemana` lies in 0..6 and is the calendar one outside years 0..99 |
| Gregorian.JsDateYear | calendario.js:234-235 | `new Date` reads a year 0..99 as 1900 + year and leaves every other year alone; its consequences are FirstWeekdayAsWritten, DaysInMonthAsWritten, AsWrittenYearOne, TwoDigitYearWeekday and TwoDigitYearLeapDay |
| Gregorian.DaysInMonthAsWritten | calendario.js:235 | the code's `totalDias` is the calendar one outside years 0..99 |
| Gregorian.ModOfMultiple | calendario.js:239 | `(7q + r) % 7 == r` for `r` in 0..6 |
| Gregorian.YearOneStartsOnMonday | calendario.js:238-239 | 0001-01-01 is a Monday |
| Gregorian.Year1901StartsOnTuesday | calendario.js:238-239 | 1901-01-01 is a Tuesday |
| Gregorian.AsWrittenYearOne | calendario.js:234 | the code lays out January of year 1 from a Tuesday |
| Gregorian.TwoDigitYearWeekday | calendario.js:234 | year 1 starts on a Monday, but the code lays it out from a Tuesday |
| Gregorian.TwoDigitYearLeapDay | calendario.js:235 | February of year 0 has 29 days, but the code gives it 28 |
| Holidays.Stamp | calendario.js:36-41 | one table row stamped with the year: key, title, `#808080`, `feriado`; stated for every row by HolidaysForYear |
| Holidays.HolidaysForYear | calendario.js:24-42 | exactly 8 entries, entry `i` being table row `i` stamped with the year: key `${ano}-${pad2(mes)}-${pad2(dia)}`, the row's title, colour `#808080`, tag `feriado` |
| Holidays.HolidaysAreCalendarDays | calendario.js:25-34 | every row of the table `Holidays.Fixed` (the `fixos` array) names a day that exists in every year |
| Holidays.HolidayIsCalendarDay | calendario.js:36-41 | row `i` is a day of every year, and the year's entry `i` carries its key and the holiday colour |
| Holidays.NoHolidayInFebruary | calendario.js:25-34 | no row of the table is in February |
| Holidays.FixedInCalendarOrder | calendario.js:25-34 | the table `Holidays.Fixed` (the `fixos` array, eight rows) is in strictly increasing (month, day) order |
| Holidays.HolidayPairOrder | calendario.js:36-41 | an earlier row's key sorts strictly before a later row's key |
| Holidays.HolidaysInDateOrder | calendario.js:36-41 | a year's holidays come out in strictly increasing key order, so no two share a date |
| Holidays.HolidayMonth | calendario.js:37 | a holiday is filed under its own month of its own year and under no other month |
| Holidays.NatToString2025 | calendario.js:37 | `String(2025)` is `"2025"` |
| Holidays.Christmas2025 | calendario.js:24-41 | the 2025 table has 8 entries, among them `{data: "2025-12-25", titulo: "Natal", cor: "#808080", tipo: "feriado"}` |
| Binding.Filter | calendario.js:202 | `Array.prototype.filter`; its promises are FilterKeeps, FilterAppend, FilterCounts and FilterIsSubsequence |
| Binding.AllEvents | calendario.js:201 | `todosEventos = [...eventosGlobal, ...feriados]` (also at lines 241, 339, 380 and 443): the company's events, then the holidays; its promises are EventsOnSpec and FilterAppend |
| Binding.EventsOn | calendario.js:202 | `todosEventos.filter(e => e.data === dataStr)`; its promise is EventsOnSpec |
| Binding.FilterKeeps | calendario.js:202 | a filtered list is no longer than its input and holds only passing entries |
| Binding.FilterAppend | calendario.js:201-202 | filtering the combined list is filtering the company events, then the holidays |
| Binding.FilterCounts | calendario.js:202 | a passing entry is kept as often as it occurs, and no other entry is kept |
| Binding.FilterIsSubsequence | calendario.js:202 | the filter keeps the input's order |
| Binding.FilterNarrow | calendario.js:344-345 | filtering by a narrower test after a wider one is filtering once by the narrower test |
| Binding.NoneWithKey | calendario.js:202 | a list with no entry of a key binds nothing to it |
| Binding.EventsOnSpec | calendario.js:201-202 | a day's events are company events first, then holidays; each entry with the key appears as often as it occurs, no other entry appears, and the order is kept |
| Binding.Insert | calendario.js:346 | insertion adds exactly one element |
| Binding.SortByDate | calendario.js:346 | sorting keeps the length |
| Binding.ConsSorted | calendario.js:346 | a sorted list stays sorted with a head at or before all its keys |
| Binding.AllFromPermutation | calendario.js:346 | "every key at or after k" depends only on which entries occur |
| Binding.InsertSorted | calendario.js:346 | inserting into a sorted list gives a sorted list with the inserted entry added |
| Binding.InsertStable | calendario.js:346 | insertion puts the new entry before the equal keys that follow it |
| Binding.SortByDateOrders | calendario.js:346 | the sort gives a list sorted by key that is a permutation of its input |
| Binding.SortByDateStable | calendario.js:346 | the sort keeps entries of one key in their original relative order |
| Binding.MonthEvents | calendario.js:344-346 | `eventosMes`: the month-prefix filter, then the stable sort by key; its promise is MonthEventsSpec |
| Binding.InMonth | calendario.js:343-345 | the year view's test `e.data.startsWith(prefix)`; it holds for a key exactly when the key lies in that month (MonthPrefixIff), and MonthEventsSpec states the listing it selects |
| Binding.MonthEventsSpec | calendario.js:344-346 | a month listing holds exactly the entries whose key starts with `${ano}-${pad2(m + 1)}`, as often as they occur, sorted by key, with same-date entries in their original order |
| Binding.MonthEventsCount | calendario.js:344-345 | an entry occurs in a month listing as often as in the input if it has the month's prefix, and otherwise not at all |
| Binding.DayWithinMonth | calendario.js:344-346 | a day's entries appear in its month listing in the order the day view shows them |
| Binding.YearListing | calendario.js:342-346 | the year view has 12 month listings |
| Binding.SemesterBounds | calendario.js:381-382 | `inicio`/`fim`: semester 1 is months 0..5, any other value months 6..11 |
| Binding.SemesterListing | calendario.js:392-396 | the semester view has 6 month listings |
| Binding.SemestersMakeTheYear | calendario.js:381-396 | semester 1's listings followed by semester 2's are the year view |
| Binding.ListedUnderItsMonth | calendario.js:342-346 | an entry dated in the year is listed under its own month and under no other, and only if it is among the entries |
| Binding.IndicatorFor | calendario.js:273-292 | the cell indicator: none, one bar, or `min(n, 4)` dots; its promise is IndicatorForSpec |
| Binding.IndicatorForSpec | calendario.js:273-292 | a cell is marked exactly when it has an event; one event gives a bar in its colour; more give `min(n, 4)` dots coloured by the first events |
| Binding.DayDetails | calendario.js:200-213 | `mostrarEventosDoDia(dataStr)`: the relabelled heading and the day's events; its promise is DayDetailsOfKey |
| Binding.DayDetailsOfKey | calendario.js:200-213 | for any year, the events are the company's then the holidays' with the key, and the "no events" message shows exactly when no entry carries it; for a non-negative year the heading is the key relabelled `DD/MM/YYYY` |
| Binding.DayViewDate | calendario.js:436-441 | the day view uses the picker's date whenever the picker is not empty |
| MonthGrid.DayCell | calendario.js:271-292 | the cell of day `dia`: its number, key and indicator; LayDay builds it and OneEventMark and DayCellOfOneEvent state its marking |
| MonthGrid.CellAt | calendario.js:263-298 | the cell at reading position `p` of a month's table; BuildMonthGrid is proved equal to it and GridDayPositions, GridPadding and GridDaysIncrease state its shape |
| MonthGrid.CellAtIs | calendario.js:263-298 | reading position `p` shows day `p - inicioSemana + 1` when it lies in `1..totalDias`, and otherwise padding |
| MonthGrid.BuildMonthGrid | calendario.js:234-302 | the month table has `ceil((inicioSemana + totalDias) / 7)` rows of 7 cells, and cell (r, c) is the one `CellAt` gives for position `7r + c` |
| MonthGrid.LayWeeks | calendario.js:260-302 | the week loop ends, leaving `ceil((inicioSemana + totalDias) / 7)` rows of 7 cells, each the one its position calls for |
| MonthGrid.LayWeek | calendario.js:264-301 | one pass of the week loop lays out the seven cells of week `semana` and advances `diaAtual` past the days laid out |
| MonthGrid.LayCell | calendario.js:266-298 | a column step writes padding before the 1st in week 1 or after the last day, and otherwise the counter's day, advancing the counter exactly then |
| MonthGrid.LayDay | calendario.js:271-292 | a day cell carries its day, the key `${ano}-${pad2(mes + 1)}-${pad2(dia)}` and the indicator of the entries bound to that key |
| MonthGrid.TableOfWeeks | calendario.js:263-302 | once the loop stops, its rows number `ceil((start + total) / 7)`, with 7 cells each, each at its position |
| MonthGrid.Weeks | calendario.js:263-302 | `n` passes give `n` rows |
| MonthGrid.WeeksAt | calendario.js:263-302 | row `r` of the rows so far is week `r` |
| MonthGrid.Week | calendario.js:265 | a week row has 7 cells |
| MonthGrid.Row | calendario.js:265 | `n` column steps give `n` cells |
| MonthGrid.RowAt | calendario.js:265-299 | cell `c` of a row is the one at position `base + c` |
| MonthGrid.SlotAt | calendario.js:266-297 | each column step's branch matches the position: padding exactly when the loop writes an empty cell, otherwise the counter's day, and the counter moves exactly when a day is written |
| MonthGrid.GridDayPositions | calendario.js:260-302 | every day `1..totalDias` sits at position `inicioSemana + d - 1` with its cell, and every day cell sits exactly there |
| MonthGrid.GridDaysIncrease | calendario.js:260-302 | day numbers strictly increase in reading order, so no day appears twice |
| MonthGrid.GridPadding | calendario.js:263-302 | a cell is padding exactly in row 1 before `inicioSemana` or after the last day, and the last day is in the last row |
| MonthGrid.GridKeysDistinct | calendario.js:271 | different day cells of one table carry different keys |
| MonthGrid.SingleEventMarksOneCell | calendario.js:271-284 | with one event on a day of the month, exactly that day's cell is marked, with one bar in the event's colour |
| MonthGrid.OneEventMark | calendario.js:271-284 | against one event, day `d`'s cell is marked exactly when `d` is the event's day, and then with its bar |
| MonthGrid.Key20240229 | calendario.js:271 | the key of 29 February 2024 is `"2024-02-29"` |
| MonthGrid.LeapDayExample | calendario.js:234-302 | February 2024, with one company event on 2024-02-29 bound together with the 2024 holidays: the month has 29 days, the table has a cell for day 29 with one bar in the event's colour, and that is the only marked cell |
| MonthGrid.SameCellsWithHolidays2024 | calendario.js:241-272 | in February 2024, adding the year's holidays to the bound list changes no cell |
| MonthGrid.NoHolidayOnFebruary2024 | calendario.js:272 | no 2024 holiday carries the key of a February 2024 day |
| MonthGrid.HolidayCellShowsGreyBar | calendario.js:241-284 | a holiday with no company event on its date is drawn as its day's cell with one grey bar |
| MonthGrid.HolidayAloneOnItsDate | calendario.js:241-272 | with no company event on a holiday's date, the holiday is the only entry bound to that date |
| MonthGrid.DayCellOfOneEvent | calendario.js:272-284 | a day with exactly one bound entry shows one bar in that entry's colour |
| MonthGrid.OnlyHolidayOnItsDate | calendario.js:272 | in a list whose keys differ pairwise, each entry's key selects that entry alone |
| Legend.Set | calendario.js:137-142 | `Map.prototype.set` on the association list; its promises are SetPlaces, SetFinds, SetOthers, SetKeepsPlaces and SetKeepsDistinct |
| Legend.FirstSeen | calendario.js:135-139 | the map after the `forEach`; its promises are FirstSeenKeys, FirstSeenTitle and FirstSeenOrder |
| Legend.LegendOf | calendario.js:132-143 | the legend map after the holiday step; built by BuildLegend, with LegendKeys, LegendTitle, LegendOrder, LegendHolidayEntry and LegendEmpty as its promises |
| Legend.Lookup | calendario.js:136 | `mapa.has(k)` fails exactly when no entry has key `k`, and `get` returns the value of an entry with that key |
| Legend.KeyIndex | calendario.js:151 | a present key has a position holding its entry, and no earlier entry has that key |
| Legend.SetPlaces | calendario.js:137-142 | `mapa.set` appends a new key and leaves an existing key in its place; no key moves and entries of other keys are untouched |
| Legend.SetFinds | calendario.js:137-142 | after `set(k, v)`, `get(k)` is `v` |
| Legend.SetOthers | calendario.js:142 | `set` leaves every other key's value alone |
| Legend.KeyIndexIs | calendario.js:136 | an entry preceded by no entry of its key is the one lookup finds |
| Legend.SetKeepsPlaces | calendario.js:142 | `set` moves no key |
| Legend.AppendNew | calendario.js:137 | adding a new key changes no existing key's value or place |
| Legend.BuildLegend | calendario.js:132-143 | the `forEach` loop plus the holiday step build exactly the legend `LegendOf` describes |
| Legend.FirstSeenKeys | calendario.js:135-139 | before the holiday step, the map has one entry per colour used by an event, and no other |
| Legend.FirstSeenKeyStep | calendario.js:135-139 | one more event adds its colour to the map's colours, and no other |
| Legend.UsedBeforeLast | calendario.js:135-139 | a colour other than the last event's is used in the list exactly when it is used before the last event |
| Legend.FirstSeenDistinctStep | calendario.js:135-139 | one more event keeps the map's colours pairwise different |
| Legend.FirstSeenTitle | calendario.js:135-139 | each colour is titled by the first event drawn in it |
| Legend.FirstSeenOrder | calendario.js:135-139 | colours are listed in the order their first events appear |
| Legend.NewColourAfter | calendario.js:135-139 | a colour seen before the last event is listed before the last event's new colour |
| Legend.NewColourAppended | calendario.js:136-138 | the first event of a new colour appends its entry at the end |
| Legend.FirstSeenGrows | calendario.js:136-138 | a colour already in the map keeps its title and place when another event is seen |
| Legend.LegendKeys | calendario.js:132-143 | the legend names each colour once; its colours are exactly the event colours, plus `#808080` when there are holidays |
| Legend.SetKeepsDistinct | calendario.js:142 | `set` keeps the keys pairwise different |
| Legend.LegendHolidayEntry | calendario.js:141-143 | with holidays, `#808080` is titled "Feriado nacional"; if no event used that colour, it is the last entry |
| Legend.LegendTitle | calendario.js:135-143 | every other colour is titled by its first event |
| Legend.LegendOrder | calendario.js:135-143 | colours appear in first-seen order, and the holiday entry keeps the place of an event colour it overrides |
| Legend.LegendEmpty | calendario.js:146-150 | the "no events yet" message shows exactly when there are neither events nor holidays |
| Navigation.Shift | calendario.js:314-323 | `mudarMes`'s month and year update; its promises are ShiftIsMonthArithmetic, ShiftBackAndForth and ShiftStaysInRange |
| Navigation.Flip | calendario.js:425 | `trocarSemestre`'s update; its promise is FlipInvolution |
| Navigation.ShiftIsMonthArithmetic | calendario.js:314-323 | a ±1 month step keeps the month in 0..11, moves `12 * year + month` by exactly the step, and agrees with `Date`'s month carry |
| Navigation.ShiftBackAndForth | calendario.js:314-323 | a step forward and a step back return to the same month and year |
| Navigation.ShiftStaysInRange | calendario.js:314-323 | for any step, the month stays in 0..11; the year drops by one exactly below January, rises by one exactly past December, and otherwise stays |
| Navigation.FlipInvolution | calendario.js:425 | switching semesters always lands on the other one, switching twice restores it, and the two have different month ranges |
| Navigation.Calendar.constructor | calendario.js:58-65 | initialisation stores the events, today's month and year, semester 1 and that year's holidays |
| Navigation.Calendar.GerarFeriados | calendario.js:36-41 | the holiday list is replaced by the given year's, and nothing else changes |
| Navigation.Calendar.MudarMes | calendario.js:313-323 | month and year move as `Shift` says; the holidays follow the new year and are unchanged when the year is; nothing else changes |
| Navigation.Calendar.TrocarSemestre | calendario.js:424-425 | only the semester changes, 1 to 2 and 2 to 1 |
| Navigation.Calendar.AlterarAno | calendario.js:111-117 | the chosen year becomes the displayed year with its holidays, and month, semester and events are unchanged |
| Navigation.Calendar.AlterarMesSelect | calendario.js:119-124 | the chosen month becomes the displayed month, and nothing else changes |

## Left out

- Entries are assumed to carry string `data`, `titulo` and `cor`; the remote store's answer is not validated element by element. A malformed element is not modelled: one without a string `data` makes `startsWith` throw, so the year and semester views stop rendering, and one without `cor` adds an `undefined` key to the legend.
- The remote fetch of the events, and its fail-open handling of a missing or non-array answer (`carregarEventosDoFirebase`): network I/O. The constructor takes the events as a parameter.
- All DOM access and HTML text: `innerHTML`, element lookups, `style.display`, the year and month `<option>` lists (`preencherSelectsAnoMes`, `atualizarVisibilidadeSelectMes`), the markup of cells, listings, the legend and the details panel, and the `&quot;` escaping. The model keeps the data those strings are built from: cells, indicators, listings, legend entries and the details heading and events.
- The hover title of a marked cell (titles joined with `" / "`): string assembly for display only.
- The "Semana" column: it shows the row number, which is the row's index plus one.
- The clock: `new Date()`, `getMonth()`, `getFullYear()` and `toISOString().slice(0, 10)` depend on the wall clock and the time zone. Today's month, year and date are parameters.
- Binding.DayViewDate: states only the non-empty-picker case, because the fallback is today's date, which is a parameter here.
- `alterarModo` and the re-rendering that every handler ends with: this is dispatch on a DOM value. The views themselves are modelled as functions (`MonthGrid.BuildMonthGrid`, `Binding.YearListing`, `Binding.SemesterListing`, `Binding.DayDetails`).
- `parseInt` of the select values: the year and month arrive as integers; `AlterarMesSelect` takes an option index in 0..11.
- The `window.*` exports: host wiring.
- `localeCompare` is modelled as code-point order. The two agree on keys made only of digits and dashes, which covers every key the calendar builds and the `YYYY-MM-DD` shape the store is expected to hold; stored keys with other characters may sort differently.
- Events.FormatLabelOfKey: stated for non-negative years only. A negative year's key begins with `-`, and `split("-")` then yields an empty first piece.
- Binding.DayDetailsOfKey: its heading clause is stated for non-negative years only, for the same reason; its events and "no events" clauses hold for every year.
- The range limit of `Date` (about ±275,760 years) is not modelled; the day count is exact for every integer year.
- Navigation.Calendar.MudarMes: accepts any integer step, as the code does. The month-arithmetic lemmas (`ShiftIsMonthArithmetic`, `ShiftBackAndForth`) are stated for the ±1 steps the page's arrows make.

## Findings

| source | as written | input that shows it | evidently intended | confidence | as-written member | corrected member |
|---|---|---|---|---|---|---|
| calendario.js:234 | `new Date(anoAtual, mesAtual, 1).getDay()` reads a year 0..99 as 1900 + year | `anoAtual = 1`, January: the code lays out the month from a Tuesday (1901-01-01), but 0001-01-01 is a Monday | the weekday of the 1st in the displayed year | low (not executed; years below 100 are reached only by paging back from the current year) | Gregorian.TwoDigitYearWeekday | Gregorian.FirstWeekdayIsMondayBased |
| calendario.js:235 | `new Date(anoAtual, mesAtual + 1, 0).getDate()` reads a year 0..99 as 1900 + year | `anoAtual = 0`, February: the code gives 28 days (1900 is not a leap year), but year 0 is a leap year with 29 | the length of the month in the displayed year | low (not executed; same reach as above) | Gregorian.TwoDigitYearLeapDay | Gregorian.DayZeroOfNextMonth |
