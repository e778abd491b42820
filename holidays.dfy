/**
 * The national holidays: a fixed table of (month, day, title) entries,
 * stamped with a year. Only fixed-date holidays are listed; the table is
 * regenerated, never patched, whenever the displayed year changes.
 */
module Holidays {
  import opened Text
  import opened Events
  import Gregorian

  /** One row of the fixed table; `mes` is 1-based. */
  datatype FixedHoliday = FixedHoliday(mes: nat, dia: nat, titulo: string)

  const Fixed: seq<FixedHoliday> := [
    FixedHoliday(1, 1, "Confraternização Universal"),
    FixedHoliday(4, 21, "Tiradentes"),
    FixedHoliday(5, 1, "Dia do Trabalhador"),
    FixedHoliday(9, 7, "Independência do Brasil"),
    FixedHoliday(10, 12, "Nossa Senhora Aparecida"),
    FixedHoliday(11, 2, "Finados"),
    FixedHoliday(11, 15, "Proclamação da República"),
    FixedHoliday(12, 25, "Natal")
  ]

  /** The holiday entry a table row becomes in year `ano`. */
  function Stamp(f: FixedHoliday, ano: int): Event
  {
    Event(DateKey(ano, f.mes, f.dia), f.titulo, HolidayColor, Some("feriado"))
  }

  /** `gerarFeriadosParaAno(ano)`: the table, in its own order, stamped with the year. */
  function HolidaysForYear(ano: int): (r: seq<Event>)
    ensures |r| == |Fixed| == 8
    ensures forall i :: 0 <= i < |r| ==> r[i] == Stamp(Fixed[i], ano)
  {
    seq(|Fixed|, i requires 0 <= i < |Fixed| => Stamp(Fixed[i], ano))
  }

  /** Every row of the table names a day that exists in every year. */
  lemma HolidaysAreCalendarDays(ano: int)
    ensures forall i :: 0 <= i < |Fixed| ==>
      1 <= Fixed[i].mes <= 12 && 1 <= Fixed[i].dia <= Gregorian.DaysInMonth(ano, Fixed[i].mes - 1)
  {
  }

  /** Row `i` of the table is a day of every year, and the year's entry `i` is that row stamped with the year. */
  lemma HolidayIsCalendarDay(ano: int, i: nat)
    requires i < |Fixed|
    ensures 1 <= Fixed[i].mes <= 12 && 1 <= Fixed[i].dia <= Gregorian.DaysInMonth(ano, Fixed[i].mes - 1)
    ensures HolidaysForYear(ano)[i] == Stamp(Fixed[i], ano)
    ensures HolidaysForYear(ano)[i].data == DateKey(ano, Fixed[i].mes, Fixed[i].dia)
    ensures HolidaysForYear(ano)[i].cor == HolidayColor
  {
    HolidaysAreCalendarDays(ano);
  }

  /** The table is listed in calendar order, with no date twice. */
  lemma FixedInCalendarOrder()
    ensures forall i, j :: 0 <= i < j < |Fixed| ==>
      Fixed[i].mes < Fixed[j].mes || (Fixed[i].mes == Fixed[j].mes && Fixed[i].dia < Fixed[j].dia)
  {
  }

  /** No national holiday of the table falls in February. */
  lemma NoHolidayInFebruary(i: nat)
    requires i < |Fixed|
    ensures Fixed[i].mes != 2
  {
  }

  lemma HolidayPairOrder(ano: int, i: nat, j: nat)
    requires i < j < |Fixed|
    ensures LexLe(Stamp(Fixed[i], ano).data, Stamp(Fixed[j], ano).data)
    ensures Stamp(Fixed[i], ano).data != Stamp(Fixed[j], ano).data
  {
    FixedInCalendarOrder();
    var a, b := Fixed[i], Fixed[j];
    assert a.mes < 100 && a.dia < 100 && b.mes < 100 && b.dia < 100;
    KeyOrderIsChronological(ano, a.mes, a.dia, b.mes, b.dia);
    if DateKey(ano, a.mes, a.dia) == DateKey(ano, b.mes, b.dia) {
      DateKeyInjective(ano, a.mes, a.dia, ano, b.mes, b.dia);
    }
  }

  /** The holidays of a year come out in strictly increasing date order. */
  lemma HolidaysInDateOrder(ano: int)
    ensures forall i, j :: 0 <= i < j < |HolidaysForYear(ano)| ==>
      LexLe(HolidaysForYear(ano)[i].data, HolidaysForYear(ano)[j].data) &&
      HolidaysForYear(ano)[i].data != HolidaysForYear(ano)[j].data
  {
    var r := HolidaysForYear(ano);
    forall i, j | 0 <= i < j < |r|
      ensures LexLe(r[i].data, r[j].data) && r[i].data != r[j].data
    {
      HolidayPairOrder(ano, i, j);
    }
  }

  /** Every holiday of year `ano` is filed under its own month of that year and no other. */
  lemma HolidayMonth(ano: int, i: nat, ano2: int, mes2: nat)
    requires i < |Fixed| && mes2 < 100
    ensures StartsWith(HolidaysForYear(ano)[i].data, MonthPrefix(ano2, mes2)) <==> ano2 == ano && mes2 == Fixed[i].mes
  {
    MonthPrefixIff(ano, Fixed[i].mes, Fixed[i].dia, ano2, mes2);
  }

  lemma NatToString2025()
    ensures NatToString(2025) == "2025"
  {
    assert NatToString(2) == "2";
    assert NatToString(20) == NatToString(2) + "0";
    assert NatToString(202) == NatToString(20) + "2";
    assert NatToString(2025) == NatToString(202) + "5";
  }

  /** The 2025 table has 8 entries, Christmas among them. */
  lemma Christmas2025()
    ensures |HolidaysForYear(2025)| == 8
    ensures Event("2025-12-25", "Natal", "#808080", Some("feriado")) in HolidaysForYear(2025)
  {
    NatToString2025();
    assert NatToString(12) == "12" && NatToString(25) == "25";
    assert HolidaysForYear(2025)[7] == Event("2025-12-25", "Natal", "#808080", Some("feriado"));
  }
}
