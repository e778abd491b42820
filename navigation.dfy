/**
 * The page's navigation state: the displayed month and year, the selected
 * semester, the company events and the holidays of the displayed year.
 * These are module-level variables of the page that its handlers update in
 * place; here they are the fields of one object.
 */
module Navigation {
  import opened Events
  import Gregorian
  import Holidays
  import Binding

  /**
   * `mudarMes(delta)` on (month, year): add `delta` to the 0-based month;
   * below January go to December of the year before, past December to
   * January of the next year.
   */
  function Shift(mes: int, ano: int, delta: int): (int, int)
  {
    var m := mes + delta;
    if m < 0 then (11, ano - 1)
    else if m > 11 then (0, ano + 1)
    else (m, ano)
  }

  /**
   * For the one-step moves the page's arrows make, `Shift` is the month
   * arithmetic of `Date`: the month count moves by exactly `delta` and the
   * month stays in 0..11.
   */
  lemma ShiftIsMonthArithmetic(mes: int, ano: int, delta: int)
    requires 0 <= mes < 12 && (delta == 1 || delta == -1)
    ensures 0 <= Shift(mes, ano, delta).0 < 12
    ensures 12 * Shift(mes, ano, delta).1 + Shift(mes, ano, delta).0 == 12 * ano + mes + delta
    ensures var n := Gregorian.NormalizeMonth(ano, mes + delta); Shift(mes, ano, delta) == (n.1, n.0)
  {
    var n := Gregorian.NormalizeMonth(ano, mes + delta);
    if mes + delta == -1 {
      assert n.0 == ano - 1;
    } else if mes + delta == 12 {
      assert n.0 == ano + 1;
    } else {
      assert n.0 == ano;
    }
  }

  /** A step forward and a step back return to the same month and year. */
  lemma ShiftBackAndForth(mes: int, ano: int, delta: int)
    requires 0 <= mes < 12 && (delta == 1 || delta == -1)
    ensures var r := Shift(mes, ano, delta); Shift(r.0, r.1, -delta) == (mes, ano)
  {
    ShiftIsMonthArithmetic(mes, ano, delta);
    var r := Shift(mes, ano, delta);
    ShiftIsMonthArithmetic(r.0, r.1, -delta);
  }

  /** Whatever the step, the month stays in 0..11, and the year changes by at most one. */
  lemma ShiftStaysInRange(mes: int, ano: int, delta: int)
    requires 0 <= mes < 12
    ensures 0 <= Shift(mes, ano, delta).0 < 12
    ensures Shift(mes, ano, delta).1 == ano - 1 <==> mes + delta < 0
    ensures Shift(mes, ano, delta).1 == ano + 1 <==> mes + delta > 11
    ensures Shift(mes, ano, delta).1 == ano <==> 0 <= mes + delta <= 11
  {
  }

  /** `trocarSemestre`: semester 1 becomes 2, anything else becomes 1. */
  function Flip(semestre: int): int
  {
    if semestre == 1 then 2 else 1
  }

  /** Switching twice is no switch, and a switch always lands on the other semester. */
  lemma FlipInvolution(semestre: int)
    requires semestre == 1 || semestre == 2
    ensures Flip(semestre) != semestre && (Flip(semestre) == 1 || Flip(semestre) == 2)
    ensures Flip(Flip(semestre)) == semestre
    ensures Binding.SemesterBounds(Flip(semestre)) != Binding.SemesterBounds(semestre)
  {
  }

  class Calendar {
    var eventosGlobal: seq<Event>
    var feriados: seq<Event>
    var mesAtual: int
    var anoAtual: int
    var semestreAtual: int

    /** The month is 0..11, the semester 1 or 2, and the holidays are those of the displayed year. */
    ghost predicate Valid()
      reads this
    {
      && 0 <= mesAtual < 12
      && (semestreAtual == 1 || semestreAtual == 2)
      && feriados == Holidays.HolidaysForYear(anoAtual)
    }

    /**
     * `inicializarCalendario`: the fetched events and today's month and year
     * come in as parameters; the holidays are those of today's year.
     */
    constructor (eventos: seq<Event>, hojeAno: int, hojeMes: int)
      requires 0 <= hojeMes < 12
      ensures Valid()
      ensures eventosGlobal == eventos && anoAtual == hojeAno && mesAtual == hojeMes && semestreAtual == 1
    {
      eventosGlobal := eventos;
      mesAtual := hojeMes;
      anoAtual := hojeAno;
      semestreAtual := 1;
      feriados := Holidays.HolidaysForYear(hojeAno);
    }

    /** `gerarFeriadosParaAno(ano)`: replaces the holiday list, touching nothing else. */
    method GerarFeriados(ano: int)
      modifies this
      ensures feriados == Holidays.HolidaysForYear(ano)
      ensures eventosGlobal == old(eventosGlobal) && mesAtual == old(mesAtual)
      ensures anoAtual == old(anoAtual) && semestreAtual == old(semestreAtual)
    {
      feriados := Holidays.HolidaysForYear(ano);
    }

    /** `mudarMes(delta)`: month and year move as `Shift` says and the holidays follow the year. */
    method MudarMes(delta: int)
      requires Valid()
      modifies this
      ensures Valid()
      ensures (mesAtual, anoAtual) == Shift(old(mesAtual), old(anoAtual), delta)
      ensures anoAtual == old(anoAtual) ==> feriados == old(feriados)
      ensures eventosGlobal == old(eventosGlobal) && semestreAtual == old(semestreAtual)
    {
      mesAtual := mesAtual + delta;
      if mesAtual < 0 {
        mesAtual := 11;
        anoAtual := anoAtual - 1;
        GerarFeriados(anoAtual);
      } else if mesAtual > 11 {
        mesAtual := 0;
        anoAtual := anoAtual + 1;
        GerarFeriados(anoAtual);
      }
    }

    /** `trocarSemestre`: only the semester changes. */
    method TrocarSemestre()
      requires Valid()
      modifies this
      ensures Valid()
      ensures semestreAtual == Flip(old(semestreAtual))
      ensures eventosGlobal == old(eventosGlobal) && feriados == old(feriados)
      ensures mesAtual == old(mesAtual) && anoAtual == old(anoAtual)
    {
      semestreAtual := if semestreAtual == 1 then 2 else 1;
    }

    /** `alterarAno`: the year select's value becomes the displayed year, with its holidays. */
    method AlterarAno(ano: int)
      requires Valid()
      modifies this
      ensures Valid()
      ensures anoAtual == ano
      ensures eventosGlobal == old(eventosGlobal) && mesAtual == old(mesAtual) && semestreAtual == old(semestreAtual)
    {
      anoAtual := ano;
      GerarFeriados(anoAtual);
    }

    /** `alterarMesSelect`: the month select's value (an option index, 0..11) becomes the displayed month. */
    method AlterarMesSelect(mes: int)
      requires Valid() && 0 <= mes < 12
      modifies this
      ensures Valid()
      ensures mesAtual == mes
      ensures eventosGlobal == old(eventosGlobal) && feriados == old(feriados)
      ensures anoAtual == old(anoAtual) && semestreAtual == old(semestreAtual)
    {
      mesAtual := mes;
    }
  }
}
