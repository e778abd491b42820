/**
 * Calendar entries and their date keys. An entry is either a company event
 * read from the remote store (`data`, `titulo`, `cor`) or a national
 * holiday, which carries the extra tag `tipo: "feriado"`. Dates are
 * calendar-day strings `YYYY-MM-DD`, built as
 * `${ano}-${pad2(mes)}-${pad2(dia)}` with a 1-based month.
 */
module Events {
  import opened Text

  datatype Option<T> = None | Some(value: T)

  datatype Event = Event(data: string, titulo: string, cor: string, tipo: Option<string>)

  /** The colour every holiday is drawn in. */
  const HolidayColor: string := "#808080"

  /** The date key of day `dia` of the 1-based month `mes` of year `ano`. */
  function DateKey(ano: int, mes: nat, dia: nat): string
  {
    IntToString(ano) + MonthDayPart(mes, dia)
  }

  /** `-MM-DD`: what follows the year in a key. */
  function MonthDayPart(mes: nat, dia: nat): string
  {
    "-" + Pad2(mes) + "-" + Pad2(dia)
  }

  /** The prefix shared by every key of one month: `${ano}-${pad2(mes)}`. */
  function MonthPrefix(ano: int, mes: nat): string
  {
    IntToString(ano) + "-" + Pad2(mes)
  }

  /** Where the pieces of `y-mm-dd` sit, for any rendered year `y` and two-character `mm`, `dd`. */
  lemma KeyLayout(y: string, m: string, d: string)
    requires |m| == 2 && |d| == 2
    ensures var k := y + ("-" + m + "-" + d);
      && |k| == |y| + 6
      && k == (y + "-" + m) + "-" + d
      && k[..|y|] == y && k[|y|] == '-' && k[|y| + 1..|y| + 3] == m
      && k[|y| + 3] == '-' && k[|y| + 4..] == d
  {
  }

  /** A key is its month's prefix followed by a dash and the two-digit day. */
  lemma DateKeyParts(ano: int, mes: nat, dia: nat)
    requires mes < 100 && dia < 100
    ensures DateKey(ano, mes, dia) == MonthPrefix(ano, mes) + "-" + Pad2(dia)
    ensures |MonthPrefix(ano, mes)| == |IntToString(ano)| + 3
    ensures |DateKey(ano, mes, dia)| == |IntToString(ano)| + 6
    ensures StartsWith(DateKey(ano, mes, dia), MonthPrefix(ano, mes))
  {
    var y, m, d := IntToString(ano), Pad2(mes), Pad2(dia);
    Pad2Length(mes);
    Pad2Length(dia);
    KeyLayout(y, m, d);
    var k, p := DateKey(ano, mes, dia), MonthPrefix(ano, mes);
    assert k == p + "-" + d;
    assert k[..|p|] == p;
  }

  /** Different days, months or years never share a key. */
  lemma DateKeyInjective(a1: int, m1: nat, d1: nat, a2: int, m2: nat, d2: nat)
    requires m1 < 100 && d1 < 100 && m2 < 100 && d2 < 100
    requires DateKey(a1, m1, d1) == DateKey(a2, m2, d2)
    ensures a1 == a2 && m1 == m2 && d1 == d2
  {
    var y1, p1, q1 := IntToString(a1), Pad2(m1), Pad2(d1);
    var y2, p2, q2 := IntToString(a2), Pad2(m2), Pad2(d2);
    Pad2Length(m1);
    Pad2Length(d1);
    Pad2Length(m2);
    Pad2Length(d2);
    SameLayout(y1, p1, q1, y2, p2, q2);
    IntToStringInjective(a1, a2);
    Pad2Injective(m1, m2);
    Pad2Injective(d1, d2);
  }

  /** Two equal strings of the shape `y-mm-dd` have equal pieces. */
  lemma SameLayout(y1: string, m1: string, d1: string, y2: string, m2: string, d2: string)
    requires |m1| == 2 && |d1| == 2 && |m2| == 2 && |d2| == 2
    requires y1 + ("-" + m1 + "-" + d1) == y2 + ("-" + m2 + "-" + d2)
    ensures y1 == y2 && m1 == m2 && d1 == d2
  {
    var k := y1 + ("-" + m1 + "-" + d1);
    KeyLayout(y1, m1, d1);
    KeyLayout(y2, m2, d2);
    assert |y1| == |y2|;
  }

  /** Past its first character, a rendered integer holds no dash. */
  lemma NoDashAfterSign(n: int, i: nat)
    requires 0 < i < |IntToString(n)|
    ensures IntToString(n)[i] != '-'
  {
    assert IsDigit(IntToString(n)[i]) by {
      if n < 0 {
        NatToStringShape(-n);
        assert IntToString(n)[i] == NatToString(-n)[i - 1];
      } else {
        NatToStringShape(n);
      }
    }
  }

  /**
   * A string `y1-mm-dd` that starts with `y2-nn`, where neither year
   * rendering holds a dash past its first character, has `y1 == y2` and
   * `mm == nn`.
   */
  lemma PrefixPieces(y1: string, m1: string, d1: string, y2: string, m2: string)
    requires |y1| >= 1 && |y2| >= 1 && |m1| == 2 && |d1| == 2 && |m2| == 2
    requires forall i :: 0 < i < |y1| ==> y1[i] != '-'
    requires forall i :: 0 < i < |y2| ==> y2[i] != '-'
    requires StartsWith(y1 + ("-" + m1 + "-" + d1), y2 + "-" + m2)
    ensures y1 == y2 && m1 == m2
  {
    var k, p := y1 + ("-" + m1 + "-" + d1), y2 + "-" + m2;
    KeyLayout(y1, m1, d1);
    assert p[..|y2|] == y2 && p[|y2|] == '-' && p[|y2| + 1..] == m2;
    assert k[..|p|] == p;
    assert |y1| == |y2|;
  }

  /**
   * A key starts with a month's prefix exactly when it is a day of that
   * month: the year view files every key under one month only.
   */
  lemma MonthPrefixIff(ano: int, mes: nat, dia: nat, ano2: int, mes2: nat)
    requires mes < 100 && dia < 100 && mes2 < 100
    ensures StartsWith(DateKey(ano, mes, dia), MonthPrefix(ano2, mes2)) <==> ano == ano2 && mes == mes2
  {
    DateKeyParts(ano, mes, dia);
    if StartsWith(DateKey(ano, mes, dia), MonthPrefix(ano2, mes2)) {
      PrefixNamesTheMonth(ano, mes, dia, ano2, mes2);
    }
  }

  lemma PrefixNamesTheMonth(ano: int, mes: nat, dia: nat, ano2: int, mes2: nat)
    requires mes < 100 && dia < 100 && mes2 < 100
    requires StartsWith(DateKey(ano, mes, dia), MonthPrefix(ano2, mes2))
    ensures ano == ano2 && mes == mes2
  {
    var y1, y2 := IntToString(ano), IntToString(ano2);
    IntToStringSign(ano);
    IntToStringSign(ano2);
    Pad2Length(mes);
    Pad2Length(dia);
    Pad2Length(mes2);
    forall i | 0 < i < |y1| ensures y1[i] != '-' { NoDashAfterSign(ano, i); }
    forall i | 0 < i < |y2| ensures y2[i] != '-' { NoDashAfterSign(ano2, i); }
    PrefixPieces(y1, Pad2(mes), Pad2(dia), y2, Pad2(mes2));
    IntToStringInjective(ano, ano2);
    Pad2Injective(mes, mes2);
  }

  /** Comparing `ab…` with `cd…` character by character, for two-character heads. */
  lemma TwoCharOrder(a: string, b: string, s: string, t: string)
    requires |a| == 2 && |b| == 2
    ensures LexLe(a + s, b + t) <==>
      a[0] < b[0] || (a[0] == b[0] && (a[1] < b[1] || (a[1] == b[1] && LexLe(s, t))))
  {
    assert (a + s)[1..][1..] == s && (b + t)[1..][1..] == t;
  }

  /** On two-digit renderings the character order is the numeric order. */
  lemma TwoDigitOrder(m1: nat, m2: nat, s: string, t: string)
    requires m1 < 100 && m2 < 100
    ensures LexLe(Pad2(m1) + s, Pad2(m2) + t) <==> m1 < m2 || (m1 == m2 && LexLe(s, t))
  {
    Pad2RoundTrip(m1);
    Pad2RoundTrip(m2);
    TwoCharOrder(Pad2(m1), Pad2(m2), s, t);
    DecimalOrder(m1, m2);
  }

  /** Two-digit numbers compare by their tens digit, then by their units digit. */
  lemma DecimalOrder(m1: nat, m2: nat)
    requires m1 < 100 && m2 < 100
    ensures m1 < m2 <==> m1 / 10 < m2 / 10 || (m1 / 10 == m2 / 10 && m1 % 10 < m2 % 10)
    ensures m1 == m2 <==> m1 / 10 == m2 / 10 && m1 % 10 == m2 % 10
  {
    assert m1 == 10 * (m1 / 10) + m1 % 10 && m2 == 10 * (m2 / 10) + m2 % 10;
  }

  lemma {:induction false} LexLeCommonPrefix(p: string, s: string, t: string)
    ensures LexLe(p + s, p + t) <==> LexLe(s, t)
  {
    if p != [] {
      assert (p + s)[1..] == p[1..] + s && (p + t)[1..] == p[1..] + t;
      LexLeCommonPrefix(p[1..], s, t);
    } else {
      assert p + s == s && p + t == t;
    }
  }

  lemma MonthDayPartOrder(m1: nat, d1: nat, m2: nat, d2: nat)
    requires m1 < 100 && d1 < 100 && m2 < 100 && d2 < 100
    ensures LexLe(MonthDayPart(m1, d1), MonthDayPart(m2, d2)) <==> m1 < m2 || (m1 == m2 && d1 <= d2)
  {
    var p1, p2, q1, q2 := Pad2(m1), Pad2(m2), Pad2(d1), Pad2(d2);
    assert MonthDayPart(m1, d1) == "-" + (p1 + ("-" + q1));
    assert MonthDayPart(m2, d2) == "-" + (p2 + ("-" + q2));
    LexLeCommonPrefix("-", p1 + ("-" + q1), p2 + ("-" + q2));
    TwoDigitOrder(m1, m2, "-" + q1, "-" + q2);
    LexLeCommonPrefix("-", q1, q2);
    assert q1 == q1 + "" && q2 == q2 + "";
    TwoDigitOrder(d1, d2, "", "");
  }

  /**
   * Within a year, comparing date keys as strings is comparing the dates:
   * the zero padding makes the string order chronological.
   */
  lemma KeyOrderIsChronological(ano: int, m1: nat, d1: nat, m2: nat, d2: nat)
    requires m1 < 100 && d1 < 100 && m2 < 100 && d2 < 100
    ensures LexLe(DateKey(ano, m1, d1), DateKey(ano, m2, d2)) <==> m1 < m2 || (m1 == m2 && d1 <= d2)
  {
    LexLeCommonPrefix(IntToString(ano), MonthDayPart(m1, d1), MonthDayPart(m2, d2));
    MonthDayPartOrder(m1, d1, m2, d2);
  }

  /** `const [ano, mes, dia] = dataStr.split("-")` relabelled as `${dia}/${mes}/${ano}`. */
  function FormatLabel(dataStr: string): string
  {
    var parts := Split(dataStr, '-');
    Field(parts, 2) + "/" + Field(parts, 1) + "/" + Field(parts, 0)
  }

  /** `data.split("-")[2]`: the day shown in the year and semester listings. */
  function DayField(dataStr: string): string
  {
    Field(Split(dataStr, '-'), 2)
  }

  /** Relabelling `y-m-d` made of dash-free pieces gives `d/m/y`, and its third field is `d`. */
  lemma LabelOfPieces(y: string, m: string, d: string)
    requires '-' !in y && '-' !in m && '-' !in d
    ensures FormatLabel(y + ("-" + m + "-" + d)) == d + "/" + m + "/" + y
    ensures DayField(y + ("-" + m + "-" + d)) == d
  {
    assert y + ("-" + m + "-" + d) == y + ['-'] + m + ['-'] + d;
    SplitThree(y, m, d, '-');
  }

  /** A key of a non-negative year is relabelled `DD/MM/YYYY`, and its third field is the padded day. */
  lemma FormatLabelOfKey(ano: nat, mes: nat, dia: nat)
    ensures FormatLabel(DateKey(ano, mes, dia)) == Pad2(dia) + "/" + Pad2(mes) + "/" + NatToString(ano)
    ensures DayField(DateKey(ano, mes, dia)) == Pad2(dia)
  {
    var y, m, d := NatToString(ano), Pad2(mes), Pad2(dia);
    NatToStringShape(ano);
    Pad2Digits(mes);
    Pad2Digits(dia);
    assert '-' !in y by { assert AllDigits(y); }
    assert '-' !in m by { assert AllDigits(m); }
    assert '-' !in d by { assert AllDigits(d); }
    LabelOfPieces(y, m, d);
  }
}
