/**
 * Binding entries to days and months. Every view works on the combined
 * list `[...eventosGlobal, ...feriados]`: a day takes the entries whose key
 * equals the day's key, a month takes the entries whose key starts with
 * `${ano}-${pad2(mes + 1)}` and sorts them by key with a stable sort.
 */
module Binding {
  import opened Text
  import opened Events

  /** `todosEventos`: company events first, then the holidays. */
  function AllEvents(eventos: seq<Event>, feriados: seq<Event>): seq<Event>
  {
    eventos + feriados
  }

  /** `Array.prototype.filter`: the entries that pass `keep`, in their order. */
  function Filter(s: seq<Event>, keep: Event -> bool): (r: seq<Event>)
  {
    if s == [] then []
    else (if keep(s[0]) then [s[0]] else []) + Filter(s[1..], keep)
  }

  /** A filtered list is no longer than the original and holds only entries that pass. */
  lemma {:induction false} FilterKeeps(s: seq<Event>, keep: Event -> bool)
    ensures |Filter(s, keep)| <= |s|
    ensures forall i :: 0 <= i < |Filter(s, keep)| ==> keep(Filter(s, keep)[i])
  {
    if s != [] {
      FilterKeeps(s[1..], keep);
      var head := if keep(s[0]) then [s[0]] else [];
      assert Filter(s, keep) == head + Filter(s[1..], keep);
    }
  }

  /** `a` keeps the order of `b` and leaves some of its elements out. */
  predicate IsSubsequence(a: seq<Event>, b: seq<Event>)
  {
    if a == [] then true
    else if b == [] then false
    else if a[0] == b[0] then IsSubsequence(a[1..], b[1..])
    else IsSubsequence(a, b[1..])
  }

  lemma {:induction false} FilterAppend(a: seq<Event>, b: seq<Event>, keep: Event -> bool)
    ensures Filter(a + b, keep) == Filter(a, keep) + Filter(b, keep)
  {
    if a == [] {
      assert a + b == b;
    } else {
      var head := if keep(a[0]) then [a[0]] else [];
      assert (a + b)[0] == a[0] && (a + b)[1..] == a[1..] + b;
      FilterAppend(a[1..], b, keep);
      calc {
        Filter(a + b, keep);
        head + Filter(a[1..] + b, keep);
        head + (Filter(a[1..], keep) + Filter(b, keep));
        (head + Filter(a[1..], keep)) + Filter(b, keep);
      }
    }
  }

  /** Filtering keeps every passing entry as often as it occurs (no de-duplication) and drops the rest. */
  lemma {:induction false} FilterCounts(s: seq<Event>, keep: Event -> bool, e: Event)
    ensures multiset(Filter(s, keep))[e] == if keep(e) then multiset(s)[e] else 0
  {
    if s != [] {
      FilterCounts(s[1..], keep, e);
      assert s == [s[0]] + s[1..];
    }
  }

  lemma {:induction false} FilterIsSubsequence(s: seq<Event>, keep: Event -> bool)
    ensures IsSubsequence(Filter(s, keep), s)
  {
    if s != [] {
      FilterIsSubsequence(s[1..], keep);
      var rest := Filter(s[1..], keep);
      if keep(s[0]) {
        assert Filter(s, keep) == [s[0]] + rest;
        assert Filter(s, keep)[1..] == rest;
      } else {
        assert Filter(s, keep) == rest;
        FilterKeeps(s[1..], keep);
        assert rest != [] ==> keep(rest[0]) && rest[0] != s[0];
      }
    }
  }

  /** Filtering by a test that implies an earlier one is the same as filtering once. */
  lemma {:induction false} FilterNarrow(s: seq<Event>, wide: Event -> bool, narrow: Event -> bool)
    requires forall e :: narrow(e) ==> wide(e)
    ensures Filter(Filter(s, wide), narrow) == Filter(s, narrow)
  {
    if s != [] {
      FilterNarrow(s[1..], wide, narrow);
      if wide(s[0]) {
        assert Filter(s, wide) == [s[0]] + Filter(s[1..], wide);
        assert Filter(s, wide)[1..] == Filter(s[1..], wide);
      } else {
        assert Filter(s, wide) == Filter(s[1..], wide);
        assert Filter(s, narrow) == Filter(s[1..], narrow);
      }
    }
  }

  // ---------------------------------------------------------------------
  // Day binding

  function SameDay(key: string): Event -> bool
  {
    (e: Event) => e.data == key
  }

  /** `todosEventos.filter(e => e.data === dataStr)`. */
  function EventsOn(all: seq<Event>, key: string): seq<Event>
  {
    Filter(all, SameDay(key))
  }

  /**
   * The events of a day are exactly the entries with that key, each as
   * often as it occurs, in their order, the company's before the holidays.
   */
  lemma EventsOnSpec(eventos: seq<Event>, feriados: seq<Event>, key: string)
    ensures EventsOn(AllEvents(eventos, feriados), key) == EventsOn(eventos, key) + EventsOn(feriados, key)
    ensures forall e :: multiset(EventsOn(AllEvents(eventos, feriados), key))[e] ==
                        if e.data == key then multiset(eventos)[e] + multiset(feriados)[e] else 0
    ensures IsSubsequence(EventsOn(AllEvents(eventos, feriados), key), AllEvents(eventos, feriados))
  {
    FilterAppend(eventos, feriados, SameDay(key));
    forall e {
      FilterCounts(AllEvents(eventos, feriados), SameDay(key), e);
    }
    FilterIsSubsequence(AllEvents(eventos, feriados), SameDay(key));
  }

  /** A list in which no entry has key `key` binds nothing to it. */
  lemma {:induction false} NoneWithKey(s: seq<Event>, key: string)
    requires forall k :: 0 <= k < |s| ==> s[k].data != key
    ensures EventsOn(s, key) == []
  {
    if s != [] { NoneWithKey(s[1..], key); }
  }

  // ---------------------------------------------------------------------
  // Month binding: filter by prefix, then a stable sort by key

  function InMonth(ano: int, mes0: nat): Event -> bool
  {
    (e: Event) => StartsWith(e.data, MonthPrefix(ano, mes0 + 1))
  }

  predicate SortedByDate(s: seq<Event>)
  {
    forall i, j :: 0 <= i < j < |s| ==> LexLe(s[i].data, s[j].data)
  }

  /** Places `x` before the first entry whose key is not below its own. */
  function Insert(x: Event, s: seq<Event>): (r: seq<Event>)
    ensures |r| == |s| + 1
  {
    if s == [] || LexLe(x.data, s[0].data) then [x] + s
    else [s[0]] + Insert(x, s[1..])
  }

  /** `.sort((a, b) => a.data.localeCompare(b.data))`, stable as ES2019 requires. */
  function SortByDate(s: seq<Event>): (r: seq<Event>)
    ensures |r| == |s|
  {
    if s == [] then [] else Insert(s[0], SortByDate(s[1..]))
  }

  /** Every key in `s` is at or after `k`. */
  predicate AllFrom(k: string, s: seq<Event>)
  {
    forall i :: 0 <= i < |s| ==> LexLe(k, s[i].data)
  }

  /** A sorted list stays sorted with an entry in front whose key is at or before all of its keys. */
  lemma ConsSorted(x: Event, s: seq<Event>)
    requires SortedByDate(s) && AllFrom(x.data, s)
    ensures SortedByDate([x] + s)
  {
    var r := [x] + s;
    forall i, j | 0 <= i < j < |r| ensures LexLe(r[i].data, r[j].data) {
      if i == 0 { assert r[j] == s[j - 1]; } else { assert r[i] == s[i - 1] && r[j] == s[j - 1]; }
    }
  }

  /** `AllFrom` depends only on which entries occur. */
  lemma AllFromPermutation(k: string, s: seq<Event>, t: seq<Event>)
    requires multiset(s) == multiset(t) && AllFrom(k, t)
    ensures AllFrom(k, s)
  {
    forall i | 0 <= i < |s| ensures LexLe(k, s[i].data) {
      assert s[i] in multiset(t);
      var j :| 0 <= j < |t| && t[j] == s[i];
    }
  }

  lemma {:induction false} InsertSorted(x: Event, s: seq<Event>)
    requires SortedByDate(s)
    ensures SortedByDate(Insert(x, s))
    ensures multiset(Insert(x, s)) == multiset(s) + multiset{x}
  {
    if s == [] || LexLe(x.data, s[0].data) {
      forall j | 0 <= j < |s| ensures LexLe(x.data, s[j].data) {
        if j > 0 { LexLeTransitive(x.data, s[0].data, s[j].data); }
      }
      ConsSorted(x, s);
    } else {
      var t := Insert(x, s[1..]);
      InsertSorted(x, s[1..]);
      LexLeTotal(x.data, s[0].data);
      assert AllFrom(s[0].data, s[1..] + [x]);
      assert multiset(t) == multiset(s[1..] + [x]);
      AllFromPermutation(s[0].data, t, s[1..] + [x]);
      ConsSorted(s[0], t);
      assert s == [s[0]] + s[1..];
    }
  }

  /** Inserting never reorders entries of one key: `x` goes before the equal keys that follow it. */
  lemma {:induction false} InsertStable(x: Event, s: seq<Event>, key: string)
    ensures EventsOn(Insert(x, s), key) == EventsOn([x], key) + EventsOn(s, key)
  {
    var f := SameDay(key);
    if s == [] || LexLe(x.data, s[0].data) {
      FilterAppend([x], s, f);
    } else {
      LexLeReflexive(x.data);
      var a, b, rest := EventsOn([s[0]], key), EventsOn([x], key), EventsOn(s[1..], key);
      FilterKeeps([s[0]], f);
      FilterKeeps([x], f);
      assert a == [] || b == [];
      calc {
        EventsOn(Insert(x, s), key);
        { FilterAppend([s[0]], Insert(x, s[1..]), f); }
        a + EventsOn(Insert(x, s[1..]), key);
        { InsertStable(x, s[1..], key); }
        a + (b + rest);
        b + (a + rest);
        { FilterAppend([s[0]], s[1..], f); assert [s[0]] + s[1..] == s; }
        b + EventsOn(s, key);
      }
    }
  }

  /** The sort orders by key and keeps every entry as often as it occurs. */
  lemma {:induction false} SortByDateOrders(s: seq<Event>)
    ensures SortedByDate(SortByDate(s))
    ensures multiset(SortByDate(s)) == multiset(s)
  {
    if s != [] {
      SortByDateOrders(s[1..]);
      InsertSorted(s[0], SortByDate(s[1..]));
      assert s == [s[0]] + s[1..];
    }
  }

  /** The sort keeps entries of one key in their original relative order. */
  lemma {:induction false} SortByDateStable(s: seq<Event>, key: string)
    ensures EventsOn(SortByDate(s), key) == EventsOn(s, key)
  {
    if s != [] {
      SortByDateStable(s[1..], key);
      InsertStable(s[0], SortByDate(s[1..]), key);
      FilterAppend([s[0]], s[1..], SameDay(key));
      assert s == [s[0]] + s[1..];
    }
  }

  /** `eventosMes` for the 0-based month `mes0` of year `ano`. */
  function MonthEvents(all: seq<Event>, ano: int, mes0: nat): seq<Event>
  {
    SortByDate(Filter(all, InMonth(ano, mes0)))
  }

  /**
   * A month's listing holds exactly the entries whose key starts with the
   * month's prefix, as often as they occur, sorted by key, with entries of
   * one date in their original order.
   */
  lemma MonthEventsSpec(all: seq<Event>, ano: int, mes0: nat)
    ensures SortedByDate(MonthEvents(all, ano, mes0))
    ensures forall e :: multiset(MonthEvents(all, ano, mes0))[e] ==
                        if StartsWith(e.data, MonthPrefix(ano, mes0 + 1)) then multiset(all)[e] else 0
    ensures forall key :: EventsOn(MonthEvents(all, ano, mes0), key) == EventsOn(Filter(all, InMonth(ano, mes0)), key)
  {
    var inMonth := Filter(all, InMonth(ano, mes0));
    SortByDateOrders(inMonth);
    forall key ensures EventsOn(SortByDate(inMonth), key) == EventsOn(inMonth, key) {
      SortByDateStable(inMonth, key);
    }
    forall e {
      MonthEventsCount(all, ano, mes0, e);
    }
  }

  /** How often an entry occurs in a month's listing. */
  lemma MonthEventsCount(all: seq<Event>, ano: int, mes0: nat, e: Event)
    ensures multiset(MonthEvents(all, ano, mes0))[e] ==
            if StartsWith(e.data, MonthPrefix(ano, mes0 + 1)) then multiset(all)[e] else 0
  {
    SortByDateOrders(Filter(all, InMonth(ano, mes0)));
    FilterCounts(all, InMonth(ano, mes0), e);
  }

  /** A day's events appear in its month's listing exactly as the day view lists them. */
  lemma DayWithinMonth(all: seq<Event>, ano: int, mes0: nat, dia: nat)
    requires mes0 < 12 && dia < 100
    ensures EventsOn(MonthEvents(all, ano, mes0), DateKey(ano, mes0 + 1, dia)) == EventsOn(all, DateKey(ano, mes0 + 1, dia))
  {
    var key := DateKey(ano, mes0 + 1, dia);
    MonthEventsSpec(all, ano, mes0);
    forall e | SameDay(key)(e) ensures InMonth(ano, mes0)(e) {
      DateKeyParts(ano, mes0 + 1, dia);
    }
    FilterNarrow(all, InMonth(ano, mes0), SameDay(key));
  }

  /** The year view: one listing per month, January first. */
  function YearListing(all: seq<Event>, ano: int): (r: seq<seq<Event>>)
    ensures |r| == 12
  {
    seq(12, m requires 0 <= m < 12 => MonthEvents(all, ano, m))
  }

  /** First and last 0-based month of a semester (`inicio`, `fim`). */
  function SemesterBounds(semestre: int): (r: (nat, nat))
    ensures r.1 - r.0 == 5 && r.1 < 12
    ensures r.0 == 0 <==> semestre == 1
    ensures semestre != 1 ==> r == (6, 11)
  {
    if semestre == 1 then (0, 5) else (6, 11)
  }

  /** The semester view: the listings of months `inicio..fim`. */
  function SemesterListing(all: seq<Event>, ano: int, semestre: int): (r: seq<seq<Event>>)
    ensures |r| == 6
  {
    var b := SemesterBounds(semestre);
    seq(b.1 - b.0 + 1, i requires 0 <= i <= b.1 - b.0 => MonthEvents(all, ano, b.0 + i))
  }

  /** The two semesters together are the year view, first semester first. */
  lemma SemestersMakeTheYear(all: seq<Event>, ano: int)
    ensures SemesterListing(all, ano, 1) + SemesterListing(all, ano, 2) == YearListing(all, ano)
  {
  }

  /**
   * An entry dated in a month of the year is listed under that month and
   * under no other month of the year view.
   */
  lemma ListedUnderItsMonth(all: seq<Event>, e: Event, ano: int, mes: nat, dia: nat, m0: nat)
    requires 1 <= mes <= 12 && dia < 100 && m0 < 12
    requires e.data == DateKey(ano, mes, dia)
    ensures e in YearListing(all, ano)[m0] <==> e in all && m0 == mes - 1
  {
    var listed := MonthEvents(all, ano, m0);
    assert YearListing(all, ano)[m0] == listed;
    MonthEventsCount(all, ano, m0, e);
    MonthPrefixIff(ano, mes, dia, ano, m0 + 1);
    assert multiset(listed)[e] == if m0 == mes - 1 then multiset(all)[e] else 0;
    assert e in listed <==> multiset(listed)[e] > 0;
  }

  // ---------------------------------------------------------------------
  // Per-cell indicator

  /** What a day cell shows: nothing, one bar, or a row of dots. */
  datatype Indicator = NoEvents | Bar(cor: string) | Dots(cores: seq<string>)

  function Min(a: int, b: int): int { if a < b then a else b }

  /**
   * The indicator of a cell with events `evs`: marked iff there is one,
   * a bar in the colour of a single event, otherwise `min(n, 4)` dots in
   * the colours of the first events.
   */
  function IndicatorFor(evs: seq<Event>): (r: Indicator)
  {
    if |evs| == 0 then NoEvents
    else if |evs| == 1 then Bar(evs[0].cor)
    else Dots(seq(Min(|evs|, 4), i requires 0 <= i < Min(|evs|, 4) => evs[i].cor))
  }

  /**
   * A cell is marked exactly when it has events; one event gives a bar in
   * its colour, more give up to four dots in the colours of the first ones.
   */
  lemma IndicatorForSpec(evs: seq<Event>)
    ensures IndicatorFor(evs).NoEvents? <==> |evs| == 0
    ensures IndicatorFor(evs).Bar? <==> |evs| == 1
    ensures IndicatorFor(evs).Bar? ==> IndicatorFor(evs).cor == evs[0].cor
    ensures IndicatorFor(evs).Dots? ==>
      && |IndicatorFor(evs).cores| == Min(|evs|, 4) >= 2
      && forall i :: 0 <= i < |IndicatorFor(evs).cores| ==> IndicatorFor(evs).cores[i] == evs[i].cor
  {
  }

  // ---------------------------------------------------------------------
  // Details panel and day view

  /** The details panel after a click: the `DD/MM/YYYY` label and the day's events (none: the "no events" message). */
  datatype Details = Details(heading: string, events: seq<Event>)

  /** `mostrarEventosDoDia(dataStr)`. */
  function DayDetails(eventos: seq<Event>, feriados: seq<Event>, dataStr: string): Details
  {
    Details(FormatLabel(dataStr), EventsOn(AllEvents(eventos, feriados), dataStr))
  }

  /**
   * Clicking the cell of a day: the events are the company's then the
   * holidays bound to the key, and the "no events" message shows exactly
   * when no entry carries the key; for a non-negative year the heading is
   * the key relabelled `DD/MM/YYYY`.
   */
  lemma DayDetailsOfKey(eventos: seq<Event>, feriados: seq<Event>, ano: int, mes: nat, dia: nat)
    ensures var key := DateKey(ano, mes, dia);
      var d := DayDetails(eventos, feriados, key);
      && (ano >= 0 ==> d.heading == Pad2(dia) + "/" + Pad2(mes) + "/" + IntToString(ano))
      && d.events == EventsOn(eventos, key) + EventsOn(feriados, key)
      && (d.events == [] <==> forall k :: 0 <= k < |eventos + feriados| ==> (eventos + feriados)[k].data != key)
  {
    var key := DateKey(ano, mes, dia);
    var all := AllEvents(eventos, feriados);
    if ano >= 0 {
      FormatLabelOfKey(ano, mes, dia);
    }
    FilterAppend(eventos, feriados, SameDay(key));
    if forall k :: 0 <= k < |all| ==> all[k].data != key {
      NoneWithKey(all, key);
    } else {
      var k :| 0 <= k < |all| && all[k].data == key;
      FilterCounts(all, SameDay(key), all[k]);
      assert all[k] in multiset(all);
    }
  }

  /** `renderizarDia`: the picker's date, or today's when the picker is empty. */
  function DayViewDate(picker: string, today: string): (d: string)
    ensures picker != "" ==> d == picker
  {
    if picker == "" then today else picker
  }
}
