/**
 * The colour legend: one line per colour, titled by the first company event
 * drawn in that colour, plus the holiday colour whenever holidays exist.
 * The legend is a JavaScript `Map`, which keeps its keys in insertion order
 * and replaces the value of an existing key in place; it is modelled as a
 * list of entries with pairwise different colours.
 */
module Legend {
  import opened Events

  datatype Entry = Entry(cor: string, titulo: string)

  /** The title the holiday colour is given. */
  const HolidayTitle: string := "Feriado nacional"

  predicate DistinctKeys(m: seq<Entry>)
  {
    forall i, j :: 0 <= i < j < |m| ==> m[i].cor != m[j].cor
  }

  /** `mapa.get(k)`: the value of the first entry with key `k`. */
  function Lookup(m: seq<Entry>, k: string): (r: Option<string>)
    ensures r.None? <==> forall i :: 0 <= i < |m| ==> m[i].cor != k
    ensures r.Some? ==> exists i :: 0 <= i < |m| && m[i] == Entry(k, r.value)
  {
    if m == [] then None
    else if m[0].cor == k then Some(m[0].titulo)
    else Lookup(m[1..], k)
  }

  /** Position of key `k` among the entries. */
  function KeyIndex(m: seq<Entry>, k: string): (r: nat)
    requires Lookup(m, k).Some?
    ensures r < |m| && m[r] == Entry(k, Lookup(m, k).value)
    ensures forall j :: 0 <= j < r ==> m[j].cor != k
  {
    if m[0].cor == k then 0 else 1 + KeyIndex(m[1..], k)
  }

  /**
   * `mapa.set(k, v)`: an existing key keeps its place and takes the new
   * value; a new key goes at the end.
   */
  function Set(m: seq<Entry>, k: string, v: string): seq<Entry>
  {
    if m == [] then [Entry(k, v)]
    else if m[0].cor == k then [Entry(k, v)] + m[1..]
    else [m[0]] + Set(m[1..], k, v)
  }

  /**
   * A new key is appended; an existing key keeps its place; every key stays
   * where it was, and entries of other keys are untouched.
   */
  lemma {:induction false} SetPlaces(m: seq<Entry>, k: string, v: string)
    ensures Lookup(m, k).None? ==> Set(m, k, v) == m + [Entry(k, v)]
    ensures Lookup(m, k).Some? ==> |Set(m, k, v)| == |m|
    ensures |Set(m, k, v)| >= |m|
    ensures forall i :: 0 <= i < |m| ==> Set(m, k, v)[i].cor == m[i].cor
    ensures forall i :: 0 <= i < |m| && m[i].cor != k ==> Set(m, k, v)[i] == m[i]
  {
    if m != [] && m[0].cor != k {
      SetPlaces(m[1..], k, v);
      var r := Set(m, k, v);
      assert r == [m[0]] + Set(m[1..], k, v);
      forall i | 0 <= i < |m| ensures r[i].cor == m[i].cor && (m[i].cor != k ==> r[i] == m[i]) {
        if i > 0 { assert r[i] == Set(m[1..], k, v)[i - 1] && m[i] == m[1..][i - 1]; }
      }
      if Lookup(m, k).None? {
        assert m == [m[0]] + m[1..];
      }
    }
  }

  /** After `set(k, v)`, the key maps to the new value. */
  lemma {:induction false} SetFinds(m: seq<Entry>, k: string, v: string)
    ensures Lookup(Set(m, k, v), k) == Some(v)
  {
    if m != [] && m[0].cor != k {
      SetFinds(m[1..], k, v);
      assert Set(m, k, v) == [m[0]] + Set(m[1..], k, v);
      assert Set(m, k, v)[1..] == Set(m[1..], k, v);
    }
  }

  /** Setting a key leaves every other key's value alone. */
  lemma SetOthers(m: seq<Entry>, k: string, v: string, c: string)
    requires c != k
    ensures Lookup(Set(m, k, v), c) == Lookup(m, c)
  {
    SetPlaces(m, k, v);
    var r := Set(m, k, v);
    if Lookup(m, c).Some? {
      var p := KeyIndex(m, c);
      assert r[p] == m[p];
      KeyIndexIs(r, c, p);
    } else {
      forall i | 0 <= i < |r| ensures r[i].cor != c {
        if i >= |m| {
          if Lookup(m, k).Some? { assert false; }
          assert r[i] == Entry(k, v);
        }
      }
    }
  }

  /** An entry preceded by no entry of its key is where `Lookup` and `KeyIndex` find it. */
  lemma KeyIndexIs(m: seq<Entry>, k: string, p: nat)
    requires p < |m| && m[p].cor == k
    requires forall j :: 0 <= j < p ==> m[j].cor != k
    ensures Lookup(m, k) == Some(m[p].titulo)
    ensures KeyIndex(m, k) == p
  {
    assert Lookup(m, k).Some?;
    var q := KeyIndex(m, k);
    assert !(q < p) && !(p < q);
  }

  /** Setting a key moves no key. */
  lemma SetKeepsPlaces(m: seq<Entry>, k: string, v: string, c: string)
    requires Lookup(m, c).Some?
    ensures Lookup(Set(m, k, v), c).Some?
    ensures KeyIndex(Set(m, k, v), c) == KeyIndex(m, c)
  {
    SetPlaces(m, k, v);
    var p := KeyIndex(m, c);
    KeyIndexIs(Set(m, k, v), c, p);
  }

  /** Appending an entry with a new key changes no existing key's value or place. */
  lemma AppendNew(m: seq<Entry>, e: Entry, c: string)
    requires Lookup(m, c).Some?
    ensures Lookup(m + [e], c) == Lookup(m, c)
    ensures KeyIndex(m + [e], c) == KeyIndex(m, c)
  {
    var p := KeyIndex(m, c);
    KeyIndexIs(m + [e], c, p);
  }

  /**
   * The loop `eventosGlobal.forEach(e => { if (!mapa.has(e.cor)) mapa.set(e.cor, e.titulo) })`
   * over the first `|eventos|` events, as a value.
   */
  function FirstSeen(eventos: seq<Event>): seq<Entry>
  {
    if eventos == [] then []
    else
      var m := FirstSeen(eventos[..|eventos| - 1]);
      var e := eventos[|eventos| - 1];
      if Lookup(m, e.cor).Some? then m else m + [Entry(e.cor, e.titulo)]
  }

  /** The legend `renderizarLegenda` draws, entries in display order. */
  function LegendOf(eventos: seq<Event>, feriados: seq<Event>): seq<Entry>
  {
    var m := FirstSeen(eventos);
    if |feriados| > 0 then Set(m, HolidayColor, HolidayTitle) else m
  }

  /** Event `i` is the first in the list drawn in its colour. */
  predicate FirstOfColour(eventos: seq<Event>, i: int)
  {
    0 <= i < |eventos| && forall j :: 0 <= j < i ==> eventos[j].cor != eventos[i].cor
  }

  /** `renderizarLegenda`'s map, built by its loop. */
  method BuildLegend(eventos: seq<Event>, feriados: seq<Event>) returns (mapa: seq<Entry>)
    ensures mapa == LegendOf(eventos, feriados)
  {
    mapa := [];
    for i := 0 to |eventos|
      invariant mapa == FirstSeen(eventos[..i])
    {
      var e := eventos[i];
      assert eventos[..i + 1][..i] == eventos[..i];
      if Lookup(mapa, e.cor).None? {
        SetPlaces(mapa, e.cor, e.titulo);
        mapa := Set(mapa, e.cor, e.titulo);
      }
    }
    assert eventos[..|eventos|] == eventos;
    if |feriados| > 0 {
      mapa := Set(mapa, HolidayColor, HolidayTitle);
    }
  }

  /**
   * Before the holiday entry, the map has one entry per colour used by an
   * event, and no other.
   */
  lemma {:induction false} FirstSeenKeys(eventos: seq<Event>)
    ensures DistinctKeys(FirstSeen(eventos))
    ensures forall c :: Lookup(FirstSeen(eventos), c).Some? <==> exists i :: 0 <= i < |eventos| && eventos[i].cor == c
  {
    if eventos != [] {
      var s := eventos[..|eventos| - 1];
      FirstSeenKeys(s);
      forall c ensures Lookup(FirstSeen(eventos), c).Some? <==> exists i :: 0 <= i < |eventos| && eventos[i].cor == c {
        FirstSeenKeyStep(eventos, c);
      }
      FirstSeenDistinctStep(eventos);
    }
  }

  /** One more event adds its colour to the colours in the map, and no other. */
  lemma FirstSeenKeyStep(eventos: seq<Event>, c: string)
    requires eventos != []
    requires var s := eventos[..|eventos| - 1];
      Lookup(FirstSeen(s), c).Some? <==> exists i :: 0 <= i < |s| && s[i].cor == c
    ensures Lookup(FirstSeen(eventos), c).Some? <==> exists i :: 0 <= i < |eventos| && eventos[i].cor == c
  {
    var n := |eventos|;
    var m, e := FirstSeen(eventos[..n - 1]), eventos[n - 1];
    if c == e.cor {
      assert eventos[n - 1].cor == c;
      if Lookup(m, c).None? { KeyIndexIs(m + [Entry(c, e.titulo)], c, |m|); }
    } else {
      if Lookup(m, e.cor).None? {
        SetPlaces(m, e.cor, e.titulo);
        SetOthers(m, e.cor, e.titulo, c);
      }
      UsedBeforeLast(eventos, c);
    }
  }

  /** A colour other than the last event's is used in the list exactly when it is used before the last event. */
  lemma UsedBeforeLast(eventos: seq<Event>, c: string)
    requires eventos != [] && eventos[|eventos| - 1].cor != c
    ensures var s := eventos[..|eventos| - 1];
      (exists i :: 0 <= i < |eventos| && eventos[i].cor == c) <==> (exists i :: 0 <= i < |s| && s[i].cor == c)
  {
    var s := eventos[..|eventos| - 1];
    if exists i :: 0 <= i < |eventos| && eventos[i].cor == c {
      var i :| 0 <= i < |eventos| && eventos[i].cor == c;
      assert s[i].cor == c;
    }
    if exists i :: 0 <= i < |s| && s[i].cor == c {
      var i :| 0 <= i < |s| && s[i].cor == c;
      assert eventos[i].cor == c;
    }
  }

  /** One more event keeps the colours of the map pairwise different. */
  lemma FirstSeenDistinctStep(eventos: seq<Event>)
    requires eventos != [] && DistinctKeys(FirstSeen(eventos[..|eventos| - 1]))
    ensures DistinctKeys(FirstSeen(eventos))
  {
    var m, e := FirstSeen(eventos[..|eventos| - 1]), eventos[|eventos| - 1];
    if Lookup(m, e.cor).None? {
      var r := m + [Entry(e.cor, e.titulo)];
      forall i, j | 0 <= i < j < |r| ensures r[i].cor != r[j].cor {
        if j == |m| { assert r[i] == m[i]; }
      }
    }
  }

  /** The title of a colour is the title of the first event drawn in it. */
  lemma {:induction false} FirstSeenTitle(eventos: seq<Event>, i: int)
    requires FirstOfColour(eventos, i)
    ensures Lookup(FirstSeen(eventos), eventos[i].cor) == Some(eventos[i].titulo)
  {
    var n := |eventos|;
    var s, e := eventos[..n - 1], eventos[n - 1];
    var m := FirstSeen(s);
    var c := eventos[i].cor;
    if i == n - 1 {
      FirstSeenKeys(s);
      assert forall j :: 0 <= j < n - 1 ==> s[j].cor != c;
      assert Lookup(m, c).None?;
      assert FirstSeen(eventos) == m + [Entry(c, e.titulo)];
      KeyIndexIs(m + [Entry(c, e.titulo)], c, |m|);
    } else {
      assert FirstOfColour(s, i);
      FirstSeenTitle(s, i);
      if Lookup(m, e.cor).None? { AppendNew(m, Entry(e.cor, e.titulo), c); }
    }
  }

  /** Colours are listed in the order their first events appear. */
  lemma {:induction false} FirstSeenOrder(eventos: seq<Event>, i: int, j: int)
    requires i < j && FirstOfColour(eventos, i) && FirstOfColour(eventos, j)
    ensures Lookup(FirstSeen(eventos), eventos[i].cor).Some? && Lookup(FirstSeen(eventos), eventos[j].cor).Some?
    ensures KeyIndex(FirstSeen(eventos), eventos[i].cor) < KeyIndex(FirstSeen(eventos), eventos[j].cor)
  {
    var n := |eventos|;
    var s := eventos[..n - 1];
    assert FirstOfColour(s, i) && s[i] == eventos[i];
    if j == n - 1 {
      NewColourAfter(eventos, i);
    } else {
      assert FirstOfColour(s, j) && s[j] == eventos[j];
      FirstSeenOrder(s, i, j);
      FirstSeenTitle(s, i);
      FirstSeenTitle(s, j);
      FirstSeenGrows(eventos, eventos[i].cor);
      FirstSeenGrows(eventos, eventos[j].cor);
    }
  }

  /** A colour seen before the last event is listed before the last event's new colour. */
  lemma NewColourAfter(eventos: seq<Event>, i: int)
    requires FirstOfColour(eventos, |eventos| - 1) && i < |eventos| - 1
    requires FirstOfColour(eventos[..|eventos| - 1], i)
    ensures Lookup(FirstSeen(eventos), eventos[i].cor).Some? && Lookup(FirstSeen(eventos), eventos[|eventos| - 1].cor).Some?
    ensures KeyIndex(FirstSeen(eventos), eventos[i].cor) < KeyIndex(FirstSeen(eventos), eventos[|eventos| - 1].cor)
  {
    var n := |eventos|;
    var s, e := eventos[..n - 1], eventos[n - 1];
    var m := FirstSeen(s);
    assert s[i] == eventos[i];
    FirstSeenTitle(s, i);
    NewColourAppended(eventos);
    AppendNew(m, Entry(e.cor, e.titulo), eventos[i].cor);
  }

  /** The first event of a new colour appends its entry at the end of the map. */
  lemma NewColourAppended(eventos: seq<Event>)
    requires FirstOfColour(eventos, |eventos| - 1)
    ensures var s, e := eventos[..|eventos| - 1], eventos[|eventos| - 1];
      && FirstSeen(eventos) == FirstSeen(s) + [Entry(e.cor, e.titulo)]
      && Lookup(FirstSeen(eventos), e.cor) == Some(e.titulo)
      && KeyIndex(FirstSeen(eventos), e.cor) == |FirstSeen(s)|
  {
    var n := |eventos|;
    var s, e := eventos[..n - 1], eventos[n - 1];
    var m := FirstSeen(s);
    FirstSeenKeys(s);
    assert forall k :: 0 <= k < n - 1 ==> s[k].cor != e.cor;
    assert Lookup(m, e.cor).None?;
    KeyIndexIs(m + [Entry(e.cor, e.titulo)], e.cor, |m|);
  }

  /** A colour already in the map keeps its title and place when one more event is seen. */
  lemma FirstSeenGrows(eventos: seq<Event>, c: string)
    requires eventos != [] && Lookup(FirstSeen(eventos[..|eventos| - 1]), c).Some?
    ensures var m := FirstSeen(eventos[..|eventos| - 1]);
      && Lookup(FirstSeen(eventos), c) == Lookup(m, c)
      && KeyIndex(FirstSeen(eventos), c) == KeyIndex(m, c)
  {
    var m, e := FirstSeen(eventos[..|eventos| - 1]), eventos[|eventos| - 1];
    if Lookup(m, e.cor).None? {
      AppendNew(m, Entry(e.cor, e.titulo), c);
    }
  }

  /**
   * The legend names each colour once; its colours are exactly the event
   * colours, plus the holiday colour when there are holidays.
   */
  lemma LegendKeys(eventos: seq<Event>, feriados: seq<Event>, c: string)
    ensures DistinctKeys(LegendOf(eventos, feriados))
    ensures Lookup(LegendOf(eventos, feriados), c).Some? <==>
      (exists i :: 0 <= i < |eventos| && eventos[i].cor == c) || (|feriados| > 0 && c == HolidayColor)
  {
    FirstSeenKeys(eventos);
    var m := FirstSeen(eventos);
    if |feriados| > 0 {
      SetKeepsDistinct(m, HolidayColor, HolidayTitle);
      if c != HolidayColor {
        SetOthers(m, HolidayColor, HolidayTitle, c);
      } else {
        SetFinds(m, HolidayColor, HolidayTitle);
      }
    }
  }

  /** Setting a key keeps the keys pairwise different. */
  lemma SetKeepsDistinct(m: seq<Entry>, k: string, v: string)
    requires DistinctKeys(m)
    ensures DistinctKeys(Set(m, k, v))
  {
    SetPlaces(m, k, v);
    var r := Set(m, k, v);
    if Lookup(m, k).None? {
      forall i, j | 0 <= i < j < |r| ensures r[i].cor != r[j].cor {
        if j == |m| { assert r[i] == m[i]; }
      }
    }
  }

  /** With holidays, the holiday colour is titled "Feriado nacional", whatever event used it first. */
  lemma LegendHolidayEntry(eventos: seq<Event>, feriados: seq<Event>)
    requires |feriados| > 0
    ensures Lookup(LegendOf(eventos, feriados), HolidayColor) == Some(HolidayTitle)
    ensures (forall i :: 0 <= i < |eventos| ==> eventos[i].cor != HolidayColor) ==>
      KeyIndex(LegendOf(eventos, feriados), HolidayColor) == |LegendOf(eventos, feriados)| - 1
  {
    FirstSeenKeys(eventos);
    var m := FirstSeen(eventos);
    SetPlaces(m, HolidayColor, HolidayTitle);
    SetFinds(m, HolidayColor, HolidayTitle);
    if forall i :: 0 <= i < |eventos| ==> eventos[i].cor != HolidayColor {
      assert Lookup(m, HolidayColor).None?;
      KeyIndexIs(m + [Entry(HolidayColor, HolidayTitle)], HolidayColor, |m|);
    }
  }

  /** Any other colour is titled by the first event drawn in it. */
  lemma LegendTitle(eventos: seq<Event>, feriados: seq<Event>, i: int)
    requires FirstOfColour(eventos, i)
    requires |feriados| == 0 || eventos[i].cor != HolidayColor
    ensures Lookup(LegendOf(eventos, feriados), eventos[i].cor) == Some(eventos[i].titulo)
  {
    FirstSeenTitle(eventos, i);
    if |feriados| > 0 { SetOthers(FirstSeen(eventos), HolidayColor, HolidayTitle, eventos[i].cor); }
  }

  /**
   * Colours appear in the order of their first events; the holiday entry
   * keeps the place of an event colour it overrides.
   */
  lemma LegendOrder(eventos: seq<Event>, feriados: seq<Event>, i: int, j: int)
    requires i < j && FirstOfColour(eventos, i) && FirstOfColour(eventos, j)
    ensures Lookup(LegendOf(eventos, feriados), eventos[i].cor).Some?
    ensures Lookup(LegendOf(eventos, feriados), eventos[j].cor).Some?
    ensures KeyIndex(LegendOf(eventos, feriados), eventos[i].cor) < KeyIndex(LegendOf(eventos, feriados), eventos[j].cor)
  {
    FirstSeenOrder(eventos, i, j);
    if |feriados| > 0 {
      var m := FirstSeen(eventos);
      SetKeepsPlaces(m, HolidayColor, HolidayTitle, eventos[i].cor);
      SetKeepsPlaces(m, HolidayColor, HolidayTitle, eventos[j].cor);
    }
  }

  /** The "no events yet" message shows exactly when there are neither events nor holidays. */
  lemma LegendEmpty(eventos: seq<Event>, feriados: seq<Event>)
    ensures |LegendOf(eventos, feriados)| == 0 <==> |eventos| == 0 && |feriados| == 0
  {
    if |eventos| > 0 {
      FirstSeenKeys(eventos);
      assert Lookup(FirstSeen(eventos), eventos[0].cor).Some?;
    }
  }
}
