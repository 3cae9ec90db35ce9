/** What only the guided variant (`script.js`) does: it sorts every country's rows by year
    in place before drawing them, shows the start button once a country is checked, and
    walks the fixed indicator list as a tour that advances when the last line of a chart
    has finished drawing. */
module Script {
  import opened Seqs
  import opened Dataset
  import opened Pipeline

  // ---------------------------------------------------------------------------
  // values.sort((a, b) => new Date(a.Year) - new Date(b.Year))

  /** Rows in non-decreasing year order. */
  predicate SortedByYear(s: seq<Row>) {
    forall i, j :: 0 <= i < j < |s| ==> s[i].year <= s[j].year
  }

  /** The rows of one year, in their order. */
  function OfYear(s: seq<Row>, year: int): seq<Row> {
    Filter(s, (r: Row) => r.year == year)
  }

  /** Inserting `x` after every row whose year is not later than its own. */
  function InsertByYear(s: seq<Row>, x: Row): seq<Row>
    decreases |s|
  {
    if s == [] || s[|s| - 1].year <= x.year then s + [x]
    else InsertByYear(s[..|s| - 1], x) + [s[|s| - 1]]
  }

  /** The stable sort by year that `Array.prototype.sort` performs with this comparator:
      rows of the same year keep their relative order. */
  function YearSorted(s: seq<Row>): seq<Row>
    decreases |s|
  {
    if s == [] then [] else InsertByYear(YearSorted(s[..|s| - 1]), s[|s| - 1])
  }

  lemma {:induction false} InsertByYearPermutes(s: seq<Row>, x: Row)
    ensures multiset(InsertByYear(s, x)) == multiset(s) + multiset{x}
    decreases |s|
  {
    if s != [] && s[|s| - 1].year > x.year {
      var s', last := s[..|s| - 1], s[|s| - 1];
      assert s == s' + [last];
      InsertByYearPermutes(s', x);
    }
  }

  /** Inserting keeps every row at or below a bound that both the rows and `x` respect. */
  lemma {:induction false} InsertByYearBounded(s: seq<Row>, x: Row, bound: int)
    requires forall i :: 0 <= i < |s| ==> s[i].year <= bound
    requires x.year <= bound
    ensures forall i :: 0 <= i < |InsertByYear(s, x)| ==> InsertByYear(s, x)[i].year <= bound
    decreases |s|
  {
    if s != [] && s[|s| - 1].year > x.year {
      InsertByYearBounded(s[..|s| - 1], x, bound);
    }
  }

  lemma {:induction false} InsertByYearSorted(s: seq<Row>, x: Row)
    requires SortedByYear(s)
    ensures SortedByYear(InsertByYear(s, x))
    decreases |s|
  {
    if s != [] && s[|s| - 1].year > x.year {
      var s', last := s[..|s| - 1], s[|s| - 1];
      assert SortedByYear(s');
      InsertByYearSorted(s', x);
      InsertByYearBounded(s', x, last.year);
    }
  }

  lemma {:induction false} InsertByYearOfYear(s: seq<Row>, x: Row, year: int)
    ensures OfYear(InsertByYear(s, x), year) == OfYear(s, year) + (if x.year == year then [x] else [])
    decreases |s|
  {
    if s == [] || s[|s| - 1].year <= x.year {
      assert (s + [x])[..|s|] == s;
    } else {
      var s', last := s[..|s| - 1], s[|s| - 1];
      var t := InsertByYear(s', x);
      InsertByYearOfYear(s', x, year);
      assert (t + [last])[..|t|] == t;
    }
  }

  /** The sorted rows are in year order and are a permutation of the input. */
  lemma {:induction false} YearSortedSortsAndPermutes(s: seq<Row>)
    ensures SortedByYear(YearSorted(s))
    ensures multiset(YearSorted(s)) == multiset(s)
    ensures |YearSorted(s)| == |s|
    decreases |s|
  {
    if s != [] {
      var s', last := s[..|s| - 1], s[|s| - 1];
      assert s == s' + [last];
      YearSortedSortsAndPermutes(s');
      InsertByYearSorted(YearSorted(s'), last);
      InsertByYearPermutes(YearSorted(s'), last);
    }
    assert |YearSorted(s)| == |multiset(YearSorted(s))|;
  }

  /** The sort is stable: the rows of any one year appear in the same order as before. */
  lemma {:induction false} YearSortedIsStable(s: seq<Row>, year: int)
    ensures OfYear(YearSorted(s), year) == OfYear(s, year)
    decreases |s|
  {
    if s != [] {
      var s', last := s[..|s| - 1], s[|s| - 1];
      YearSortedIsStable(s', year);
      InsertByYearOfYear(YearSorted(s'), last, year);
    }
  }

  /** Rows already in year order are left as they are; hence sorting twice is sorting once. */
  lemma {:induction false} YearSortedOfSorted(s: seq<Row>)
    requires SortedByYear(s)
    ensures YearSorted(s) == s
    decreases |s|
  {
    if s != [] {
      var s', last := s[..|s| - 1], s[|s| - 1];
      assert SortedByYear(s');
      YearSortedOfSorted(s');
      assert s' + [last] == s;
    }
  }

  lemma YearSortedIdempotent(s: seq<Row>)
    ensures YearSorted(YearSorted(s)) == YearSorted(s)
  {
    YearSortedSortsAndPermutes(s);
    YearSortedOfSorted(YearSorted(s));
  }

  /** A later year listed first is moved behind the earlier one. */
  lemma YearSortedExample(a: Row, b: Row)
    requires a.year == 2000 && b.year == 1999
    ensures YearSorted([a, b]) == [b, a]
  {
    assert [a, b][..1] == [a];
    assert [a][..0] == [];
    assert YearSorted([a]) == InsertByYear([], a) == [a];
    assert InsertByYear([a], b) == InsertByYear([], b) + [a];
  }

  /** Where the insertion puts `x`: behind the last row of a year not later than its own. */
  lemma {:induction false} InsertByYearAt(t: seq<Row>, x: Row, j: int)
    requires 0 <= j <= |t|
    requires j == 0 || t[j - 1].year <= x.year
    requires forall k :: j <= k < |t| ==> t[k].year > x.year
    ensures InsertByYear(t, x) == t[..j] + [x] + t[j..]
    decreases |t|
  {
    if j < |t| {
      var t', last := t[..|t| - 1], t[|t| - 1];
      InsertByYearAt(t', x, j);
      assert t'[..j] == t[..j];
      assert t'[j..] + [last] == t[j..];
    } else {
      assert t[..j] == t;
    }
  }

  /** A sequence that agrees with `t` before `j`, holds `x` at `j` and `t` shifted one place
      right after it, is `t` with `x` inserted at `j`. */
  lemma ShiftedInsert(b: seq<Row>, t: seq<Row>, x: Row, j: nat)
    requires j <= |t| && |b| == |t| + 1
    requires forall k :: 0 <= k < j ==> b[k] == t[k]
    requires b[j] == x
    requires forall k :: j < k < |b| ==> b[k] == t[k - 1]
    ensures b == t[..j] + [x] + t[j..]
  {
  }

  /** One step of the insertion sort: the row at `i` is moved left past every row of a later
      year in the already sorted prefix, which shifts one place right. */
  method PlaceRow(a: array<Row>, i: nat)
    requires i < a.Length
    modifies a
    ensures a[..i + 1] == InsertByYear(old(a[..i]), old(a[i]))
    ensures a[i + 1..] == old(a[i + 1..])
  {
    ghost var sorted := a[..i];
    var key := a[i];
    var j := i;
    while j > 0 && a[j - 1].year > key.year
      invariant 0 <= j <= i
      invariant forall k :: 0 <= k < j ==> a[k] == sorted[k]
      invariant forall k :: j < k <= i ==> a[k] == sorted[k - 1]
      invariant forall k :: i < k < a.Length ==> a[k] == old(a[k])
      invariant forall k :: j <= k < i ==> sorted[k].year > key.year
    {
      a[j] := a[j - 1];
      j := j - 1;
    }
    a[j] := key;
    InsertByYearAt(sorted, key, j);
    ShiftedInsert(a[..i + 1], sorted, key, j);
  }

  /** `values.sort(...)`: sorts the array in place, one row at a time (an insertion sort,
      which is stable like the engine's sort). */
  method SortByYear(a: array<Row>)
    modifies a
    ensures a[..] == YearSorted(old(a[..]))
  {
    ghost var input := a[..];
    var i := 0;
    while i < a.Length
      invariant 0 <= i <= a.Length
      invariant a[..i] == YearSorted(input[..i])
      invariant a[i..] == input[i..]
    {
      assert a[i] == input[i];
      PlaceRow(a, i);
      assert input[..i + 1] == input[..i] + [input[i]];
      i := i + 1;
    }
    assert a[..] == a[..a.Length];
    assert input == input[..a.Length];
  }

  /** The lines of a guided chart: the groups in the order of `d3.groups`, each group's rows
      sorted by year. */
  function SortedGroups(gs: seq<Group>): seq<Group> {
    seq(|gs|, i requires 0 <= i < |gs| => Group(gs[i].key, YearSorted(gs[i].values)))
  }

  lemma SortedGroupsSnoc(gs: seq<Group>, g: Group)
    ensures SortedGroups(gs + [g]) == SortedGroups(gs) + [Group(g.key, YearSorted(g.values))]
  {
  }

  /** The `forEach` over `dataByCountry` in `createPlot`: the array of every group is sorted in
      place before its line is drawn; the groups keep their order and their keys. */
  method SortEachGroup(groups: seq<Group>) returns (series: seq<Group>)
    ensures series == SortedGroups(groups)
  {
    series := [];
    var i := 0;
    while i < |groups|
      invariant 0 <= i <= |groups|
      invariant series == SortedGroups(groups[..i])
    {
      var values := groups[i].values;
      var a := new Row[|values|](k requires 0 <= k < |values| => values[k]);
      assert a[..] == values;
      SortByYear(a);
      assert groups[..i + 1] == groups[..i] + [groups[i]];
      SortedGroupsSnoc(groups[..i], groups[i]);
      series := series + [Group(groups[i].key, a[..])];
      i := i + 1;
    }
    assert groups[..i] == groups;
  }

  /** The chart the guided variant draws for one indicator. */
  function GuidedChart(data: seq<Row>, sel: Selection, indicator: string): seq<Group> {
    SortedGroups(Groups(Surviving(data, sel, indicator)))
  }

  /** Every line of a guided chart belongs to one country with surviving rows, each such
      country has exactly one line, in first-seen order, and a line holds exactly that
      country's surviving rows, in year order, rows of the same year in file order. */
  lemma GuidedChartLines(data: seq<Row>, sel: Selection, indicator: string)
    ensures var rows := Surviving(data, sel, indicator);
      var chart := GuidedChart(data, sel, indicator);
      && Keys(chart) == Keys(Groups(rows))
      && NoDuplicates(Keys(chart))
      && (forall c :: c in Keys(chart) <==> c in CountryColumn(rows))
      && forall i :: 0 <= i < |chart| ==>
           && SortedByYear(chart[i].values)
           && multiset(chart[i].values) == multiset(OfCountry(rows, chart[i].key))
           && chart[i].values != []
           && forall y :: OfYear(chart[i].values, y) == OfYear(OfCountry(rows, chart[i].key), y)
  {
    var rows := Surviving(data, sel, indicator);
    var gs := Groups(rows);
    var chart := GuidedChart(data, sel, indicator);
    GroupsPartition(rows);
    GroupsByCountry(rows);
    assert Keys(chart) == Keys(gs);
    forall i | 0 <= i < |chart|
      ensures SortedByYear(chart[i].values)
      ensures multiset(chart[i].values) == multiset(OfCountry(rows, chart[i].key))
      ensures chart[i].values != []
      ensures forall y :: OfYear(chart[i].values, y) == OfYear(OfCountry(rows, chart[i].key), y)
    {
      YearSortedSortsAndPermutes(gs[i].values);
      forall y
        ensures OfYear(chart[i].values, y) == OfYear(OfCountry(rows, chart[i].key), y)
      {
        YearSortedIsStable(gs[i].values, y);
      }
    }
  }

  /** No row survives for the indicator at position `k` of the list, so its chart has no line. */
  predicate NothingToDraw(data: seq<Row>, sel: Selection, k: nat)
    requires k < |Indicators|
  {
    |Surviving(data, sel, Indicators[k])| == 0
  }

  /** A guided chart has no line exactly when no row survives. */
  lemma GuidedChartEmpty(data: seq<Row>, sel: Selection, k: nat)
    requires k < |Indicators|
    ensures |GuidedChart(data, sel, Indicators[k])| == 0 <==> NothingToDraw(data, sel, k)
  {
    NoGroupsIffNoRows(Surviving(data, sel, Indicators[k]));
  }

  // ---------------------------------------------------------------------------
  // updateStartExploringButton

  /** The start button is shown exactly when at least one country box is checked. */
  function StartButtonVisible(countryPanel: seq<Checkbox>): (visible: bool)
    ensures visible <==> exists i :: 0 <= i < |countryPanel| && countryPanel[i].checked
  {
    var checked := CheckedValues(countryPanel);
    assert forall i :: 0 <= i < |countryPanel| && countryPanel[i].checked ==> countryPanel[i].value in checked;
    if checked != [] then assert checked[0] in checked; true else false
  }

  // ---------------------------------------------------------------------------
  // startExploring / animateNextIndicator

  /** How many charts have been drawn while the tour stands at `index`. */
  function Drawn(index: nat): nat {
    if index < |Indicators| then index + 1 else |Indicators|
  }

  /** The state of one running `startExploring`: the dataset it was started with, its
      `index`, the lines of the chart on screen, the indicators charted so far, and whether the
      details button has been revealed. */
  class Tour {
    const data: seq<Row>
    var index: nat
    var chart: seq<Group>
    var charted: seq<string>
    var detailVisible: bool

    /** The indicators are charted in list order, one per position reached so far, and the
        details button is shown exactly when the whole list has been walked. */
    predicate Valid()
      reads this
    {
      && index <= |Indicators|
      && charted == Indicators[..Drawn(index)]
      && (detailVisible <==> index == |Indicators|)
    }

    /** `startExploring`: the counter starts at 0 and the first chart is drawn at once. */
    constructor Start(data: seq<Row>, sel: Selection)
      ensures Valid()
      ensures this.data == data && index == 0
      ensures chart == GuidedChart(data, sel, Indicators[0])
    {
      this.data := data;
      index := 0;
      chart := [];
      charted := [];
      detailVisible := false;
      new;
      AnimateNext(sel);
    }

    /** `animateNextIndicator`: draw the chart of the current indicator, with the boxes checked
        at this moment, or, past the end of the list, reveal the details button. */
    method AnimateNext(sel: Selection)
      requires index <= |Indicators| && charted == Indicators[..index] && !detailVisible
      modifies this
      ensures Valid()
      ensures index == old(index)
      ensures index < |Indicators| ==> chart == GuidedChart(data, sel, Indicators[index])
      ensures index == |Indicators| ==> chart == old(chart)
    {
      if index < |Indicators| {
        var indicator := Indicators[index];
        chart := SortEachGroup(Groups(Surviving(data, sel, indicator)));
        charted := charted + [indicator];
        assert Indicators[..index + 1] == Indicators[..index] + [indicator];
      } else {
        detailVisible := true;
      }
    }

    /** The callback of `filterData`: `index++` and animate the next indicator. */
    method Advance(sel: Selection)
      requires Valid() && index < |Indicators|
      modifies this
      ensures Valid()
      ensures index == old(index) + 1
      ensures index < |Indicators| ==> chart == GuidedChart(data, sel, Indicators[index])
      ensures index == |Indicators| ==> chart == old(chart)
    {
      index := index + 1;
      AnimateNext(sel);
    }

    /** The end of the drawing transition of line `g`: only the line at position
        `length - 1` calls back; any other line's end changes nothing. */
    method OnPathEnd(g: nat, sel: Selection)
      requires Valid() && index < |Indicators| && g < |chart|
      modifies this
      ensures Valid()
      ensures g + 1 < |old(chart)| ==> unchanged(this)
      ensures g + 1 == |old(chart)| ==> index == old(index) + 1
      ensures g + 1 == |old(chart)| && index < |Indicators| ==> chart == GuidedChart(data, sel, Indicators[index])
      ensures g + 1 == |old(chart)| && index == |Indicators| ==> chart == old(chart)
    {
      if g == |chart| - 1 {
        Advance(sel);
      }
    }

    /** Every line of a non-empty chart finishes drawing, in drawing order: the chart's
        callback comes once, from the last line, and moves the tour on by one. */
    method FinishChart(sel: Selection)
      requires Valid() && index < |Indicators| && |chart| > 0
      modifies this
      ensures Valid()
      ensures index == old(index) + 1
      ensures index < |Indicators| ==> chart == GuidedChart(data, sel, Indicators[index])
      ensures index == |Indicators| ==> chart == old(chart)
    {
      var n := |chart|;
      var g := 0;
      while g < n - 1
        invariant 0 <= g <= n - 1
        invariant unchanged(this)
      {
        OnPathEnd(g, sel);
        g := g + 1;
      }
      OnPathEnd(n - 1, sel);
    }
  }

  /** Every indicator before position `n` has a row to draw. */
  predicate AllDrawable(data: seq<Row>, sel: Selection, n: nat)
    requires n <= |Indicators|
  {
    forall k :: 0 <= k < n ==> !NothingToDraw(data, sel, k)
  }

  lemma AllDrawableStep(data: seq<Row>, sel: Selection, n: nat)
    requires n < |Indicators| && AllDrawable(data, sel, n) && !NothingToDraw(data, sel, n)
    ensures AllDrawable(data, sel, n + 1)
  {
  }

  /** The position where a tour with a fixed selection stops: the first indicator whose chart
      has no row to draw, or the length of the list when every chart has one. */
  function StallPoint(data: seq<Row>, sel: Selection, from: nat): (stop: nat)
    requires from <= |Indicators|
    ensures from <= stop <= |Indicators|
    ensures forall k :: from <= k < stop ==> !NothingToDraw(data, sel, k)
    ensures stop < |Indicators| ==> NothingToDraw(data, sel, stop)
    decreases |Indicators| - from
  {
    if from == |Indicators| then from
    else if NothingToDraw(data, sel, from) then from
    else StallPoint(data, sel, from + 1)
  }

  /** The stopping position is the only one with no empty chart before it and an empty chart
      (or the end of the list) at it. */
  lemma {:induction false} StallPointUnique(data: seq<Row>, sel: Selection, from: nat, stop: nat)
    requires from <= stop <= |Indicators|
    requires forall k :: from <= k < stop ==> !NothingToDraw(data, sel, k)
    requires stop < |Indicators| ==> NothingToDraw(data, sel, stop)
    ensures StallPoint(data, sel, from) == stop
    decreases stop - from
  {
    if from < stop {
      StallPointUnique(data, sel, from + 1, stop);
    }
  }

  /** The whole tour with the boxes left as they were at the start, every line's transition
      ending in drawing order: it walks the list until a chart with no line, where no
      callback ever comes, or to the end, where the details button appears. */
  method RunTour(data: seq<Row>, sel: Selection) returns (stop: nat, charted: seq<string>, detailShown: bool)
    ensures stop == StallPoint(data, sel, 0)
    ensures charted == Indicators[..Drawn(stop)]
    ensures detailShown <==> stop == |Indicators|
  {
    var t := new Tour.Start(data, sel);
    while t.index < |Indicators| && |t.chart| > 0
      invariant fresh(t)
      invariant t.Valid() && t.data == data
      invariant AllDrawable(data, sel, t.index)
      invariant t.index < |Indicators| ==> t.chart == GuidedChart(data, sel, Indicators[t.index])
      decreases |Indicators| - t.index
    {
      GuidedChartEmpty(data, sel, t.index);
      AllDrawableStep(data, sel, t.index);
      t.FinishChart(sel);
    }
    if t.index < |Indicators| {
      GuidedChartEmpty(data, sel, t.index);
    }
    StallPointUnique(data, sel, 0, t.index);
    stop, charted, detailShown := t.index, t.charted, t.detailVisible;
  }

  /** The tour reaches the end of the list exactly when every indicator has a row to draw. */
  lemma TourCompletes(data: seq<Row>, sel: Selection)
    ensures StallPoint(data, sel, 0) == |Indicators| <==>
      forall k :: 0 <= k < |Indicators| ==> !NothingToDraw(data, sel, k)
  {
    if forall k :: 0 <= k < |Indicators| ==> !NothingToDraw(data, sel, k) {
      StallPointUnique(data, sel, 0, |Indicators|);
    }
  }

  /** With no country checked the tour stalls on the first indicator. */
  lemma TourStallsWithoutCountries(data: seq<Row>, sel: Selection)
    requires sel.countries == []
    ensures StallPoint(data, sel, 0) == 0
  {
    NothingSurvivesWithoutCountries(data, sel, Indicators[0]);
  }

  /** A checked country does not keep the tour going: a country whose only row has no value
      for the first indicator stalls it there. */
  lemma TourStallsWithCountrySelected()
    ensures var data := [Row("Europe", "France", 2000, map[])];
      var sel := Selection(["Europe"], ["France"]);
      Selected(data[0], sel) && StallPoint(data, sel, 0) == 0
  {
    var data := [Row("Europe", "France", 2000, map[])];
    var sel := Selection(["Europe"], ["France"]);
    assert IsMissing(data[0], Indicators[0]);
    SurvivingRows(data, sel, Indicators[0]);
  }
}
