/** What only the button variant (`functional.js`) does: one button per indicator, a chart
    whose lines keep the file order of their rows (there is no sort), and a legend to the
    right of the plot area. */
module Functional {
  import opened Seqs
  import opened Dataset
  import opened Pipeline

  // ---------------------------------------------------------------------------
  // createIndicatorButtons

  /** A button: the text it shows and the indicator its click handler charts. */
  datatype Button = Button(text: string, charts: string)

  /** The buttons, in the order of the list. */
  function IndicatorButtons(): (buttons: seq<Button>)
    ensures |buttons| == |Indicators|
    ensures forall i :: 0 <= i < |buttons| ==> buttons[i].text == Indicators[i] && buttons[i].charts == Indicators[i]
  {
    seq(|Indicators|, i requires 0 <= i < |Indicators| => Button(Indicators[i], Indicators[i]))
  }

  /** No indicator is listed twice. */
  lemma IndicatorsDistinct()
    ensures NoDuplicates(Indicators)
  {
    assert Indicators[3][46] == '$' && Indicators[4][46] == 'n';
  }

  /** The click handler of a button: `filterData(data, indicator)` with the button's datum,
      which clears the plot and draws the chart of that indicator. */
  function Click(b: Button, data: seq<Row>, sel: Selection): seq<Group> {
    Chart(data, sel, b.charts)
  }

  /** Every indicator has exactly one button, and clicking it draws that indicator's chart
      under the name the button shows. */
  lemma OneButtonPerIndicator(data: seq<Row>, sel: Selection)
    ensures |IndicatorButtons()| == |Indicators|
    ensures forall i, j :: 0 <= i < |Indicators| && 0 <= j < |IndicatorButtons()| ==>
      (IndicatorButtons()[j].text == Indicators[i] <==> j == i)
    ensures forall i :: 0 <= i < |Indicators| ==>
      Click(IndicatorButtons()[i], data, sel) == Chart(data, sel, Indicators[i])
  {
    IndicatorsDistinct();
  }

  // ---------------------------------------------------------------------------
  // filterData / createPlot

  /** The lines a click draws: `d3.groups` of the surviving rows, with no sort. */
  function Chart(data: seq<Row>, sel: Selection, indicator: string): seq<Group> {
    Groups(Surviving(data, sel, indicator))
  }

  /** A country has a line exactly when one of its rows is selected and has a value for the
      indicator; no country has two lines, and the lines come in first-seen order. */
  lemma ChartCountries(data: seq<Row>, sel: Selection, indicator: string)
    ensures NoDuplicates(Keys(Chart(data, sel, indicator)))
    ensures InFirstSeenOrder(Keys(Chart(data, sel, indicator)), CountryColumn(Surviving(data, sel, indicator)))
    ensures forall c :: c in Keys(Chart(data, sel, indicator)) <==>
      exists i :: 0 <= i < |data| && Selected(data[i], sel) && !IsMissing(data[i], indicator) && data[i].country == c
  {
    var rows := Surviving(data, sel, indicator);
    GroupKeys(rows);
    CountryColumnMembers(rows);
    SurvivingMembers(data, sel, indicator);
    forall c
      ensures c in Keys(Chart(data, sel, indicator)) <==>
        exists i :: 0 <= i < |data| && Selected(data[i], sel) && !IsMissing(data[i], indicator) && data[i].country == c
    {
      if c in Keys(Chart(data, sel, indicator)) {
        var r :| r in rows && r.country == c;
        var i :| 0 <= i < |data| && data[i] == r;
      }
    }
  }

  /** Each line holds exactly the surviving rows of its country, at least one, and since
      nothing sorts them they keep the order of the file. */
  lemma ChartPaths(data: seq<Row>, sel: Selection, indicator: string)
    ensures forall i :: 0 <= i < |Chart(data, sel, indicator)| ==>
      && Chart(data, sel, indicator)[i].values == OfCountry(Surviving(data, sel, indicator), Chart(data, sel, indicator)[i].key)
      && Chart(data, sel, indicator)[i].values != []
      && IsSubsequence(Chart(data, sel, indicator)[i].values, data)
  {
    var rows := Surviving(data, sel, indicator);
    var chart := Chart(data, sel, indicator);
    GroupsPartition(rows);
    GroupsByCountry(rows);
    SurvivingRows(data, sel, indicator);
    forall i | 0 <= i < |chart|
      ensures IsSubsequence(chart[i].values, data)
    {
      SubsequenceTransitive(chart[i].values, rows, data);
    }
  }

  // ---------------------------------------------------------------------------
  // The legend

  const LegendSpacing: int := 20
  const SwatchSize: int := 18

  /** One legend entry: its label, the vertical offset of its group and the x positions of
      its colour swatch and its label. */
  datatype LegendEntry = LegendEntry(name: string, offsetY: int, swatchX: int, labelX: int)

  function Labels(entries: seq<LegendEntry>): seq<string> {
    seq(|entries|, i requires 0 <= i < |entries| => entries[i].name)
  }

  /** The legend of a chart whose plot area is `width` wide: one entry per line, in line
      order, stacked 20 units apart, each an 18-unit swatch followed by the country name, all
      placed in the right margin. */
  function Legend(gs: seq<Group>, width: int): (entries: seq<LegendEntry>)
    ensures Labels(entries) == Keys(gs)
    ensures forall i :: 0 <= i < |entries| ==> entries[i].offsetY == LegendSpacing * i
    ensures forall i, j :: 0 <= i < j < |entries| ==> entries[i].offsetY + SwatchSize < entries[j].offsetY
    ensures forall i :: 0 <= i < |entries| ==>
      && entries[i].swatchX == width + 5 && entries[i].labelX == width + 25
      && width < entries[i].swatchX
      && entries[i].swatchX + SwatchSize < entries[i].labelX
      && entries[i].labelX < width + MarginRight
  {
    var entries := seq(|gs|, i requires 0 <= i < |gs| => LegendEntry(gs[i].key, i * 20, width + 5, width + 25));
    assert forall i, j :: 0 <= i < j < |entries| ==> entries[i].offsetY + SwatchSize < entries[j].offsetY by {
      forall i, j | 0 <= i < j < |entries|
        ensures entries[i].offsetY + SwatchSize < entries[j].offsetY
      {
        assert entries[i].offsetY == 20 * i && entries[j].offsetY == 20 * j;
      }
    }
    entries
  }

  /** The legend of a chart names every line once, in the order of the lines. */
  lemma LegendOfChart(data: seq<Row>, sel: Selection, indicator: string, width: int)
    ensures Labels(Legend(Chart(data, sel, indicator), width)) == Keys(Chart(data, sel, indicator))
    ensures NoDuplicates(Labels(Legend(Chart(data, sel, indicator), width)))
  {
    GroupsPartition(Surviving(data, sel, indicator));
  }
}
