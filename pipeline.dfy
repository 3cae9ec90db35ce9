/** The data logic that `script.js` and `functional.js` share, line for line: the checkbox
    lists built from the data, the row filter of `filterData`, and the part of `createPlot`
    that decides which rows are drawn, how they are grouped into one line per country, the
    class of a data point, the tooltip text and the margin arithmetic of the SVG frame. */
module Pipeline {
  import opened Seqs
  import opened JsText
  import opened Dataset

  // ---------------------------------------------------------------------------
  // Columns

  /** `data.map(d => d.Region)`. */
  function RegionColumn(data: seq<Row>): seq<string> {
    seq(|data|, i requires 0 <= i < |data| => data[i].region)
  }

  /** `data.map(d => d["Country Name"])`. */
  function CountryColumn(data: seq<Row>): seq<string> {
    seq(|data|, i requires 0 <= i < |data| => data[i].country)
  }

  lemma CountryColumnSnoc(rows: seq<Row>, r: Row)
    ensures CountryColumn(rows + [r]) == CountryColumn(rows) + [r.country]
  {
  }

  // ---------------------------------------------------------------------------
  // The filter panels

  /** A value is in the column of a row sequence exactly when some row carries it. */
  lemma RegionColumnMembers(data: seq<Row>)
    ensures forall x :: x in RegionColumn(data) <==> exists i :: 0 <= i < |data| && data[i].region == x
  {
    forall x | exists i :: 0 <= i < |data| && data[i].region == x
      ensures x in RegionColumn(data)
    {
      var i :| 0 <= i < |data| && data[i].region == x;
      assert RegionColumn(data)[i] == x;
    }
  }

  lemma CountryColumnMembers(rows: seq<Row>)
    ensures forall x :: x in CountryColumn(rows) <==> exists r :: r in rows && r.country == x
  {
    forall x | exists r :: r in rows && r.country == x
      ensures x in CountryColumn(rows)
    {
      var r :| r in rows && r.country == x;
      var i :| 0 <= i < |rows| && rows[i] == r;
      assert CountryColumn(rows)[i] == x;
    }
  }

  /** `createRegionFilterControls`: one region checkbox per distinct `Region` of the data,
      in the order in which the regions first occur in the file. */
  function RegionList(data: seq<Row>): (regions: seq<string>)
    ensures NoDuplicates(regions)
    ensures forall x :: x in regions <==> exists i :: 0 <= i < |data| && data[i].region == x
    ensures InFirstSeenOrder(regions, RegionColumn(data))
  {
    var column := RegionColumn(data);
    DistinctInFirstSeenOrder(column);
    DistinctMembers(column);
    RegionColumnMembers(data);
    Distinct(column)
  }

  /** The rows whose region is checked: `data.filter(d => selectedRegions.includes(d.Region))`. */
  function RegionRows(data: seq<Row>, regions: seq<string>): seq<Row> {
    Filter(data, (r: Row) => r.region in regions)
  }

  lemma RegionRowsMembers(data: seq<Row>, regions: seq<string>)
    ensures forall x :: x in CountryColumn(RegionRows(data, regions)) <==>
      exists i :: 0 <= i < |data| && data[i].region in regions && data[i].country == x
  {
    var rows := RegionRows(data, regions);
    FilterSpec(data, (r: Row) => r.region in regions);
    CountryColumnMembers(rows);
    assert forall i :: 0 <= i < |data| && data[i].region in regions ==> data[i] in rows;
  }

  /** `updateCountryFilterControls`: one country checkbox per distinct `Country Name` among
      the rows of a checked region, in first-seen order; none when no region is checked. */
  function CountryList(data: seq<Row>, regions: seq<string>): (countries: seq<string>)
    ensures NoDuplicates(countries)
    ensures forall x :: x in countries <==>
      exists i :: 0 <= i < |data| && data[i].region in regions && data[i].country == x
    ensures InFirstSeenOrder(countries, CountryColumn(RegionRows(data, regions)))
    ensures regions == [] ==> countries == []
  {
    var column := CountryColumn(RegionRows(data, regions));
    DistinctInFirstSeenOrder(column);
    DistinctMembers(column);
    RegionRowsMembers(data, regions);
    Distinct(column)
  }

  /** A checkbox as the panels create it: its value and whether it is checked. */
  datatype Checkbox = Checkbox(value: string, checked: bool)

  /** A freshly built panel: one unchecked checkbox per value, in order. */
  function Panel(values: seq<string>): (panel: seq<Checkbox>)
    ensures |panel| == |values|
    ensures forall i :: 0 <= i < |panel| ==> panel[i].value == values[i] && !panel[i].checked
  {
    seq(|values|, i requires 0 <= i < |values| => Checkbox(values[i], false))
  }

  /** `Array.from(d3.selectAll("input[name=...]:checked").nodes(), input => input.value)`:
      the values of the checked boxes (the callers only ask which values occur, with
      `includes`). */
  function CheckedValues(panel: seq<Checkbox>): (values: seq<string>)
    ensures |values| <= |panel|
    ensures forall v :: v in values <==> exists i :: 0 <= i < |panel| && panel[i].checked && panel[i].value == v
    decreases |panel|
  {
    if panel == [] then []
    else
      var box := panel[|panel| - 1];
      var earlier := CheckedValues(panel[..|panel| - 1]);
      assert forall i :: 0 <= i < |panel| - 1 ==> panel[..|panel| - 1][i] == panel[i];
      earlier + (if box.checked then [box.value] else [])
  }

  /** A freshly built panel has nothing checked. The country panel is cleared and rebuilt on
      every region change, so right after the rebuild no country is checked, whatever was
      checked before. */
  lemma {:induction false} FreshPanelIsUnchecked(values: seq<string>)
    ensures CheckedValues(Panel(values)) == []
    decreases |values|
  {
    if values != [] {
      var p := Panel(values);
      assert p[..|p| - 1] == Panel(values[..|values| - 1]);
      FreshPanelIsUnchecked(values[..|values| - 1]);
    }
  }

  // ---------------------------------------------------------------------------
  // filterData

  predicate Selected(r: Row, sel: Selection) {
    r.region in sel.regions && r.country in sel.countries
  }

  /** `filterData`: the rows whose region and whose country are both checked, in file order,
      each as often as it occurs in the data. */
  function FilterData(data: seq<Row>, sel: Selection): (rows: seq<Row>)
    ensures IsSubsequence(rows, data)
    ensures forall r :: multiset(rows)[r] == if Selected(r, sel) then multiset(data)[r] else 0
  {
    var keep := (r: Row) => Selected(r, sel);
    FilterSpec(data, keep);
    Filter(data, keep)
  }

  // ---------------------------------------------------------------------------
  // createPlot: dropping missing values

  /** `!(d[indicator] != 0 && d[indicator] != null)`: the cell is `undefined` (which is
      loosely equal to null and not to 0), or its text loosely equals 0 (an empty or blank
      cell included). */
  predicate IsMissing(r: Row, indicator: string) {
    match CellOf(r, indicator)
    case Absent => true
    case Text(t) => LooselyEqualsZero(t)
  }

  /** `data.filter(d => d[indicator] != 0 && d[indicator] != null)`: the rows with a present,
      non-zero cell for the indicator, in their order, each as often as before. */
  function DropMissing(rows: seq<Row>, indicator: string): (kept: seq<Row>)
    ensures IsSubsequence(kept, rows)
    ensures forall r :: multiset(kept)[r] == if IsMissing(r, indicator) then 0 else multiset(rows)[r]
  {
    var keep := (r: Row) => !IsMissing(r, indicator);
    FilterSpec(rows, keep);
    Filter(rows, keep)
  }

  /** The rows a chart draws: checked region and country, and a value for the indicator. */
  function Surviving(data: seq<Row>, sel: Selection, indicator: string): seq<Row> {
    DropMissing(FilterData(data, sel), indicator)
  }

  /** A row is drawn exactly when it is selected and its indicator cell is present and not
      zero; the drawn rows keep the file order. */
  lemma SurvivingRows(data: seq<Row>, sel: Selection, indicator: string)
    ensures IsSubsequence(Surviving(data, sel, indicator), data)
    ensures forall r :: multiset(Surviving(data, sel, indicator))[r] ==
                        (if Selected(r, sel) && !IsMissing(r, indicator) then multiset(data)[r] else 0)
    ensures Surviving(data, sel, indicator) == [] <==>
      forall i :: 0 <= i < |data| ==> !Selected(data[i], sel) || IsMissing(data[i], indicator)
  {
    var s := Surviving(data, sel, indicator);
    SubsequenceTransitive(s, FilterData(data, sel), data);
    if s != [] {
      assert multiset(s)[s[0]] > 0;
      assert s[0] in data;
    }
    forall i | 0 <= i < |data| && Selected(data[i], sel) && !IsMissing(data[i], indicator)
      ensures s != []
    {
      assert multiset(data)[data[i]] > 0;
      assert multiset(s)[data[i]] > 0;
    }
  }

  /** A row survives exactly when it is a selected row of the file with a value for the indicator. */
  lemma SurvivingMembers(data: seq<Row>, sel: Selection, indicator: string)
    ensures forall r :: r in Surviving(data, sel, indicator) <==> r in data && Selected(r, sel) && !IsMissing(r, indicator)
  {
    SurvivingRows(data, sel, indicator);
    assert forall r :: r in Surviving(data, sel, indicator) <==> multiset(Surviving(data, sel, indicator))[r] > 0;
    assert forall r :: r in data <==> multiset(data)[r] > 0;
  }

  /** With no country checked, nothing is drawn, whatever the indicator. */
  lemma NothingSurvivesWithoutCountries(data: seq<Row>, sel: Selection, indicator: string)
    requires sel.countries == []
    ensures Surviving(data, sel, indicator) == []
  {
    SurvivingRows(data, sel, indicator);
  }

  // ---------------------------------------------------------------------------
  // createPlot: d3.groups(filteredData, d => d["Country Name"])

  /** One entry `[country, values]` of the result of `d3.groups`. */
  datatype Group = Group(key: string, values: seq<Row>)

  function Keys(gs: seq<Group>): seq<string> {
    seq(|gs|, i requires 0 <= i < |gs| => gs[i].key)
  }

  /** All rows of every group, group after group. */
  function Flatten(gs: seq<Group>): seq<Row> {
    if gs == [] then [] else gs[0].values + Flatten(gs[1..])
  }

  /** The rows of one country, in their order. */
  function OfCountry(rows: seq<Row>, country: string): seq<Row> {
    Filter(rows, (r: Row) => r.country == country)
  }

  lemma OfCountrySnoc(rows: seq<Row>, r: Row, country: string)
    ensures OfCountry(rows + [r], country) ==
      OfCountry(rows, country) + (if r.country == country then [r] else [])
  {
    assert (rows + [r])[..|rows|] == rows;
  }

  lemma OfCountryOfAbsent(rows: seq<Row>, country: string)
    requires country !in CountryColumn(rows)
    ensures OfCountry(rows, country) == []
  {
    FilterSpec(rows, (r: Row) => r.country == country);
    CountryColumnMembers(rows);
  }

  /** How `d3.groups` files one more row: into the first group with its key, or into a new
      group at the end. */
  function AddToGroups(gs: seq<Group>, r: Row): (out: seq<Group>)
    ensures Keys(out) == if r.country in Keys(gs) then Keys(gs) else Keys(gs) + [r.country]
    decreases |gs|
  {
    if gs == [] then [Group(r.country, [r])]
    else if gs[0].key == r.country then
      assert Keys(gs)[0] == r.country;
      [Group(r.country, gs[0].values + [r])] + gs[1..]
    else
      var rest := AddToGroups(gs[1..], r);
      assert Keys(gs) == [gs[0].key] + Keys(gs[1..]);
      assert Keys([gs[0]] + rest) == [gs[0].key] + Keys(rest);
      [gs[0]] + rest
  }

  /** The row joins the group of the first key equal to its country; no other group changes. */
  lemma {:induction false} AddToGroupsAt(gs: seq<Group>, r: Row, i: int)
    requires 0 <= i < |gs|
    ensures AddToGroups(gs, r)[i].values ==
      if r.country in Keys(gs) && i == FirstIndex(Keys(gs), r.country) then gs[i].values + [r] else gs[i].values
    decreases |gs|
  {
    var k := r.country;
    assert Keys(gs)[0] == gs[0].key;
    assert Keys(gs)[1..] == Keys(gs[1..]);
    if gs[0].key != k && i > 0 {
      AddToGroupsAt(gs[1..], r, i - 1);
      assert k in Keys(gs) <==> k in Keys(gs[1..]);
    }
  }

  /** A row of a new country opens a group of its own at the end. */
  lemma {:induction false} AddToGroupsNew(gs: seq<Group>, r: Row)
    requires r.country !in Keys(gs)
    ensures AddToGroups(gs, r)[|gs|].values == [r]
    decreases |gs|
  {
    if gs != [] {
      assert Keys(gs)[0] == gs[0].key;
      assert Keys(gs)[1..] == Keys(gs[1..]);
      AddToGroupsNew(gs[1..], r);
    }
  }

  /** Filing a row adds exactly that row to the rows held by the groups. */
  lemma {:induction false} AddToGroupsFlatten(gs: seq<Group>, r: Row)
    ensures multiset(Flatten(AddToGroups(gs, r))) == multiset(Flatten(gs)) + multiset{r}
    decreases |gs|
  {
    if gs != [] && gs[0].key != r.country {
      AddToGroupsFlatten(gs[1..], r);
      assert Flatten([gs[0]] + AddToGroups(gs[1..], r)) == gs[0].values + Flatten(AddToGroups(gs[1..], r));
    } else if gs != [] {
      assert Flatten([Group(r.country, gs[0].values + [r])] + gs[1..]) == gs[0].values + [r] + Flatten(gs[1..]);
    }
  }

  /** `d3.groups(rows, d => d["Country Name"])`: the rows grouped by country, the groups in
      the order in which their countries first occur. */
  function Groups(rows: seq<Row>): seq<Group>
    decreases |rows|
  {
    if rows == [] then [] else AddToGroups(Groups(rows[..|rows| - 1]), rows[|rows| - 1])
  }

  /** The fold of `d3.groups` agrees with the direct description: its keys are
      `Array.from(new Set(countries))` and the group of a key is `rows.filter` of that key. */
  lemma {:induction false} GroupsByCountry(rows: seq<Row>)
    ensures Keys(Groups(rows)) == Distinct(CountryColumn(rows))
    ensures forall i :: 0 <= i < |Groups(rows)| ==> Groups(rows)[i].values == OfCountry(rows, Groups(rows)[i].key)
    decreases |rows|
  {
    if rows != [] {
      var earlier, r := rows[..|rows| - 1], rows[|rows| - 1];
      assert rows == earlier + [r];
      GroupsByCountry(earlier);
      GroupingStep(earlier, r, Groups(earlier));
    }
  }

  /** Together the groups hold every row exactly as often as the input does. */
  lemma {:induction false} GroupsHoldEveryRow(rows: seq<Row>)
    ensures multiset(Flatten(Groups(rows))) == multiset(rows)
    decreases |rows|
  {
    if rows != [] {
      var earlier, r := rows[..|rows| - 1], rows[|rows| - 1];
      assert rows == earlier + [r];
      GroupsHoldEveryRow(earlier);
      AddToGroupsFlatten(Groups(earlier), r);
    }
  }

  lemma GroupingStepKeys(rows: seq<Row>, r: Row, gs: seq<Group>)
    requires Keys(gs) == Distinct(CountryColumn(rows))
    ensures Keys(AddToGroups(gs, r)) == Distinct(CountryColumn(rows + [r]))
  {
    CountryColumnSnoc(rows, r);
    DistinctSnoc(CountryColumn(rows), r.country);
    DistinctMembers(CountryColumn(rows));
  }

  lemma GroupingStepAt(rows: seq<Row>, r: Row, gs: seq<Group>, i: int)
    requires Keys(gs) == Distinct(CountryColumn(rows))
    requires forall j :: 0 <= j < |gs| ==> gs[j].values == OfCountry(rows, gs[j].key)
    requires 0 <= i < |AddToGroups(gs, r)|
    ensures AddToGroups(gs, r)[i].values == OfCountry(rows + [r], AddToGroups(gs, r)[i].key)
  {
    var k := r.country;
    var out := AddToGroups(gs, r);
    assert out[i].key == Keys(out)[i];
    OfCountrySnoc(rows, r, out[i].key);
    if i < |gs| {
      AddToGroupsAt(gs, r, i);
      assert out[i].key == gs[i].key == Keys(gs)[i];
      if gs[i].key == k {
        assert FirstIndex(Keys(gs), k) == i;
      }
    } else {
      DistinctMembers(CountryColumn(rows));
      AddToGroupsNew(gs, r);
      OfCountryOfAbsent(rows, k);
    }
  }

  lemma GroupingStep(rows: seq<Row>, r: Row, gs: seq<Group>)
    requires Keys(gs) == Distinct(CountryColumn(rows))
    requires forall i :: 0 <= i < |gs| ==> gs[i].values == OfCountry(rows, gs[i].key)
    ensures Keys(AddToGroups(gs, r)) == Distinct(CountryColumn(rows + [r]))
    ensures forall i :: 0 <= i < |AddToGroups(gs, r)| ==>
      AddToGroups(gs, r)[i].values == OfCountry(rows + [r], AddToGroups(gs, r)[i].key)
  {
    GroupingStepKeys(rows, r, gs);
    forall i | 0 <= i < |AddToGroups(gs, r)|
      ensures AddToGroups(gs, r)[i].values == OfCountry(rows + [r], AddToGroups(gs, r)[i].key)
    {
      GroupingStepAt(rows, r, gs, i);
    }
  }

  /** The rows of a country that occurs are a non-empty, order-preserving selection of
      rows of that country. */
  lemma OfCountryOfPresent(rows: seq<Row>, country: string)
    requires country in CountryColumn(rows)
    ensures OfCountry(rows, country) != []
    ensures IsSubsequence(OfCountry(rows, country), rows)
    ensures forall j :: 0 <= j < |OfCountry(rows, country)| ==> OfCountry(rows, country)[j].country == country
  {
    var f := OfCountry(rows, country);
    FilterSpec(rows, (r: Row) => r.country == country);
    CountryColumnMembers(rows);
    var r :| r in rows && r.country == country;
    assert r in f;
    forall j | 0 <= j < |f|
      ensures f[j].country == country
    {
      assert f[j] in f;
    }
  }

  /** The keys of `d3.groups(rows, d => d.country)`: every country of `rows` once, in the
      order in which the countries are first met. */
  lemma GroupKeys(rows: seq<Row>)
    ensures NoDuplicates(Keys(Groups(rows)))
    ensures InFirstSeenOrder(Keys(Groups(rows)), CountryColumn(rows))
    ensures forall c :: c in Keys(Groups(rows)) <==> c in CountryColumn(rows)
  {
    GroupsByCountry(rows);
    DistinctInFirstSeenOrder(CountryColumn(rows));
    DistinctMembers(CountryColumn(rows));
  }

  /** The groups of `d3.groups` partition the rows: the keys are the distinct countries in
      first-seen order, every group is non-empty, lists only rows of its own country and keeps
      their order, and together the groups hold every row exactly as often as the input. */
  lemma GroupsPartition(rows: seq<Row>)
    ensures NoDuplicates(Keys(Groups(rows)))
    ensures InFirstSeenOrder(Keys(Groups(rows)), CountryColumn(rows))
    ensures forall c :: c in Keys(Groups(rows)) <==> c in CountryColumn(rows)
    ensures forall i :: 0 <= i < |Groups(rows)| ==>
      && Groups(rows)[i].values != []
      && IsSubsequence(Groups(rows)[i].values, rows)
      && forall j :: 0 <= j < |Groups(rows)[i].values| ==> Groups(rows)[i].values[j].country == Groups(rows)[i].key
    ensures multiset(Flatten(Groups(rows))) == multiset(rows)
  {
    var gs := Groups(rows);
    var column := CountryColumn(rows);
    GroupsByCountry(rows);
    GroupsHoldEveryRow(rows);
    DistinctInFirstSeenOrder(column);
    DistinctMembers(column);
    forall i | 0 <= i < |gs|
      ensures gs[i].values != []
      ensures IsSubsequence(gs[i].values, rows)
      ensures forall j :: 0 <= j < |gs[i].values| ==> gs[i].values[j].country == gs[i].key
    {
      assert gs[i].key == Keys(gs)[i];
      OfCountryOfPresent(rows, gs[i].key);
    }
  }

  /** A chart has no line at all exactly when no row survives. */
  lemma NoGroupsIffNoRows(rows: seq<Row>)
    ensures Groups(rows) == [] <==> rows == []
  {
    GroupsByCountry(rows);
    if rows != [] {
      assert CountryColumn(rows)[0] in Distinct(CountryColumn(rows));
      assert |Keys(Groups(rows))| > 0;
    }
  }

  // ---------------------------------------------------------------------------
  // createPlot: data-point class and tooltip

  /** `data-point-${country.replace(/\s+/g, '-')}`: the class of the circles of one country. */
  function DataPointClass(country: string): (c: string)
    ensures |c| >= 11 && c[..11] == "data-point-"
    ensures NoSpace(c)
    ensures NoSpace(country) ==> c == "data-point-" + country
  {
    SlugHasNoSpace(country);
    var c := "data-point-" + Slug(country);
    assert forall i :: 11 <= i < |c| ==> c[i] == Slug(country)[i - 11];
    if NoSpace(country) then SlugOfSpaceFree(country); c else c
  }

  /** `${d[indicator]}` in a template: the cell text, or "undefined". */
  function CellText(c: Cell): string {
    match c
    case Absent => "undefined"
    case Text(t) => t
  }

  /** The HTML of the tooltip of one data point. */
  function Tooltip(r: Row, indicator: string): string {
    "Country: " + r.country + "<br>Year: " + IntText(r.year) + "<br>" + indicator + ": " +
    CellText(CellOf(r, indicator))
  }

  /** The tooltip shows three lines: the country, the year and the indicator with its value
      (when none of the names or the cell contains a '<' of its own). */
  lemma {:induction false} TooltipLines(r: Row, indicator: string)
    requires '<' !in r.country && '<' !in indicator && '<' !in CellText(CellOf(r, indicator))
    ensures SplitLines(Tooltip(r, indicator)) ==
      ["Country: " + r.country, "Year: " + IntText(r.year), indicator + ": " + CellText(CellOf(r, indicator))]
  {
    var line1 := "Country: " + r.country;
    var line2 := "Year: " + IntText(r.year);
    var line3 := indicator + ": " + CellText(CellOf(r, indicator));
    IntTextIsPlain(r.year);
    assert '<' !in line1 && '<' !in line2 && '<' !in line3;
    assert Tooltip(r, indicator) == line1 + "<br>" + line2 + "<br>" + line3;
    ThreeLines(line1, line2, line3);
  }

  // ---------------------------------------------------------------------------
  // createPlot: the SVG frame

  const MarginTop: int := 20
  const MarginRight: int := 140
  const MarginBottom: int := 60
  const MarginLeft: int := 80

  /** The plot area (`width`, `height`), the `viewBox` size and the translation of the plot group. */
  datatype Frame = Frame(width: int, height: int, viewBoxWidth: int, viewBoxHeight: int, originX: int, originY: int)

  /** The frame computed from the container's `clientWidth` and `clientHeight`: the plot area
      is what the margins leave over, and the view box is exactly the container again. */
  function Layout(clientWidth: int, clientHeight: int): (f: Frame)
    ensures f.width == clientWidth - 220 && f.height == clientHeight - 80
    ensures f.viewBoxWidth == clientWidth && f.viewBoxHeight == clientHeight
    ensures f.originX == MarginLeft && f.originY == MarginTop
    ensures f.originX + f.width + MarginRight == f.viewBoxWidth
    ensures f.originY + f.height + MarginBottom == f.viewBoxHeight
  {
    var width := clientWidth - MarginLeft - MarginRight;
    var height := clientHeight - MarginTop - MarginBottom;
    Frame(width, height, width + MarginLeft + MarginRight, height + MarginTop + MarginBottom, MarginLeft, MarginTop)
  }
}
