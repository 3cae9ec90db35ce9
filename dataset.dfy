/** The records both chart scripts work on: one row of `project_data.csv` as `d3.csv`
    delivers it, the checkbox selection, and the fixed list of indicator columns. */
module Dataset {

  /** One observation. `Region`, `Country Name` and `Year` are the fixed columns; `cells`
      holds the text of every other column, keyed by column name. A column the file does
      not have is absent from `cells` (JavaScript reads it as `undefined`). */
  datatype Row = Row(region: string, country: string, year: int, cells: map<string, string>)

  /** What `d[indicator]` yields: the cell text, or `undefined`. */
  datatype Cell = Absent | Text(raw: string)

  function CellOf(r: Row, column: string): Cell {
    if column in r.cells then Text(r.cells[column]) else Absent
  }

  /** The values of the checked region and country checkboxes, in document order. */
  datatype Selection = Selection(regions: seq<string>, countries: seq<string>)

  /** The indicator columns, in the order of the buttons and of the guided tour. */
  const Indicators: seq<string> := [
    "Adjusted savings: education expenditure (current US$)",
    "Current health expenditure per capita (current US$)",
    "GDP per capita (current US$)",
    "Imports of goods and services (BoP, current US$)",
    "Individuals using the Internet (% of population)",
    "Life Expectancy",
    "Mobile cellular subscriptions (per 100 people)",
    "People using safely managed drinking water services (% of population)",
    "Renewable energy consumption (% of total final energy consumption)",
    "Total Population",
    "Unemployment, total (% of total labor force) (national estimate)"
  ]
}
