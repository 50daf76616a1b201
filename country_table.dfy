/**
 * The per-country data table (`CountryData/<country>_data.csv`). A file is
 * modelled by the values it reads back as: a header row and data rows of
 * text cells; a missing cell and an empty cell both read back as blank.
 * `write_data_to_file` overwrites or appends one row; `reset_data_entries`
 * replaces the table by a single all-blank row.
 */
module CountryTable {
  import opened PyText

  /** What a month contributes to its headlines cell: "" when the month had
      no hits, otherwise the list of headlines collected for it. */
  datatype MonthHeadlines = NoHeadlines | HeadlineList(items: seq<string>)

  datatype Table = Table(columns: seq<string>, rows: seq<seq<string>>)

  /** The header `write_data_to_file` writes. */
  const InfoColumns: seq<string> :=
    ["Country Name", "MM-YYYY", "Number of Hits", "Month's Headlines"]

  /** The header `reset_data_entries` writes. */
  const ResetColumns: seq<string> :=
    ["Country Name", "MM-YYYY", "Number of Hits", "Sentiment Score (-1 to 1)",
     "Magnitude", "Month's Headlines"]

  /** The table `reset_data_entries` leaves behind. */
  const BlankTable: Table := Table(ResetColumns, [["", "", "", "", "", ""]])

  /** The text a headlines value is written as: the empty string, or `str`
      of the list. */
  function HeadlinesCell(h: MonthHeadlines): string
  {
    match h
    case NoHeadlines => ""
    case HeadlineList(items) => PyListRepr(items)
  }

  /** The one row `write_data_to_file` writes. */
  function InfoRow(country: string, date: string, hits: nat, headlines: MonthHeadlines): (row: seq<string>)
    ensures |row| == |InfoColumns|
    ensures row[0] == country && row[1] == date
    ensures row[2] == NatToString(hits) && row[3] == HeadlinesCell(headlines)
  {
    [country, date, NatToString(hits), HeadlinesCell(headlines)]
  }

  datatype Option<+T> = None | Some(value: T)

  /** The position of the first column with this name. */
  function ColumnIndex(columns: seq<string>, name: string): (r: Option<nat>)
    ensures r.None? <==> name !in columns
    ensures r.Some? ==> r.value < |columns| && columns[r.value] == name
    ensures r.Some? ==> forall j :: 0 <= j < r.value ==> columns[j] != name
  {
    if columns == [] then None
    else if columns[0] == name then Some(0)
    else match ColumnIndex(columns[1..], name)
      case None => None
      case Some(k) => Some(k + 1)
  }

  /** The text of one cell; a row shorter than the header reads as blank. */
  function CellAt(row: seq<string>, col: nat): string
  {
    if col < |row| then row[col] else ""
  }

  /** `table[name]`: the cells of a named column, one per row, or KeyError. */
  function Column(t: Table, name: string): (r: Result<seq<string>>)
    ensures r.Err? <==> name !in t.columns
    ensures r.Err? ==> r.error == KeyError
    ensures r.Ok? ==> |r.value| == |t.rows|
    ensures r.Ok? ==> forall i :: 0 <= i < |t.rows| ==>
              r.value[i] == CellAt(t.rows[i], ColumnIndex(t.columns, name).value)
  {
    match ColumnIndex(t.columns, name)
    case None => Err(KeyError)
    case Some(k) => Ok(seq(|t.rows|, i requires 0 <= i < |t.rows| => CellAt(t.rows[i], k)))
  }

  /** In a one-row table a column reads back as the row's cell under it. */
  lemma ColumnOfSingleRow(columns: seq<string>, row: seq<string>, name: string, k: nat)
    requires ColumnIndex(columns, name) == Some(k) && k < |row|
    ensures Column(Table(columns, [row]), name) == Ok([row[k]])
  {
    var cells := Column(Table(columns, [row]), name).value;
    assert |cells| == 1 && cells[0] == CellAt(row, k) == row[k];
    assert cells == [row[k]];
  }

  /** A file holding just the written row reads back as that row: the
      country, label and headlines cells under their header names, and the
      hit count through `int()`. */
  lemma InfoRowReadsBack(country: string, date: string, hits: nat, h: MonthHeadlines)
    ensures var t := Table(InfoColumns, [InfoRow(country, date, hits, h)]);
      Column(t, "Country Name") == Ok([country]) &&
      Column(t, "MM-YYYY") == Ok([date]) &&
      Column(t, "Month's Headlines") == Ok([HeadlinesCell(h)]) &&
      Column(t, "Number of Hits").Ok? && ParseInt(Column(t, "Number of Hits").value[0]) == Ok(hits)
  {
    var row := InfoRow(country, date, hits, h);
    assert ColumnIndex(InfoColumns, "Country Name") == Some(0);
    assert ColumnIndex(InfoColumns, "MM-YYYY") == Some(1);
    assert ColumnIndex(InfoColumns, "Number of Hits") == Some(2);
    assert ColumnIndex(InfoColumns, "Month's Headlines") == Some(3);
    ColumnOfSingleRow(InfoColumns, row, "Country Name", 0);
    ColumnOfSingleRow(InfoColumns, row, "MM-YYYY", 1);
    ColumnOfSingleRow(InfoColumns, row, "Number of Hits", 2);
    ColumnOfSingleRow(InfoColumns, row, "Month's Headlines", 3);
    ParseIntOfNatToString(hits);
  }

  /** `column.dropna().empty`: no cell of the column holds text. */
  predicate AllBlank(cells: seq<string>)
  {
    forall i :: 0 <= i < |cells| ==> cells[i] == ""
  }

  /** The table after `write_data_to_file`, from the table before it (None when
      the file does not exist). An existing table without a Country Name
      column raises KeyError and is left as it was. */
  function WriteRow(file: Option<Table>, row: seq<string>): Result<Table>
  {
    match file
    case None => Ok(Table(InfoColumns, [row]))
    case Some(t) =>
      match Column(t, "Country Name")
      case Err(e) => Err(e)
      case Ok(names) =>
        if AllBlank(names) then Ok(Table(InfoColumns, [row]))
        else Ok(Table(t.columns, t.rows + [row]))
  }

  /** True when the next write starts the table afresh. */
  predicate StartsAfresh(file: Option<Table>)
  {
    file.None? || (Column(file.value, "Country Name").Ok? && AllBlank(Column(file.value, "Country Name").value))
  }

  /** An absent table, or one whose Country Name column is blank, becomes
      exactly the new row under the write header. */
  lemma WriteRowStartsAfresh(file: Option<Table>, row: seq<string>)
    requires StartsAfresh(file)
    ensures WriteRow(file, row).Ok?
    ensures WriteRow(file, row).value.columns == InfoColumns
    ensures WriteRow(file, row).value.rows == [row]
  {
  }

  /** A table with some country name keeps its header and rows and gets the
      new row last. */
  lemma WriteRowAppends(t: Table, row: seq<string>)
    requires "Country Name" in t.columns
    requires !StartsAfresh(Some(t))
    ensures WriteRow(Some(t), row).Ok?
    ensures WriteRow(Some(t), row).value.columns == t.columns
    ensures |WriteRow(Some(t), row).value.rows| == |t.rows| + 1
    ensures WriteRow(Some(t), row).value.rows[..|t.rows|] == t.rows
    ensures WriteRow(Some(t), row).value.rows[|t.rows|] == row
  {
    var r := WriteRow(Some(t), row).value;
    assert r.rows == t.rows + [row];
  }

  /** A write fails exactly when an existing table has no Country Name
      column; then it raises KeyError. */
  lemma WriteRowFails(file: Option<Table>, row: seq<string>)
    ensures WriteRow(file, row).Err? <==> file.Some? && "Country Name" !in file.value.columns
    ensures WriteRow(file, row).Err? ==> WriteRow(file, row).error == KeyError
  {
  }

  /** The reset table holds one all-blank row of six columns. */
  lemma BlankTableShape()
    ensures |BlankTable.columns| == 6 && |BlankTable.rows| == 1
    ensures |BlankTable.rows[0]| == 6
    ensures forall i :: 0 <= i < 6 ==> BlankTable.rows[0][i] == ""
  {
  }

  /** After a reset, the next write starts the table afresh. */
  lemma WriteAfterReset(row: seq<string>)
    ensures StartsAfresh(Some(BlankTable))
    ensures WriteRow(Some(BlankTable), row) == Ok(Table(InfoColumns, [row]))
  {
    var names := Column(BlankTable, "Country Name").value;
    assert ColumnIndex(ResetColumns, "Country Name") == Some(0);
    assert names == [""];
  }

  /** A written row whose country name is not empty stops the next write
      from starting afresh. */
  lemma WrittenNameIsKept(file: Option<Table>, country: string, date: string, hits: nat, h: MonthHeadlines)
    requires country != ""
    requires WriteRow(file, InfoRow(country, date, hits, h)).Ok?
    ensures !StartsAfresh(Some(WriteRow(file, InfoRow(country, date, hits, h)).value))
  {
    var row := InfoRow(country, date, hits, h);
    var t := WriteRow(file, row).value;
    if StartsAfresh(file) {
      assert t == Table(InfoColumns, [row]);
      assert ColumnIndex(InfoColumns, "Country Name") == Some(0);
      assert Column(t, "Country Name").value[0] == country;
    } else {
      var k := ColumnIndex(file.value.columns, "Country Name").value;
      var oldNames := Column(file.value, "Country Name").value;
      var i :| 0 <= i < |oldNames| && oldNames[i] != "";
      assert t == Table(file.value.columns, file.value.rows + [row]);
      assert Column(t, "Country Name").value[i] == oldNames[i];
    }
  }

  /** The file stored under a country's name, None when there is none. */
  function FileIn(files: map<string, Table>, country: string): (r: Option<Table>)
    ensures r.Some? <==> country in files
    ensures r.Some? ==> r.value == files[country]
  {
    if country in files then Some(files[country]) else None
  }

  /**
   * The directory of country files. Each country's file is keyed by its name
   * (the file `CountryData/<country>_data.csv`).
   */
  class CountryData {
    var files: map<string, Table>

    constructor (initial: map<string, Table>)
      ensures files == initial
    {
      files := initial;
    }

    /** The file of a country, None when it does not exist. */
    function File(country: string): Option<Table>
      reads this
    {
      FileIn(files, country)
    }

    /** `write_data_to_file`: one row for one month, written over the file or
        appended to it; every other country's file is left as it was. */
    method WriteDataToFile(country: string, date: string, hits: nat, headlines: MonthHeadlines)
      returns (outcome: Outcome)
      modifies this
      ensures var w := WriteRow(old(File(country)), InfoRow(country, date, hits, headlines));
        match w
        case Ok(t) => outcome == Pass && files == old(files)[country := t]
        case Err(e) => outcome == Fail(e) && files == old(files)
    {
      var information := InfoRow(country, date, hits, headlines);
      if country in files {
        var existing := files[country];
        var names := Column(existing, "Country Name");
        if names.Err? {
          outcome := Fail(names.error);
          return;
        }
        if AllBlank(names.value) {
          files := files[country := Table(InfoColumns, [information])];
        } else {
          files := files[country := Table(existing.columns, existing.rows + [information])];
        }
      } else {
        files := files[country := Table(InfoColumns, [information])];
      }
      outcome := Pass;
    }

    /** `reset_data_entries`: the country's file becomes the blank table. */
    method ResetDataEntries(country: string)
      modifies this
      ensures files == old(files)[country := BlankTable]
      ensures File(country) == Some(BlankTable)
    {
      files := files[country := BlankTable];
    }
  }
}
