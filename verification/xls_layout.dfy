/** What the XlsTableUpdator constructor and readSheet compute from a sheet: the header names,
  * the header and config maps, the records and the id index. */
module XlsLayout {
  import opened Wrappers
  import opened TableRows
  import opened XlsSheet
  import opened JavaText

  const NULL_HEADER_ROW_MESSAGE: string := "Cannot invoke \"org.apache.poi.ss.usermodel.Row.spliterator()\" because \"header\" is null"

  const NO_SHEETS_MESSAGE: string := "Sheet index (0) is out of range (no sheets)"

  const MISSING_SHEET_MESSAGE: string := "Cannot find sheet with name and id: sheet="

  /** The name a header cell gives its column: the text DataFormatter shows for it, unless empty. */
  function ShownName(row: SheetRow, column: nat): Option<string> {
    match CellAt(row, column)
    case None => None
    case Some(cell) => if |cell.shown| == 0 then None else Some(cell.shown)
  }

  /** One of the first n cells of the row is in that column and shows that text. */
  predicate ShownAmong(row: SheetRow, n: nat, column: nat, name: string)
    requires n <= |row|
  {
    exists i | 0 <= i < n :: row[i].column == column && row[i].shown == name
  }

  /** The header row's (column, shown text) entries for cells whose shown text is not empty,
    * among its first n cells, in cell order. */
  function ShownEntries(row: SheetRow, n: nat): (r: seq<Named>)
    requires n <= |row|
    ensures forall i | 0 <= i < n && |row[i].shown| > 0 :: Named(row[i].column, row[i].shown) in r
  {
    if n == 0 then []
    else
      var rest := ShownEntries(row, n - 1);
      if |row[n - 1].shown| == 0 then rest else rest + [Named(row[n - 1].column, row[n - 1].shown)]
  }

  /** Every entry comes from one of the first n cells and its text is not empty. */
  lemma {:induction false} ShownEntriesFrom(row: SheetRow, n: nat, j: nat)
    requires n <= |row| && j < |ShownEntries(row, n)|
    ensures |ShownEntries(row, n)[j].name| > 0
    ensures ShownAmong(row, n, ShownEntries(row, n)[j].column, ShownEntries(row, n)[j].name)
    decreases n
  {
    var rest := ShownEntries(row, n - 1);
    var e := ShownEntries(row, n)[j];
    if j < |rest| {
      assert e == rest[j];
      ShownEntriesFrom(row, n - 1, j);
      var i :| 0 <= i < n - 1 && row[i].column == e.column && row[i].shown == e.name;
      assert ShownAmong(row, n, e.column, e.name) by {
        assert 0 <= i < n && row[i].column == e.column && row[i].shown == e.name;
      }
    } else {
      assert e == Named(row[n - 1].column, row[n - 1].shown);
      assert 0 <= n - 1 < n && row[n - 1].column == e.column && row[n - 1].shown == e.name;
    }
  }

  /** The cells' columns being distinct, so are the entries'. */
  lemma {:induction false} ShownEntriesDistinct(row: SheetRow, n: nat)
    requires n <= |row| && DistinctColumns(row)
    ensures DistinctEntryColumns(ShownEntries(row, n))
    decreases n
  {
    if n > 0 {
      ShownEntriesDistinct(row, n - 1);
      var rest := ShownEntries(row, n - 1);
      if |row[n - 1].shown| > 0 {
        var r := ShownEntries(row, n);
        forall j | 0 <= j < |rest|
          ensures rest[j].column != row[n - 1].column
        {
          ShownEntriesFrom(row, n - 1, j);
          var i :| 0 <= i < n - 1 && row[i].column == rest[j].column && row[i].shown == rest[j].name;
        }
        assert forall j | 0 <= j < |rest| :: r[j] == rest[j];
      }
    }
  }

  /** headerNames: for each column up to the last named one, the name of its header cell. */
  function HeaderNames(row: SheetRow): (r: seq<Option<string>>)
    requires DistinctColumns(row)
    ensures forall c | 0 <= c < |r| :: r[c] == ShownName(row, c)
    ensures forall i | 0 <= i < |row| && |row[i].shown| > 0 :: row[i].column < |r|
  {
    var r := SpareList(ShownEntries(row, |row|));
    ShownEntriesDistinct(row, |row|);
    HeaderNamesAreShownNames(row, ShownEntries(row, |row|), r);
    r
  }

  lemma HeaderNamesAreShownNames(row: SheetRow, entries: seq<Named>, r: seq<Option<string>>)
    requires DistinctColumns(row) && entries == ShownEntries(row, |row|) && r == SpareList(entries)
    ensures forall c | 0 <= c < |r| :: r[c] == ShownName(row, c)
    ensures forall i | 0 <= i < |row| && |row[i].shown| > 0 :: row[i].column < |r|
  {
    ShownEntriesDistinct(row, |row|);
    forall c | 0 <= c < |r|
      ensures r[c] == ShownName(row, c)
    {
      HeaderNameAt(row, entries, r, c);
    }
    forall i | 0 <= i < |row| && |row[i].shown| > 0
      ensures row[i].column < |r|
    {
      var j :| 0 <= j < |entries| && entries[j] == Named(row[i].column, row[i].shown);
    }
  }

  /** The name spareMapToList puts at one column is the shown text of that column's cell. */
  lemma HeaderNameAt(row: SheetRow, entries: seq<Named>, r: seq<Option<string>>, c: nat)
    requires DistinctColumns(row) && entries == ShownEntries(row, |row|) && DistinctEntryColumns(entries)
    requires r == SpareList(entries) && c < |r|
    ensures r[c] == ShownName(row, c)
  {
    var found := CellAt(row, c);
    if found.Some? && |found.value.shown| > 0 {
      var i :| 0 <= i < |row| && row[i] == found.value;
      var j :| 0 <= j < |entries| && entries[j] == Named(row[i].column, row[i].shown);
      assert r[entries[j].column] == Some(entries[j].name);
    } else {
      NoEntryAt(row, entries, c);
    }
  }

  /** A column without a cell, or whose cell shows nothing, has no entry. */
  lemma NoEntryAt(row: SheetRow, entries: seq<Named>, c: nat)
    requires DistinctColumns(row) && entries == ShownEntries(row, |row|)
    requires CellAt(row, c).None? || |CellAt(row, c).value.shown| == 0
    ensures forall j | 0 <= j < |entries| :: entries[j].column != c
  {
    forall j | 0 <= j < |entries|
      ensures entries[j].column != c
    {
      if CellAt(row, c).None? {
        ShownEntriesFrom(row, |row|, j);
      } else {
        var i :| 0 <= i < |row| && row[i] == CellAt(row, c).value;
        BlankHeaderCellHasNoEntry(row, entries, i, j);
      }
    }
  }

  /** A header cell that shows nothing gives no entry for its column. */
  lemma BlankHeaderCellHasNoEntry(row: SheetRow, entries: seq<Named>, i: nat, j: nat)
    requires DistinctColumns(row) && entries == ShownEntries(row, |row|)
    requires i < |row| && |row[i].shown| == 0 && j < |entries|
    ensures entries[j].column != row[i].column
  {
    ShownEntriesFrom(row, |row|, j);
    var i' :| 0 <= i' < |row| && row[i'].column == entries[j].column && row[i'].shown == entries[j].name;
  }

  /** A config name: a non-empty run of upper-case letters (StringUtils.isAlpha and
    * isAllUpperCase), restricted to ASCII. */
  predicate IsConfigName(v: string) {
    |v| > 0 && forall i | 0 <= i < |v| :: 'A' <= v[i] <= 'Z'
  }

  /** The config name row r carries: its Date cell, when that is a string cell holding a config name. */
  function ConfigName(sheet: Sheet, r: nat, datePosition: nat): Option<string>
    requires r < |sheet|
  {
    if sheet[r].None? then None
    else match CellAt(sheet[r].value, datePosition)
      case None => None
      case Some(cell) => if cell.cellType == StringType && IsConfigName(cell.content) then Some(cell.content) else None
  }

  function ConfigNames(sheet: Sheet, datePosition: nat): (r: seq<Option<string>>)
    ensures |r| == |sheet| && forall i | 0 <= i < |sheet| :: r[i] == ConfigName(sheet, i, datePosition)
  {
    seq(|sheet|, i requires 0 <= i < |sheet| => ConfigName(sheet, i, datePosition))
  }

  /** One of the first n cells of the row is in a column whose name is `name`. */
  predicate NamedAmong(names: seq<Option<string>>, row: SheetRow, n: nat, name: string)
    requires n <= |row|
  {
    exists i | 0 <= i < n :: row[i].column < |names| && names[row[i].column] == Some(name)
  }

  /** A record: each cell whose column has a name gives name -> its text (empty for null); cells
    * beyond the name array or under a null name are ignored. Only the first n cells are read. */
  function RecordOf(names: seq<Option<string>>, row: SheetRow, n: nat): (r: Row)
    requires n <= |row|
    ensures forall i | 0 <= i < n && row[i].column < |names| && names[row[i].column].Some? :: names[row[i].column].value in r
  {
    if n == 0 then map[]
    else
      var rest := RecordOf(names, row, n - 1);
      var cell := row[n - 1];
      if cell.column < |names| && names[cell.column].Some? then
        rest[names[cell.column].value := NullToEmpty(CellString(cell))]
      else rest
  }

  /** A record holds no name other than those of the columns of its cells. */
  lemma {:induction false} RecordOfKeys(names: seq<Option<string>>, row: SheetRow, n: nat, name: string)
    requires n <= |row| && name in RecordOf(names, row, n)
    ensures NamedAmong(names, row, n, name)
  {
    var cell := row[n - 1];
    if cell.column < |names| && names[cell.column].Some? && names[cell.column].value == name {
      assert row[n - 1].column < |names| && names[row[n - 1].column] == Some(name);
    } else {
      RecordOfKeys(names, row, n - 1, name);
      var i :| 0 <= i < n - 1 && row[i].column < |names| && names[row[i].column] == Some(name);
      assert 0 <= i < n;
    }
  }

  /** With distinct names and columns, each named cell's text is what the record holds under its
    * column's name. */
  lemma {:induction false} RecordOfValue(names: seq<Option<string>>, row: SheetRow, n: nat, i: nat)
    requires DistinctNames(names) && DistinctColumns(row)
    requires i < n <= |row| && row[i].column < |names| && names[row[i].column].Some?
    ensures RecordOf(names, row, n)[names[row[i].column].value] == NullToEmpty(CellString(row[i]))
  {
    var cell := row[n - 1];
    var name := names[row[i].column].value;
    if i == n - 1 {
      RecordOfNamed(names, row, n);
    } else {
      RecordOfValue(names, row, n - 1, i);
      assert row[i].column != cell.column;
      if cell.column < |names| && names[cell.column].Some? {
        DistinctNamesDiffer(names, row[i].column, cell.column);
        RecordOfNamed(names, row, n);
        UpdateOtherKey(RecordOf(names, row, n - 1), names[cell.column].value, NullToEmpty(CellString(cell)), name);
      } else {
        RecordOfUnnamed(names, row, n);
      }
    }
  }

  lemma UpdateOtherKey(m: Row, k: string, v: string, other: string)
    requires other in m && other != k
    ensures other in m[k := v] && m[k := v][other] == m[other]
  {
  }

  /** A cell in a named column is put over the record of the cells before it. */
  lemma RecordOfNamed(names: seq<Option<string>>, row: SheetRow, n: nat)
    requires 0 < n <= |row| && row[n - 1].column < |names| && names[row[n - 1].column].Some?
    ensures RecordOf(names, row, n) ==
      RecordOf(names, row, n - 1)[names[row[n - 1].column].value := NullToEmpty(CellString(row[n - 1]))]
  {
  }

  /** A cell in an unnamed column leaves the record unchanged. */
  lemma RecordOfUnnamed(names: seq<Option<string>>, row: SheetRow, n: nat)
    requires 0 < n <= |row| && !(row[n - 1].column < |names| && names[row[n - 1].column].Some?)
    ensures RecordOf(names, row, n) == RecordOf(names, row, n - 1)
  {
  }

  /** Two different positions of distinct names hold different names. */
  lemma DistinctNamesDiffer(names: seq<Option<string>>, a: nat, b: nat)
    requires DistinctNames(names) && a < |names| && b < |names| && a != b
    requires names[a].Some? && names[b].Some?
    ensures names[a].value != names[b].value
  {
    if b < a {
      assert names[b].value != names[a].value;
    }
  }


  /** The records: one per row after the header, empty for a missing row. */
  function SheetRecords(sheet: Sheet, names: seq<Option<string>>): (r: seq<Row>)
    requires |sheet| >= 1
    ensures |r| == |sheet| - 1
    ensures forall k | 0 <= k < |r| :: sheet[k + 1].None? ==> r[k] == map[]
    ensures forall k | 0 <= k < |r| :: sheet[k + 1].Some? ==> r[k] == RecordOf(names, sheet[k + 1].value, |sheet[k + 1].value|)
  {
    seq(|sheet| - 1, k requires 0 <= k < |sheet| - 1 =>
      if sheet[k + 1].None? then map[] else RecordOf(names, sheet[k + 1].value, |sheet[k + 1].value|))
  }

  /** Everything the constructor keeps about the sheet it opened. */
  datatype Layout = Layout(
    sheetIndex: nat,
    headerNames: seq<Option<string>>,
    headers: map<string, nat>,
    configToRows: map<string, nat>,
    records: seq<Row>,
    keys: seq<Key>)

  /** Workbook.getSheet(name): the index of the first sheet whose name equals the given one
    * ignoring case, if any. */
  function FirstSheetNamed(workbook: Workbook, name: string): (r: Option<nat>)
    ensures r.None? <==> forall i | 0 <= i < |workbook| :: !EqualsIgnoreCase(workbook[i].0, name)
    ensures r.Some? ==>
      && r.value < |workbook| && EqualsIgnoreCase(workbook[r.value].0, name)
      && forall i | 0 <= i < r.value :: !EqualsIgnoreCase(workbook[i].0, name)
  {
    if |workbook| == 0 then None
    else if EqualsIgnoreCase(workbook[0].0, name) then Some(0)
    else
      var rest := FirstSheetNamed(workbook[1..], name);
      assert forall i | 1 <= i < |workbook| :: workbook[i] == workbook[1..][i - 1];
      if rest.None? then None else Some(rest.value + 1)
  }

  /** The sheet the constructor opens: the first one when no name is given (none at all is an
    * IllegalArgumentException from getSheetAt), otherwise the one named (IOException if none). */
  function SelectSheet(workbook: Workbook, sheetName: Option<string>, idColumn: string): (r: Result<nat>)
    ensures sheetName.None? ==> (r.Ok? <==> |workbook| > 0) && (r.Ok? ==> r.value == 0)
    ensures sheetName.None? && r.Err? ==> r.error.kind == IllegalArgument
    ensures sheetName.Some? ==> r == (match FirstSheetNamed(workbook, sheetName.value)
      case None => Fail(IO, MISSING_SHEET_MESSAGE + sheetName.value + " idColumns=" + idColumn)
      case Some(i) => Ok(i))
    ensures r.Ok? ==> r.value < |workbook|
  {
    match sheetName
    case None => if |workbook| == 0 then Fail(IllegalArgument, NO_SHEETS_MESSAGE) else Ok(0)
    case Some(name) =>
      match FirstSheetNamed(workbook, name)
      case None => Fail(IO, MISSING_SHEET_MESSAGE + name + " idColumns=" + idColumn)
      case Some(i) => Ok(i)
  }

  /** A sheet named "Index" is opened by the name "index". */
  lemma SheetNameIgnoresCase(sheet: Sheet)
    ensures SelectSheet([("Index", sheet)], Some("index"), "Name") == Ok(0)
  {
    assert AsciiUpper("index"[0]) == 'I';
    assert EqualsIgnoreCase("Index", "index");
  }

  /** The checks and maps of the constructor once the header names are known, in its order:
    * a repeated header name (IllegalArgumentException), no "Date" header (IOException), no id
    * header (IllegalArgumentException), a repeated config name and a repeated non-empty id
    * (IllegalArgumentException from ImmutableMap). */
  function LayoutOf(workbook: Workbook, index: nat, names: seq<Option<string>>, idColumn: string): (r: Result<Layout>)
    requires index < |workbook| && |workbook[index].1| >= 1
    ensures !DistinctNames(names) ==> r.Err? && r.error.kind == IllegalArgument
    ensures DistinctNames(names) && Some("Date") !in names ==> r.Err? && r.error.kind == IO
    ensures DistinctNames(names) && Some("Date") in names && Some(idColumn) !in names ==>
      r.Err? && r.error.kind == IllegalArgument
    ensures r.Err? ==> r.error.kind in {IllegalArgument, IO}
    ensures r.Ok? ==>
      && HeadersOf(r.value, names) && ConfigsOf(r.value, workbook[index].1)
      && r.value.sheetIndex == index && r.value.headerNames == names
      && r.value.records == SheetRecords(workbook[index].1, names)
      && IsIndexOf(r.value.keys, r.value.records, idColumn) && Distinct(Ids(r.value.keys))
      && idColumn in r.value.headers
  {
    var sheet := workbook[index].1;
    var headers :- PositionMap(names);
    if "Date" !in headers then
      Fail(IO, "Header not found: Date")
    else if idColumn !in headers then
      Fail(IllegalArgument, "Key not found in XLS file: " + idColumn)
    else
      var configToRows :- PositionMap(ConfigNames(sheet, headers["Date"]));
      var records := SheetRecords(sheet, names);
      var keys :- IndexById(records, idColumn);
      var layout := Layout(index, names, headers, configToRows, records, keys);
      LayoutMaps(layout, sheet);
      Ok(layout)
  }

  /** The two position maps of a layout are its header map and its config map. */
  lemma LayoutMaps(layout: Layout, sheet: Sheet)
    requires PositionMap(layout.headerNames) == Ok(layout.headers) && "Date" in layout.headers
    requires PositionMap(ConfigNames(sheet, layout.headers["Date"])) == Ok(layout.configToRows)
    ensures HeadersOf(layout, layout.headerNames) && ConfigsOf(layout, sheet)
  {
    var names := ConfigNames(sheet, layout.headers["Date"]);
    forall r | 0 <= r < |sheet| && ConfigName(sheet, r, layout.headers["Date"]).Some?
      ensures ConfigName(sheet, r, layout.headers["Date"]).value in layout.configToRows
      ensures layout.configToRows[ConfigName(sheet, r, layout.headers["Date"]).value] == r
    {
      assert names[r] == ConfigName(sheet, r, layout.headers["Date"]);
    }
    forall name | name in layout.configToRows
      ensures layout.configToRows[name] < |sheet|
      ensures ConfigName(sheet, layout.configToRows[name], layout.headers["Date"]) == Some(name)
    {
      assert names[layout.configToRows[name]] == Some(name);
    }
  }

  /** The header map of a layout: each header name with its column, "Date" among them. */
  predicate HeadersOf(layout: Layout, names: seq<Option<string>>) {
    && (forall c | 0 <= c < |names| && names[c].Some? :: names[c].value in layout.headers && layout.headers[names[c].value] == c)
    && (forall name | name in layout.headers :: layout.headers[name] < |names| && names[layout.headers[name]] == Some(name))
    && "Date" in layout.headers
  }

  /** The config map of a layout: exactly the rows whose Date cell holds a config name. */
  predicate ConfigsOf(layout: Layout, sheet: Sheet)
    requires "Date" in layout.headers
  {
    && (forall r | 0 <= r < |sheet| && ConfigName(sheet, r, layout.headers["Date"]).Some? ::
          var name := ConfigName(sheet, r, layout.headers["Date"]).value;
          name in layout.configToRows && layout.configToRows[name] == r)
    && (forall name | name in layout.configToRows ::
          layout.configToRows[name] < |sheet| && ConfigName(sheet, layout.configToRows[name], layout.headers["Date"]) == Some(name))
  }

  /** The constructor: select the sheet, read the header row (a missing row 0 is a
    * NullPointerException), then build the maps. */
  function LoadTable(workbook: Workbook, sheetName: Option<string>, idColumn: string): (r: Result<Layout>)
    requires WellFormedWorkbook(workbook)
    ensures SelectSheet(workbook, sheetName, idColumn).Err? ==> r == Err(SelectSheet(workbook, sheetName, idColumn).error)
    ensures r.Ok? ==> r.value.sheetIndex == SelectSheet(workbook, sheetName, idColumn).value
    ensures r.Ok? ==> Fits(r.value, workbook[r.value.sheetIndex].1)
    ensures r.Ok? ==>
      var sheet := workbook[r.value.sheetIndex].1;
      && |sheet| >= 1 && sheet[0].Some? && r.value.headerNames == HeaderNames(sheet[0].value)
      && HeadersOf(r.value, r.value.headerNames) && ConfigsOf(r.value, sheet)
      && r.value.records == SheetRecords(sheet, r.value.headerNames)
      && IsIndexOf(r.value.keys, r.value.records, idColumn) && idColumn in r.value.headers
  {
    var index :- SelectSheet(workbook, sheetName, idColumn);
    var sheet := workbook[index].1;
    if |sheet| == 0 || sheet[0].None? then
      Fail(NullPointer, NULL_HEADER_ROW_MESSAGE)
    else
      var r := LayoutOf(workbook, index, HeaderNames(sheet[0].value), idColumn);
      if r.Ok? then
        LayoutFits(r.value, sheet, idColumn);
        r
      else r
  }

  /** What the class relies on to stay well defined: every indexed id names an existing row after
    * the header (the k-th record is sheet row k + 1), and every config names an existing row. */
  predicate Fits(layout: Layout, sheet: Sheet) {
    && Distinct(Ids(layout.keys))
    && (forall k | 0 <= k < |layout.keys| ::
          layout.keys[k].position < |layout.records|
          && layout.keys[k].position + 1 < |sheet| && sheet[layout.keys[k].position + 1].Some?)
    && (forall name | name in layout.configToRows ::
          layout.configToRows[name] < |sheet| && sheet[layout.configToRows[name]].Some?)
  }

  lemma LayoutFits(layout: Layout, sheet: Sheet, idColumn: string)
    requires |sheet| >= 1 && "Date" in layout.headers
    requires layout.records == SheetRecords(sheet, layout.headerNames)
    requires IsIndexOf(layout.keys, layout.records, idColumn) && Distinct(Ids(layout.keys))
    requires ConfigsOf(layout, sheet)
    ensures Fits(layout, sheet)
  {
    forall k | 0 <= k < |layout.keys|
      ensures sheet[layout.keys[k].position + 1].Some?
    {
      var p := layout.keys[k].position;
      assert HasId(layout.records[p], idColumn);
    }
  }
}
