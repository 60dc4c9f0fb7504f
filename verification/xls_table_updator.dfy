/** table/XlsTableUpdator: an index table kept in the first (or a named) sheet of an XLSX
  * workbook. The constructor reads the header names, the header and config maps, the records
  * and the id index once; setValue writes into the workbook's cells, which the config and URL
  * reads and save() see, while listEntries and getOptionalValue keep answering from the records
  * read at load time. Reading and writing the file are not part of this model: the workbook is
  * given as its parsed sheets and save() records the workbook it would write. */
module XlsTableUpdatorModel {
  import opened Wrappers
  import opened JavaText
  import opened TableRows
  import opened XlsSheet
  import opened XlsLayout
  import opened IndexReader

  const NULL_CONFIG_ROW_MESSAGE: string := "Cannot invoke \"java.lang.Integer.intValue()\" because the return value of \"java.util.Map.get(Object)\" is null"

  const UNKNOWN_COLUMN_MESSAGE: string := "Trying to access unknown column: "
  const INVALID_ID_MESSAGE: string := "Trying to access invalid id: "

  /** cell.setCellValue(String): a formula cell keeps its formula (only its cached result
    * changes, which neither getCellString nor DataFormatter shows); any other cell becomes a
    * string cell holding the value. Column and hyperlink stay. */
  function Written(cell: Cell, value: string): (r: Cell)
    ensures r.column == cell.column && r.hyperlink == cell.hyperlink
    ensures cell.cellType == FormulaType ==> r == cell
    ensures cell.cellType != FormulaType ==>
      r.cellType == StringType && r.content == value && r.shown == value
    ensures cell.cellType != FormulaType ==> CellString(r) == Some(value)
  {
    if cell.cellType == FormulaType then cell
    else Cell(cell.column, StringType, value, value, cell.hyperlink)
  }

  /** The cell getCell(column, CREATE_NULL_AS_BLANK) creates when the row has none. */
  function BlankCell(column: nat): Cell {
    Cell(column, BlankType, "", "", None)
  }

  /** upsertCell(id, key).setCellValue(value) on the row: the cell in that column (a new blank
    * one if there is none) is written; every other column keeps its cell. */
  function UpsertRow(row: SheetRow, column: nat, value: string): (r: SheetRow)
    ensures CellAt(r, column) == Some(Written(CellAt(row, column).GetOr(BlankCell(column)), value))
    ensures forall c | c != column :: CellAt(r, c) == CellAt(row, c)
  {
    if |row| == 0 then [Written(BlankCell(column), value)]
    else if row[0].column == column then
      var r := [Written(row[0], value)] + row[1..];
      assert r[1..] == row[1..];
      r
    else
      var rest := UpsertRow(row[1..], column, value);
      var r := [row[0]] + rest;
      assert r[1..] == rest;
      r
  }

  /** A row with a cell in front has distinct columns when the rest has and lacks that cell's column. */
  lemma DistinctCons(x: Cell, rest: SheetRow)
    ensures DistinctColumns([x] + rest) <==> DistinctColumns(rest) && CellAt(rest, x.column).None?
  {
    var row := [x] + rest;
    assert forall i | 0 <= i < |rest| :: row[i + 1] == rest[i];
    if DistinctColumns(row) {
      forall i | 0 <= i < |rest|
        ensures rest[i].column != x.column
      {
        assert row[0].column != row[i + 1].column;
      }
    }
  }

  /** Upserting keeps the columns of a row distinct. */
  lemma {:induction false} UpsertRowDistinct(row: SheetRow, column: nat, value: string)
    requires DistinctColumns(row)
    ensures DistinctColumns(UpsertRow(row, column, value))
  {
    if |row| > 0 {
      assert row == [row[0]] + row[1..];
      DistinctCons(row[0], row[1..]);
      if row[0].column == column {
        DistinctCons(Written(row[0], value), row[1..]);
      } else {
        UpsertRowDistinct(row[1..], column, value);
        DistinctCons(row[0], UpsertRow(row[1..], column, value));
      }
    }
  }


  /** What setValue writes into a non-formula cell is what the row reads back as under that
    * column's name, whichever name array (the constructor's or readSheet's) reads it. */
  lemma WrittenValueReadsBack(names: seq<Option<string>>, row: SheetRow, column: nat, value: string)
    requires DistinctNames(names) && DistinctColumns(row)
    requires column < |names| && names[column].Some?
    requires CellAt(row, column).None? || CellAt(row, column).value.cellType != FormulaType
    ensures var after := UpsertRow(row, column, value);
      names[column].value in RecordOf(names, after, |after|)
      && RecordOf(names, after, |after|)[names[column].value] == value
  {
    var after := UpsertRow(row, column, value);
    UpsertRowDistinct(row, column, value);
    var cell := CellAt(after, column).value;
    var i :| 0 <= i < |after| && after[i] == cell;
    RecordOfValue(names, after, |after|, i);
  }

  /** The sheet once a cell of one of its existing rows has been upserted. */
  function UpsertSheet(sheet: Sheet, rowIndex: nat, column: nat, value: string): (r: Sheet)
    requires rowIndex < |sheet| && sheet[rowIndex].Some?
    ensures |r| == |sheet| && r[rowIndex] == Some(UpsertRow(sheet[rowIndex].value, column, value))
    ensures forall q | 0 <= q < |sheet| && q != rowIndex :: r[q] == sheet[q]
    ensures WellFormedSheet(sheet) ==> WellFormedSheet(r)
  {
    var r := sheet[rowIndex := Some(UpsertRow(sheet[rowIndex].value, column, value))];
    assert WellFormedSheet(sheet) ==> WellFormedSheet(r) by {
      if WellFormedSheet(sheet) {
        UpsertRowDistinct(sheet[rowIndex].value, column, value);
      }
    }
    r
  }

  /** Writing a cell of an existing row keeps the workbook well formed and the layout fitting it. */
  lemma UpsertKeepsLayout(layout: Layout, workbook: Workbook, rowIndex: nat, column: nat, value: string)
    requires WellFormedWorkbook(workbook) && layout.sheetIndex < |workbook|
    requires Fits(layout, workbook[layout.sheetIndex].1)
    requires rowIndex < |workbook[layout.sheetIndex].1| && workbook[layout.sheetIndex].1[rowIndex].Some?
    ensures var sheet := UpsertSheet(workbook[layout.sheetIndex].1, rowIndex, column, value);
      var after := workbook[layout.sheetIndex := (workbook[layout.sheetIndex].0, sheet)];
      WellFormedWorkbook(after) && Fits(layout, after[layout.sheetIndex].1)
  {
  }

  class XlsTableUpdator {
    const filePath: string
    const idColumn: string
    /** What the constructor read: the sheet's index, headerNames, headers, configToRows,
      * records, and the id index behind `values` and `idToRow`. */
    const layout: Layout
    /** The workbook as setValue leaves it. */
    var workbook: Workbook
    /** The workbook the last save() wrote, None before the first save(). */
    var written: Option<Workbook>

    ghost predicate Valid()
      reads this
    {
      && WellFormedWorkbook(workbook)
      && layout.sheetIndex < |workbook|
      && Fits(layout, workbook[layout.sheetIndex].1)
      && HeadersOf(layout, layout.headerNames) && idColumn in layout.headers
    }

    constructor Load(filePath: string, idColumn: string, workbook: Workbook, layout: Layout)
      requires WellFormedWorkbook(workbook) && layout.sheetIndex < |workbook|
      requires Fits(layout, workbook[layout.sheetIndex].1)
      requires HeadersOf(layout, layout.headerNames) && idColumn in layout.headers
      ensures Valid()
      ensures this.filePath == filePath && this.idColumn == idColumn
      ensures this.workbook == workbook && this.layout == layout && written == None
    {
      this.filePath := filePath;
      this.idColumn := idColumn;
      this.workbook := workbook;
      this.layout := layout;
      written := None;
    }

    /** The sheet the table lives in, as it is now. */
    function CurrentSheet(): (sheet: Sheet)
      requires Valid()
      reads this
      ensures sheet == workbook[layout.sheetIndex].1 && WellFormedSheet(sheet)
    {
      workbook[layout.sheetIndex].1
    }

    /** listEntries(): the `values` map, each indexed id with its load-time record. */
    function ListEntries(): (r: seq<Entry>)
      requires Valid()
      reads this
      ensures |r| == |layout.keys|
      ensures forall k | 0 <= k < |layout.keys| :: r[k] == Entry(layout.keys[k].id, layout.records[layout.keys[k].position])
    {
      Entries(layout.keys, layout.records)
    }

    /** The inherited getHeaders(): the header map the constructor assigned, which names the
      * id column and "Date" and maps each header name to its column. */
    function GetHeaders(): (r: Option<map<string, nat>>)
      requires Valid()
      reads this
      ensures r.Some? && idColumn in r.value && "Date" in r.value
      ensures r.Some? ==> forall name | name in r.value ::
        r.value[name] < |layout.headerNames| && layout.headerNames[r.value[name]] == Some(name)
    {
      Some(layout.headers)
    }

    /** getOptionalValue(id, key): the load-time record's value, null for an unknown id or a
      * column the record does not have. */
    function GetOptionalValue(id: string, column: string): (r: Option<string>)
      requires Valid()
      reads this
      ensures r.Some? <==> Lookup(layout.keys, id).Some? && column in layout.records[Lookup(layout.keys, id).value]
      ensures r.Some? ==> r.value == layout.records[Lookup(layout.keys, id).value][column]
    {
      OptionalValue(layout.keys, layout.records, id, column)
    }

    /** idToRow.get(id): the sheet row of the record indexed under that id, one past its
      * position among the records. */
    function IdToRow(id: string): (r: Option<nat>)
      requires Valid()
      reads this
      ensures r.Some? <==> Lookup(layout.keys, id).Some?
      ensures r.Some? ==> r.value == Lookup(layout.keys, id).value + 1
      ensures r.Some? ==> 1 <= r.value < |CurrentSheet()| && CurrentSheet()[r.value].Some?
    {
      match Lookup(layout.keys, id)
      case None => None
      case Some(p) =>
        var k :| 0 <= k < |layout.keys| && layout.keys[k].id == id && layout.keys[k].position == p;
        Some(p + 1)
    }

    /** getOptionalCell(id, key): IllegalArgumentException for an unknown id, and for an unknown
      * column (the null column index fails to unbox); otherwise the row's cell, if any. */
    function GetOptionalCell(id: string, column: string): (r: Result<Option<Cell>>)
      requires Valid()
      reads this
      ensures IdToRow(id).None? ==> r == Fail(IllegalArgument, INVALID_ID_MESSAGE + id)
      ensures IdToRow(id).Some? && column !in layout.headers ==>
        r == Fail(IllegalArgument, UNKNOWN_COLUMN_MESSAGE + "id=" + id + " key=" + column)
      ensures r.Ok? <==> IdToRow(id).Some? && column in layout.headers
      ensures r.Ok? && r.value.Some? ==>
        r.value.value in CurrentSheet()[IdToRow(id).value].value && r.value.value.column == layout.headers[column]
      ensures r.Ok? && r.value.None? ==>
        forall i | 0 <= i < |CurrentSheet()[IdToRow(id).value].value| ::
          CurrentSheet()[IdToRow(id).value].value[i].column != layout.headers[column]
    {
      match IdToRow(id)
      case None => Fail(IllegalArgument, INVALID_ID_MESSAGE + id)
      case Some(row) =>
        if column !in layout.headers then Fail(IllegalArgument, UNKNOWN_COLUMN_MESSAGE + "id=" + id + " key=" + column)
        else Ok(CellAt(CurrentSheet()[row].value, layout.headers[column]))
    }

    /** getUrl(id, key) and getOptionalUrl(id, key): the address of the cell's hyperlink, null
      * (empty) when the cell or its hyperlink is missing. */
    function GetUrl(id: string, column: string): (r: Result<Option<string>>)
      requires Valid()
      reads this
      ensures r.Ok? <==> GetOptionalCell(id, column).Ok?
      ensures r.Err? ==> r.error == GetOptionalCell(id, column).error
      ensures r.Ok? ==> (r.value.Some? <==> GetOptionalCell(id, column).value.Some? && GetOptionalCell(id, column).value.value.hyperlink.Some?)
      ensures r.Ok? && r.value.Some? ==> r.value == GetOptionalCell(id, column).value.value.hyperlink
    {
      var cell :- GetOptionalCell(id, column);
      Ok(if cell.Some? then cell.value.hyperlink else None)
    }

    /** getOptionalConfig(config, key): the text the cell in column `key` of the config row
      * shows, empty when there is no such config, no such cell or the cell shows nothing; an
      * unknown column is a NullPointerException from unboxing its null index. */
    function GetOptionalConfig(config: string, column: string): (r: Result<Option<string>>)
      requires Valid()
      reads this
      ensures config !in layout.configToRows ==> r == Ok(None)
      ensures config in layout.configToRows && column !in layout.headers ==> r.Err? && r.error.kind == NullPointer
      ensures r.Ok? <==> config !in layout.configToRows || column in layout.headers
      ensures r.Ok? && r.value.Some? ==>
        && config in layout.configToRows && column in layout.headers
        && |r.value.value| > 0
        && CellAt(CurrentSheet()[layout.configToRows[config]].value, layout.headers[column]) != None
        && CellAt(CurrentSheet()[layout.configToRows[config]].value, layout.headers[column]).value.shown == r.value.value
      ensures r.Ok? && r.value.None? && config in layout.configToRows ==>
        match CellAt(CurrentSheet()[layout.configToRows[config]].value, layout.headers[column])
        case None => true
        case Some(cell) => |cell.shown| == 0
    {
      if config !in layout.configToRows then Ok(None)
      else if column !in layout.headers then
        Fail(NullPointer, NULL_CONFIG_ROW_MESSAGE)
      else
        match CellAt(CurrentSheet()[layout.configToRows[config]].value, layout.headers[column])
        case None => Ok(None)
        case Some(cell) => if |cell.shown| == 0 then Ok(None) else Ok(Some(cell.shown))
    }

    /** getConfig(config, key): getOptionalConfig, with an empty answer an
      * IllegalArgumentException. */
    function GetConfig(config: string, column: string): (r: Result<string>)
      requires Valid()
      reads this
      ensures GetOptionalConfig(config, column).Err? ==> r == Err(GetOptionalConfig(config, column).error)
      ensures GetOptionalConfig(config, column) == Ok(None) ==>
        r == Fail(IllegalArgument, "No config found for key: config=" + config + " key=" + column)
      ensures r.Ok? <==> GetOptionalConfig(config, column).Ok? && GetOptionalConfig(config, column).value.Some?
      ensures r.Ok? ==> GetOptionalConfig(config, column) == Ok(Some(r.value)) && |r.value| > 0
    {
      var found :- GetOptionalConfig(config, column);
      if found.None? then Fail(IllegalArgument, "No config found for key: config=" + config + " key=" + column)
      else Ok(found.value)
    }

    /** setValue(id, key, value): every failure of upsertCell (unknown id, unknown column)
      * surfaces as IllegalArgumentException "Trying to access unknown column"; otherwise the
      * id's row gets the cell written, and nothing else in the workbook changes. The records
      * read at load time, and so listEntries and getOptionalValue, do not change. */
    method SetValue(id: string, column: string, value: string) returns (outcome: Outcome)
      requires Valid()
      modifies this
      ensures Valid()
      ensures outcome.Pass? <==> old(IdToRow(id)).Some? && column in layout.headers
      ensures outcome.Failure? ==>
        && outcome.error == Error(IllegalArgument, UNKNOWN_COLUMN_MESSAGE + "id=" + id + " key=" + column)
        && workbook == old(workbook)
      ensures outcome.Pass? ==>
        var row := old(IdToRow(id)).value;
        var sheet := old(CurrentSheet());
        workbook == old(workbook)[layout.sheetIndex := (old(workbook)[layout.sheetIndex].0,
          UpsertSheet(sheet, row, layout.headers[column], value))]
      ensures outcome.Pass? ==>
        GetOptionalCell(id, column) == Ok(Some(Written(old(GetOptionalCell(id, column)).value.GetOr(BlankCell(layout.headers[column])), value)))
      ensures (outcome.Pass? && |value| > 0
        && old(GetOptionalCell(id, column)).value.GetOr(BlankCell(layout.headers[column])).cellType != FormulaType) ==>
        forall config | config in layout.configToRows && layout.configToRows[config] == old(IdToRow(id)).value ::
          GetOptionalConfig(config, column) == Ok(Some(value))
      ensures ListEntries() == old(ListEntries()) && GetOptionalValue(id, column) == old(GetOptionalValue(id, column))
      ensures written == old(written)
    {
      var row := IdToRow(id);
      if row.None? || column !in layout.headers {
        return Failure(Error(IllegalArgument, UNKNOWN_COLUMN_MESSAGE + "id=" + id + " key=" + column));
      }
      var sheet := UpsertSheet(CurrentSheet(), row.value, layout.headers[column], value);
      UpsertKeepsLayout(layout, workbook, row.value, layout.headers[column], value);
      workbook := workbook[layout.sheetIndex := (workbook[layout.sheetIndex].0, sheet)];
      return Pass;
    }

    /** save(): writes the workbook as it now is. */
    method Save()
      requires Valid()
      modifies this
      ensures Valid() && workbook == old(workbook)
      ensures written == Some(workbook)
    {
      written := Some(workbook);
    }
  }

  /** The constructor: LoadTable's checks and maps, with the header names filled in by
    * spareMapToList over the header row's non-empty shown texts. */
  method Open(filePath: string, workbook: Workbook, sheetName: Option<string>, idColumn: string)
    returns (r: Result<XlsTableUpdator>)
    requires WellFormedWorkbook(workbook)
    ensures r.Ok? <==> LoadTable(workbook, sheetName, idColumn).Ok?
    ensures r.Err? ==> r.error == LoadTable(workbook, sheetName, idColumn).error
    ensures r.Ok? ==>
      && fresh(r.value) && r.value.Valid()
      && r.value.layout == LoadTable(workbook, sheetName, idColumn).value
      && r.value.workbook == workbook && r.value.written == None
      && r.value.filePath == filePath && r.value.idColumn == idColumn
  {
    var index := SelectSheet(workbook, sheetName, idColumn);
    if index.Err? {
      return Err(index.error);
    }
    var sheet := workbook[index.value].1;
    if |sheet| == 0 || sheet[0].None? {
      return Fail(NullPointer, "Cannot invoke \"org.apache.poi.ss.usermodel.Row.spliterator()\" because \"header\" is null");
    }
    var header := sheet[0].value;
    var names := SpareMapToList(ShownEntries(header, |header|));
    assert names[..] == HeaderNames(header);
    var layout := LayoutOf(workbook, index.value, names[..], idColumn);
    assert layout == LoadTable(workbook, sheetName, idColumn);
    if layout.Err? {
      return Err(layout.error);
    }
    var table := new XlsTableUpdator.Load(filePath, idColumn, workbook, layout.value);
    return Ok(table);
  }

  /** The record at position p with a non-empty id is indexed under that id, and idToRow sends
    * the id to sheet row p + 1, the row the record was read from. */
  lemma RecordRow(workbook: Workbook, sheetName: Option<string>, idColumn: string, p: nat)
    requires WellFormedWorkbook(workbook) && LoadTable(workbook, sheetName, idColumn).Ok?
    requires p < |LoadTable(workbook, sheetName, idColumn).value.records|
    requires HasId(LoadTable(workbook, sheetName, idColumn).value.records[p], idColumn)
    ensures var layout := LoadTable(workbook, sheetName, idColumn).value;
      var sheet := workbook[layout.sheetIndex].1;
      && Lookup(layout.keys, layout.records[p][idColumn]) == Some(p)
      && p + 1 < |sheet| && sheet[p + 1].Some?
      && layout.records[p] == RecordOf(layout.headerNames, sheet[p + 1].value, |sheet[p + 1].value|)
  {
    var layout := LoadTable(workbook, sheetName, idColumn).value;
    var k :| 0 <= k < |layout.keys| && layout.keys[k].position == p;
    LookupOfKey(layout.keys, k);
  }

  /** readIndex over an XLS table checks its keys against the sheet's header names. */
  lemma ReadIndexOverXlsTable(table: XlsTableUpdator, exhibitKeys: seq<string>)
    requires table.Valid()
    ensures ReadIndex(table.GetHeaders(), table.ListEntries(), Some(exhibitKeys)).Ok?
      <==> forall k | 0 <= k < |exhibitKeys| :: ExhColumn(exhibitKeys[k]) in table.layout.headers
  {
  }
}
