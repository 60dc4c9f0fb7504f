/** XlsTableUpdator.readSheet(name, key): another sheet of the workbook read as a map from
  * each non-empty key value to its row. Unlike the constructor, it names the columns by
  * getCellString of every header cell and walks only the rows that exist. */
module XlsReadSheet {
  import opened Wrappers
  import opened JavaText
  import opened TableRows
  import opened XlsSheet
  import opened XlsLayout


  /** The sheet readSheet opened, its column names and its header map. */
  datatype HeaderRead = HeaderRead(sheet: Sheet, names: seq<Option<string>>, headers: map<string, nat>)

  /** Every cell has a getCellString (none is blank or of another type). */
  predicate AllStrings(row: SheetRow) {
    forall i | 0 <= i < |row| :: CellString(row[i]).Some?
  }

  /** The (column, getCellString) entry of each header cell, in cell order. */
  function ContentEntries(row: SheetRow): (r: seq<Named>)
    ensures |r| == |row| && forall i | 0 <= i < |row| :: r[i] == Named(row[i].column, row[i].content)
    ensures DistinctColumns(row) ==> DistinctEntryColumns(r)
  {
    seq(|row|, i requires 0 <= i < |row| => Named(row[i].column, row[i].content))
  }

  /** The header part of readSheet: no such sheet is a FileNotFoundException, a missing row 0
    * a NullPointerException, and so is a header cell without a string (ImmutableMap refuses a
    * null value); a repeated name and a missing key column are IllegalArgumentExceptions. */
  function ReadHeader(workbook: Workbook, name: string, key: string): (r: Result<HeaderRead>)
    ensures FirstSheetNamed(workbook, name).None? ==> r == Fail(FileNotFound, "Sheet not found: sheet=" + name)
    ensures r.Err? ==> r.error.kind in {FileNotFound, NullPointer, IllegalArgument}
    ensures r.Ok? ==>
      && FirstSheetNamed(workbook, name).Some?
      && r.value.sheet == workbook[FirstSheetNamed(workbook, name).value].1
      && |r.value.sheet| >= 1 && r.value.sheet[0].Some? && AllStrings(r.value.sheet[0].value)
      && r.value.names == SpareList(ContentEntries(r.value.sheet[0].value))
      && PositionMap(r.value.names) == Ok(r.value.headers)
      && key in r.value.headers
  {
    match FirstSheetNamed(workbook, name)
    case None => Fail(FileNotFound, "Sheet not found: sheet=" + name)
    case Some(index) =>
      var sheet := workbook[index].1;
      if |sheet| == 0 || sheet[0].None? then
        Fail(NullPointer, NULL_HEADER_ROW_MESSAGE)
      else if !AllStrings(sheet[0].value) then
        Fail(NullPointer, "null value in entry")
      else
        var names := SpareList(ContentEntries(sheet[0].value));
        var headers :- PositionMap(names);
        if key !in headers then Fail(IllegalArgument, "Key not found in XLS file: sheet=" + name + " key=" + key)
        else Ok(HeaderRead(sheet, names, headers))
  }

  /** Each header cell's text names its column, the header map sends it back to that column,
    * and the map holds nothing else. */
  predicate HeaderNamed(header: SheetRow, names: seq<Option<string>>, headers: map<string, nat>) {
    && DistinctNames(names)
    && (forall i | 0 <= i < |header| ::
          && header[i].column < |names| && names[header[i].column] == Some(header[i].content)
          && header[i].content in headers && headers[header[i].content] == header[i].column)
    && (forall column | column in headers ::
          headers[column] < |names| && names[headers[column]] == Some(column))
  }

  lemma HeaderNamesOfRow(header: SheetRow, names: seq<Option<string>>, headers: map<string, nat>)
    requires DistinctColumns(header)
    requires names == SpareList(ContentEntries(header)) && PositionMap(names) == Ok(headers)
    ensures HeaderNamed(header, names, headers)
  {
    var entries := ContentEntries(header);
    assert DistinctEntryColumns(entries);
    forall i | 0 <= i < |header|
      ensures && header[i].column < |names| && names[header[i].column] == Some(header[i].content)
              && header[i].content in headers && headers[header[i].content] == header[i].column
    {
      var c := header[i].column;
      assert entries[i] == Named(c, header[i].content);
      assert names[c] == Some(header[i].content);
    }
  }

  /** Once the header is read, its cells and the header map agree. */
  lemma ReadHeaderNames(workbook: Workbook, name: string, key: string)
    requires WellFormedWorkbook(workbook) && ReadHeader(workbook, name, key).Ok?
    ensures var read := ReadHeader(workbook, name, key).value;
      |read.sheet| >= 1 && read.sheet[0].Some? && HeaderNamed(read.sheet[0].value, read.names, read.headers)
  {
    var read := ReadHeader(workbook, name, key).value;
    var index := FirstSheetNamed(workbook, name).value;
    assert WellFormedSheet(workbook[index].1);
    HeaderNamesOfRow(read.sheet[0].value, read.names, read.headers);
  }

  /** The rows that exist, in row order (the sheet's row iterator). */
  function PresentRows(rows: seq<Option<SheetRow>>): (r: seq<SheetRow>)
    ensures |r| <= |rows|
    ensures forall row :: row in r <==> Some(row) in rows
  {
    if |rows| == 0 then []
    else
      var rest := PresentRows(rows[1..]);
      assert forall row :: Some(row) in rows <==> rows[0] == Some(row) || Some(row) in rows[1..];
      if rows[0].Some? then [rows[0].value] + rest else rest
  }

  /** Some existing row of `rows` reads as that record. */
  predicate ReadFromSomeRow(rows: seq<Option<SheetRow>>, names: seq<Option<string>>, record: Row) {
    exists p | 0 <= p < |rows| :: rows[p].Some? && record == RecordOf(names, rows[p].value, |rows[p].value|)
  }

  /** The record of every existing row after the header, in row order. */
  function DataRecords(read: HeaderRead): (r: seq<Row>)
    requires |read.sheet| >= 1
    ensures forall record :: record in r <==> ReadFromSomeRow(read.sheet[1..], read.names, record)
  {
    var rows := PresentRows(read.sheet[1..]);
    var r := seq(|rows|, i requires 0 <= i < |rows| => RecordOf(read.names, rows[i], |rows[i]|));
    forall record | record in r
      ensures ReadFromSomeRow(read.sheet[1..], read.names, record)
    {
      var i :| 0 <= i < |rows| && r[i] == record;
      assert rows[i] in rows;
      var p :| 0 <= p < |read.sheet[1..]| && read.sheet[1..][p] == Some(rows[i]);
    }
    forall record | ReadFromSomeRow(read.sheet[1..], read.names, record)
      ensures record in r
    {
      var p :| 0 <= p < |read.sheet[1..]| && read.sheet[1..][p].Some? && record == RecordOf(read.names, read.sheet[1..][p].value, |read.sheet[1..][p].value|);
      var row := read.sheet[1..][p].value;
      assert Some(row) in read.sheet[1..];
      var i :| 0 <= i < |rows| && rows[i] == row;
      assert r[i] == record;
    }
    r
  }

  /** Distinct ids: two keys with the same id are the same key. */
  lemma KeysUnique(keys: seq<Key>, k: nat, l: nat)
    requires Distinct(Ids(keys)) && k < |keys| && l < |keys| && keys[k].id == keys[l].id
    ensures k == l
  {
    assert Ids(keys)[k] == Ids(keys)[l];
  }

  /** The map from each key to the record at its position. */
  function IdMap(keys: seq<Key>, records: seq<Row>): (r: map<string, Row>)
    requires (forall k | 0 <= k < |keys| :: keys[k].position < |records|) && Distinct(Ids(keys))
    ensures forall k | 0 <= k < |keys| :: keys[k].id in r && r[keys[k].id] == records[keys[k].position]
  {
    forall k, l | 0 <= k < |keys| && 0 <= l < |keys| && keys[k].id == keys[l].id
      ensures k == l
    {
      KeysUnique(keys, k, l);
    }
    map k | 0 <= k < |keys| :: keys[k].id := records[keys[k].position]
  }

  /** Over an index, the map holds every record with an id under that id, and nothing else. */
  lemma IdMapRecords(keys: seq<Key>, records: seq<Row>, column: string)
    requires IsIndexOf(keys, records, column) && Distinct(Ids(keys))
    ensures var r := IdMap(keys, records);
      && (forall p | 0 <= p < |records| && HasId(records[p], column) ::
            records[p][column] in r && r[records[p][column]] == records[p])
      && (forall id | id in r :: HasId(r[id], column) && r[id][column] == id && r[id] in records)
  {
    var r := IdMap(keys, records);
    forall p | 0 <= p < |records| && HasId(records[p], column)
      ensures records[p][column] in r && r[records[p][column]] == records[p]
    {
      var k :| 0 <= k < |keys| && keys[k].position == p;
    }
    forall id | id in r
      ensures HasId(r[id], column) && r[id][column] == id && r[id] in records
    {
      var k :| 0 <= k < |keys| && keys[k].id == id;
    }
  }

  /** The first cell, in row then cell order, whose column lies beyond `width`: the cell whose
    * names[cell.getColumnIndex()] throws. */
  function FirstOverflow(rows: seq<SheetRow>, width: nat): (r: Option<nat>)
    ensures r.None? <==> forall i, j | 0 <= i < |rows| && 0 <= j < |rows[i]| :: rows[i][j].column < width
    ensures r.Some? ==> r.value >= width
  {
    if |rows| == 0 then None
    else
      var wide := FirstWide(rows[0], width);
      if wide.Some? then wide
      else
        var rest := FirstOverflow(rows[1..], width);
        assert forall i | 1 <= i < |rows| :: rows[i] == rows[1..][i - 1];
        rest
  }

  function FirstWide(row: SheetRow, width: nat): (r: Option<nat>)
    ensures r.None? <==> forall j | 0 <= j < |row| :: row[j].column < width
    ensures r.Some? ==> r.value >= width
  {
    if |row| == 0 then None
    else if row[0].column >= width then Some(row[0].column)
    else
      var rest := FirstWide(row[1..], width);
      assert forall j | 1 <= j < |row| :: row[j] == row[1..][j - 1];
      rest
  }

  /** readSheet as written: a cell of a data row whose column lies beyond the header names
    * throws ArrayIndexOutOfBoundsException (the constructor filters such cells out). */
  function ReadSheetAsWritten(workbook: Workbook, name: string, key: string): (r: Result<map<string, Row>>)
    requires WellFormedWorkbook(workbook)
    ensures ReadHeader(workbook, name, key).Ok? ==>
      var read := ReadHeader(workbook, name, key).value;
      && (FirstOverflow(PresentRows(read.sheet[1..]), |read.names|).Some? ==>
            var column := FirstOverflow(PresentRows(read.sheet[1..]), |read.names|).value;
            && column >= |read.names|
            && r == Fail(IndexOutOfBounds, "Index " + IntToString(column) + " out of bounds for length " + IntToString(|read.names|)))
      && (FirstOverflow(PresentRows(read.sheet[1..]), |read.names|).None? ==> r == ReadSheet(workbook, name, key))
    ensures ReadHeader(workbook, name, key).Err? ==> r == ReadSheet(workbook, name, key)
  {
    var read :- ReadHeader(workbook, name, key);
    match FirstOverflow(PresentRows(read.sheet[1..]), |read.names|)
    case Some(column) =>
      Fail(IndexOutOfBounds, "Index " + IntToString(column) + " out of bounds for length " + IntToString(|read.names|))
    case None => ReadSheet(workbook, name, key)
  }

  /** readSheet with the constructor's guard on data cells: a cell beyond the header names is
    * ignored. Rows without a key value are dropped; a repeated key value is an
    * IllegalArgumentException. */
  function ReadSheet(workbook: Workbook, name: string, key: string): (r: Result<map<string, Row>>)
    requires WellFormedWorkbook(workbook)
    ensures ReadHeader(workbook, name, key).Err? ==> r == Err(ReadHeader(workbook, name, key).error)
    ensures r.Err? ==> r.error.kind in {FileNotFound, NullPointer, IllegalArgument}
    ensures ReadHeader(workbook, name, key).Ok? ==>
      var records := DataRecords(ReadHeader(workbook, name, key).value);
      && (r.Ok? <==> !HasDuplicateIds(records, key))
      && (r.Ok? ==> forall p | 0 <= p < |records| && HasId(records[p], key) ::
            records[p][key] in r.value && r.value[records[p][key]] == records[p])
      && (r.Ok? ==> forall id | id in r.value :: HasId(r.value[id], key) && r.value[id][key] == id && r.value[id] in records)
  {
    var read :- ReadHeader(workbook, name, key);
    var records := DataRecords(read);
    var keys :- IndexById(records, key);
    IdMapRecords(keys, records, key);
    Ok(IdMap(keys, records))
  }
  /** A sheet whose header names only column 0 and whose data row also fills column 1. */
  const ExtraCellHeader := Cell(0, StringType, "ID", "ID", None)
  const ExtraCellData := [Cell(0, StringType, "a", "a", None), Cell(1, StringType, "x", "x", None)]
  const ExtraCellWorkbook: Workbook := [("S", [Some([ExtraCellHeader]), Some(ExtraCellData)])]

  lemma ExtraCellHeaderMap()
    ensures PositionMap([Some("ID")]) == Ok(map["ID" := 0])
  {
    var headers := PositionMap([Some("ID")]);
    assert DistinctNames([Some("ID")]);
    assert "ID" in headers.value && headers.value["ID"] == 0;
    forall k | k in headers.value
      ensures k == "ID"
    {
      assert [Some("ID")][headers.value[k]] == Some(k);
    }
    assert headers.value == map["ID" := 0];
  }

  lemma ExtraCellWellFormed()
    ensures WellFormedWorkbook(ExtraCellWorkbook)
  {
    assert DistinctColumns([ExtraCellHeader]);
    assert DistinctColumns(ExtraCellData);
    assert WellFormedSheet(ExtraCellWorkbook[0].1);
  }

  lemma ExtraCellHeaderRead()
    ensures WellFormedWorkbook(ExtraCellWorkbook)
    ensures ReadHeader(ExtraCellWorkbook, "S", "ID") == Ok(HeaderRead(ExtraCellWorkbook[0].1, [Some("ID")], map["ID" := 0]))
  {
    ExtraCellWellFormed();
    assert FirstSheetNamed(ExtraCellWorkbook, "S") == Some(0);
    assert AllStrings([ExtraCellHeader]);
    assert ContentEntries([ExtraCellHeader]) == [Named(0, "ID")];
    assert SpareList([Named(0, "ID")]) == [Some("ID")];
    ExtraCellHeaderMap();
  }

  lemma ExtraCellRecords()
    ensures PresentRows(ExtraCellWorkbook[0].1[1..]) == [ExtraCellData]
    ensures DataRecords(HeaderRead(ExtraCellWorkbook[0].1, [Some("ID")], map["ID" := 0])) == [map["ID" := "a"]]
  {
    assert ExtraCellWorkbook[0].1[1..] == [Some(ExtraCellData)];
    assert PresentRows([Some(ExtraCellData)]) == [ExtraCellData];
    assert RecordOf([Some("ID")], ExtraCellData, 2) == map["ID" := "a"];
  }

  lemma ExtraCellOverflow()
    ensures FirstOverflow(PresentRows(ExtraCellWorkbook[0].1[1..]), 1) == Some(1)
    ensures "Index " + IntToString(1) + " out of bounds for length " + IntToString(1) == "Index 1 out of bounds for length 1"
  {
    ExtraCellRecords();
    assert ExtraCellData[1..] == [Cell(1, StringType, "x", "x", None)];
    assert FirstWide(ExtraCellData[1..], 1) == Some(1);
    assert FirstWide(ExtraCellData, 1) == Some(1);
    assert FirstOverflow([ExtraCellData], 1) == Some(1);
    assert IntToString(1) == [DigitChar(1)] == "1";
  }

  /** On that sheet readSheet as written fails on the extra cell. */
  lemma ExtraCellBreaksReadSheet()
    ensures ReadSheetAsWritten(ExtraCellWorkbook, "S", "ID") == Fail(IndexOutOfBounds, "Index 1 out of bounds for length 1")
  {
    ExtraCellHeaderRead();
    ExtraCellOverflow();
  }

  /** A map keyed by id whose every value is the one record m is the singleton map of m. */
  lemma OnlyRecordMap(result: map<string, Row>, m: Row, key: string)
    requires HasId(m, key) && m[key] in result && result[m[key]] == m
    requires forall id | id in result :: HasId(result[id], key) && result[id][key] == id && result[id] in [m]
    ensures result == map[m[key] := m]
  {
    forall id | id in result
      ensures id == m[key]
    {
      assert result[id] == m;
    }
  }

  /** A sheet with a single keyed data record reads as the map from its id to that record. */
  lemma ReadSheetOfOneRecord(workbook: Workbook, name: string, key: string, read: HeaderRead, m: Row)
    requires WellFormedWorkbook(workbook)
    requires ReadHeader(workbook, name, key) == Ok(read)
    requires DataRecords(read) == [m] && HasId(m, key)
    ensures ReadSheet(workbook, name, key) == Ok(map[m[key] := m])
  {
    var records := DataRecords(read);
    assert !HasDuplicateIds(records, key);
    var r := ReadSheet(workbook, name, key);
    assert HasId(records[0], key) && records[0] == m;
    OnlyRecordMap(r.value, m, key);
  }

  /** The guarded reading ignores the extra cell. */
  lemma ExtraCellReadsGuarded()
    ensures ReadSheet(ExtraCellWorkbook, "S", "ID") == Ok(map["a" := map["ID" := "a"]])
  {
    ExtraCellHeaderRead();
    ExtraCellRecords();
    var m: Row := map["ID" := "a"];
    assert HasId(m, "ID") && m["ID"] == "a";
    ReadSheetOfOneRecord(ExtraCellWorkbook, "S", "ID", HeaderRead(ExtraCellWorkbook[0].1, [Some("ID")], map["ID" := 0]), m);
  }

}
