/** table/TsvUpdator: the stand-alone tab-separated row store. It parses and indexes the file
  * like TsvTableUpdator, but it exposes its own parsed header map through getHeaders(). CSV
  * parsing and printing are not part of this model: the file is given as its parsed lines and
  * save() produces the lines to print. */
module TsvUpdatorModel {
  import opened Wrappers
  import opened TableRows

  const UNKNOWN_COLUMN_MESSAGE: string := "Trying to set unknown column: "

  class TsvUpdator {
    const filePath: string
    const idColumn: string
    /** The parsed header line; `headers` is its name-to-position map. */
    const header: seq<string>
    /** The records in file order, one row map each. */
    var records: seq<Row>
    /** The `values` map: each non-empty id with the position of its row in `records`. */
    const keys: seq<Key>
    /** The lines the last save() wrote, None before the first save(). */
    var written: Option<seq<seq<Option<string>>>>

    ghost predicate Valid()
      reads this
    {
      && Distinct(header) && idColumn in header
      && Distinct(Ids(keys))
      && forall k | 0 <= k < |keys| :: keys[k].position < |records|
    }

    constructor Load(filePath: string, idColumn: string, header: seq<string>, records: seq<Row>, keys: seq<Key>)
      requires Distinct(header) && idColumn in header
      requires IsIndexOf(keys, records, idColumn) && Distinct(Ids(keys))
      ensures Valid()
      ensures this.filePath == filePath && this.idColumn == idColumn && this.header == header
      ensures this.records == records && this.keys == keys && written == None
    {
      this.filePath := filePath;
      this.idColumn := idColumn;
      this.header := header;
      this.records := records;
      this.keys := keys;
      written := None;
    }

    /** getHeaders(): each column name of the header line with its position. */
    function GetHeaders(): (r: map<string, nat>)
      requires Valid()
      reads this
      ensures forall i | 0 <= i < |header| :: header[i] in r && r[header[i]] == i
      ensures forall name | name in r :: r[name] < |header| && header[r[name]] == name
    {
      HeaderMap(header)
    }

    /** listEntries(): every indexed id with its current row. */
    function ListEntries(): (r: seq<Entry>)
      requires Valid()
      reads this
      ensures |r| == |keys|
      ensures forall k | 0 <= k < |keys| :: r[k] == Entry(keys[k].id, records[keys[k].position])
    {
      Entries(keys, records)
    }

    /** setValue: replaces the cell of an existing column in the id's row; NullPointerException for
      * an unknown id, IllegalArgumentException for a column the row lacks, nothing else changes. */
    method SetValue(id: string, column: string, value: string) returns (outcome: Outcome)
      requires Valid()
      modifies this
      ensures Valid() && written == old(written)
      ensures var s := SetCell(keys, old(records), id, column, value, UNKNOWN_COLUMN_MESSAGE);
        && (s.Ok? ==> outcome == Pass && records == s.value)
        && (s.Err? ==> outcome == Failure(s.error) && records == old(records))
    {
      var s := SetCell(keys, records, id, column, value, UNKNOWN_COLUMN_MESSAGE);
      if s.Ok? {
        records := s.value;
        outcome := Pass;
      } else {
        outcome := Failure(s.error);
      }
    }

    /** save(): the header line, then each record in file order projected onto the header. */
    method Save()
      requires Valid()
      modifies this
      ensures Valid() && records == old(records)
      ensures written == Some(SaveLines(header, records))
    {
      var lines: seq<seq<Option<string>>> := [seq(|header|, i requires 0 <= i < |header| => Some(header[i]))];
      for p := 0 to |records|
        invariant records == old(records) && written == old(written)
        invariant lines == SaveLines(header, records[..p])
      {
        SaveLinesExtend(header, records[..p], records[p]);
        assert records[..p + 1] == records[..p] + [records[p]];
        lines := lines + [Project(header, records[p])];
      }
      assert records[..|records|] == records;
      written := Some(lines);
    }
  }

  /** The constructor: IllegalArgumentException when the header lacks the id column or when a
    * non-empty id repeats; otherwise a store over the parsed records, indexed by id. */
  method Open(filePath: string, header: seq<string>, lines: seq<seq<string>>, idColumn: string)
    returns (r: Result<TsvUpdator>)
    requires Distinct(header)
    ensures r.Ok? <==> idColumn in header && !HasDuplicateIds(Records(header, lines), idColumn)
    ensures r.Err? ==> r.error.kind == IllegalArgument
    ensures r.Ok? ==>
      && fresh(r.value) && r.value.Valid()
      && r.value.records == Records(header, lines) && r.value.header == header
      && IsIndexOf(r.value.keys, r.value.records, idColumn)
      && r.value.written == None
  {
    if idColumn !in header {
      return Fail(IllegalArgument, "Key not found in TSV file: " + idColumn);
    }
    var records := Records(header, lines);
    var index := IndexById(records, idColumn);
    if index.Err? {
      return Err(index.error);
    }
    var store := new TsvUpdator.Load(filePath, idColumn, header, records, index.value);
    return Ok(store);
  }

  /** A setValue followed by save() writes the new value into that record's line and leaves the
    * lines of the other records as a save() before it would have written them. */
  method SetValueThenSave(store: TsvUpdator, id: string, column: string, value: string, i: nat)
    returns (outcome: Outcome)
    requires store.Valid() && i < |store.header| && store.header[i] == column
    modifies store
    ensures store.Valid() && |store.records| == |old(store.records)|
    ensures store.written == Some(SaveLines(store.header, store.records))
    ensures outcome == Pass <==> SetCell(store.keys, old(store.records), id, column, value, UNKNOWN_COLUMN_MESSAGE).Ok?
    ensures outcome == Pass ==>
      var p := Lookup(store.keys, id).value;
      && store.written.Some? && store.written.value[p + 1][i] == Some(value)
      && forall q | 1 <= q <= |store.records| && q != p + 1 ::
           store.written.value[q] == SaveLines(store.header, old(store.records))[q]
  {
    outcome := store.SetValue(id, column, value);
    store.Save();
    if outcome == Pass {
      SaveAfterSetCell(store.header, store.keys, old(store.records), id, column, value, UNKNOWN_COLUMN_MESSAGE, i);
    }
  }

  /** getHeaders() is the parsed header line: a name is a key exactly when it is a column of the
    * header line, and it maps to that column's position. */
  lemma GetHeadersIsHeaderLine(store: TsvUpdator, name: string)
    requires store.Valid()
    ensures name in store.GetHeaders() <==> name in store.header
    ensures name in store.GetHeaders() ==> store.header[store.GetHeaders()[name]] == name
  {
    if name in store.header {
      var i :| 0 <= i < |store.header| && store.header[i] == name;
      assert name in store.GetHeaders();
    }
  }
}
