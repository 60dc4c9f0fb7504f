/** table/TsvTableUpdator: an index table kept in a tab-separated file. The parsed file is the
  * header line and the records; `keys` is the `values` map built once by the constructor, whose
  * rows are the very row maps of `records`, so a setValue through it shows in save(). CSV
  * parsing and printing are not part of this model: the file is given as its parsed lines and
  * save() produces the lines to print. */
module TsvTableUpdatorModel {
  import opened Wrappers
  import opened TableRows
  import opened IndexReader

  const UNKNOWN_COLUMN_MESSAGE: string := "Trying to access unknown column: "

  class TsvTableUpdator {
    const filePath: string
    const idColumn: string
    /** The parsed header line; the private `headers` field is its name-to-position map. */
    const header: seq<string>
    /** The records in file order, one row map each. */
    var records: seq<Row>
    /** The `values` map: each non-empty id with the position of its row in `records`. */
    const keys: seq<Key>
    /** The `headers` field inherited from AbstractTableUpdator, which no code assigns. */
    const inheritedHeaders: Option<map<string, nat>>
    /** The lines the last save() wrote, None before the first save(). */
    var written: Option<seq<seq<Option<string>>>>

    ghost predicate Valid()
      reads this
    {
      && Distinct(header) && idColumn in header
      && Distinct(Ids(keys))
      && forall k | 0 <= k < |keys| :: keys[k].position < |records|
    }

    constructor Load(filePath: string, idColumn: string, header: seq<string>, records: seq<Row>, keys: seq<Key>)
      requires Distinct(header) && idColumn in header
      requires IsIndexOf(keys, records, idColumn) && Distinct(Ids(keys))
      ensures Valid()
      ensures this.filePath == filePath && this.idColumn == idColumn && this.header == header
      ensures this.records == records && this.keys == keys
      ensures inheritedHeaders == None && written == None
    {
      this.filePath := filePath;
      this.idColumn := idColumn;
      this.header := header;
      this.records := records;
      this.keys := keys;
      inheritedHeaders := None;
      written := None;
    }

    /** listEntries(): every indexed id with its current row. */
    function ListEntries(): (r: seq<Entry>)
      requires Valid()
      reads this
      ensures |r| == |keys|
      ensures forall k | 0 <= k < |keys| :: r[k] == Entry(keys[k].id, records[keys[k].position])
    {
      Entries(keys, records)
    }

    /** getOptionalValue: null for an unknown id or for a column its row lacks. */
    function GetOptionalValue(id: string, column: string): (r: Option<string>)
      requires Valid()
      reads this
      ensures r.Some? <==> Lookup(keys, id).Some? && column in records[Lookup(keys, id).value]
      ensures r.Some? ==> r.value == records[Lookup(keys, id).value][column]
    {
      OptionalValue(keys, records, id, column)
    }

    /** getUrl: a TSV file holds no hyperlinks. */
    function GetUrl(id: string, column: string): (r: Option<string>)
      ensures r == None
    {
      None
    }

    /** getHeaders() as inherited: the parent's field, which this class never assigns because its
      * own `headers` field shadows it. */
    function GetHeaders(): (r: Option<map<string, nat>>)
      requires Valid()
      reads this
      ensures r == inheritedHeaders
    {
      inheritedHeaders
    }

    /** The parsed header map the class holds in its own `headers` field. */
    function HeaderPositions(): (r: map<string, nat>)
      requires Valid()
      reads this
      ensures forall i | 0 <= i < |header| :: header[i] in r && r[header[i]] == i
      ensures forall name | name in r :: name in header
    {
      HeaderMap(header)
    }

    /** setValue: replaces the cell of an existing column in the id's row; NullPointerException for
      * an unknown id, IllegalArgumentException for a column the row lacks, nothing else changes. */
    method SetValue(id: string, column: string, value: string) returns (outcome: Outcome)
      requires Valid()
      modifies this
      ensures Valid() && written == old(written)
      ensures var s := SetCell(keys, old(records), id, column, value, UNKNOWN_COLUMN_MESSAGE);
        && (s.Ok? ==> outcome == Pass && records == s.value)
        && (s.Err? ==> outcome == Failure(s.error) && records == old(records))
    {
      var s := SetCell(keys, records, id, column, value, UNKNOWN_COLUMN_MESSAGE);
      if s.Ok? {
        records := s.value;
        outcome := Pass;
      } else {
        outcome := Failure(s.error);
      }
    }

    /** save(): the header line, then each record in file order projected onto the header. */
    method Save()
      requires Valid()
      modifies this
      ensures Valid() && records == old(records)
      ensures written == Some(SaveLines(header, records))
    {
      var lines: seq<seq<Option<string>>> := [seq(|header|, i requires 0 <= i < |header| => Some(header[i]))];
      var p := 0;
      while p < |records|
        invariant 0 <= p <= |records|
        invariant records == old(records) && written == old(written)
        invariant lines == SaveLines(header, records[..p])
      {
        SaveLinesExtend(header, records[..p], records[p]);
        assert records[..p + 1] == records[..p] + [records[p]];
        lines := lines + [Project(header, records[p])];
        p := p + 1;
      }
      assert records[..p] == records;
      written := Some(lines);
    }
  }

  /** The constructor: IllegalArgumentException when the header lacks the id column or when a
    * non-empty id repeats; otherwise a table over the parsed records, indexed by id. */
  method Open(filePath: string, header: seq<string>, lines: seq<seq<string>>, idColumn: string)
    returns (r: Result<TsvTableUpdator>)
    requires Distinct(header)
    ensures r.Ok? <==> idColumn in header && !HasDuplicateIds(Records(header, lines), idColumn)
    ensures r.Err? ==> r.error.kind == IllegalArgument
    ensures r.Ok? ==>
      && fresh(r.value) && r.value.Valid()
      && r.value.records == Records(header, lines) && r.value.header == header
      && IsIndexOf(r.value.keys, r.value.records, idColumn)
      && r.value.written == None
  {
    if idColumn !in header {
      return Fail(IllegalArgument, "Key not found in TSV file: " + idColumn);
    }
    var records := Records(header, lines);
    var index := IndexById(records, idColumn);
    if index.Err? {
      return Err(index.error);
    }
    var table := new TsvTableUpdator.Load(filePath, idColumn, header, records, index.value);
    return Ok(table);
  }

  /** The id index of an opened table lists exactly the records with a non-empty id. */
  lemma ListedIffNonEmptyId(keys: seq<Key>, records: seq<Row>, idColumn: string, p: nat)
    requires IsIndexOf(keys, records, idColumn) && p < |records|
    ensures HasId(records[p], idColumn) <==> exists k | 0 <= k < |keys| :: keys[k].position == p
    ensures HasId(records[p], idColumn) ==> Lookup(keys, records[p][idColumn]).Some?
  {
    if HasId(records[p], idColumn) {
      var k :| 0 <= k < |keys| && keys[k].position == p;
      assert keys[k].id == records[p][idColumn];
    }
  }

  /** As written, readIndex over this table fails with NullPointerException for any non-empty
    * key list, because getHeaders() returns the shadowed, never-assigned field. */
  lemma ReadIndexOverTsvTableFails(table: TsvTableUpdator, exhibitKeys: seq<string>)
    requires table.Valid() && table.inheritedHeaders == None && |exhibitKeys| > 0
    ensures ReadIndex(table.GetHeaders(), table.ListEntries(), Some(exhibitKeys)).Err?
    ensures ReadIndex(table.GetHeaders(), table.ListEntries(), Some(exhibitKeys)).error.kind == NullPointer
  {
  }

  /** With the parsed header map instead, readIndex succeeds exactly when each key has its
    * "K Exh" column in the file. */
  lemma ReadIndexOverParsedHeaders(table: TsvTableUpdator, exhibitKeys: seq<string>)
    requires table.Valid()
    ensures ReadIndex(Some(table.HeaderPositions()), table.ListEntries(), Some(exhibitKeys)).Ok?
        <==> forall k | 0 <= k < |exhibitKeys| :: ExhColumn(exhibitKeys[k]) in table.header
  {
  }
}
