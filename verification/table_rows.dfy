/** What the index tables share: a row is a map from column name to cell text, and the
  * `values` map of a table is the ImmutableMap from each non-empty id to its row, built in
  * row order (a repeated id makes ImmutableMap throw IllegalArgumentException). The map is kept
  * as the list of (id, row position) pairs, so that the rows themselves stay shared with the
  * table's record list, as the Java row maps are. */
module TableRows {
  import opened Wrappers

  const NULL_ROW_MESSAGE: string := "Cannot invoke \"java.util.Map.compute\" because the row of "

  type Row = map<string, string>

  /** An id and the position of its row among the table's records. */
  datatype Key = Key(id: string, position: nat)

  /** An entry of listEntries(): an id and its row. */
  datatype Entry = Entry(id: string, row: Row)

  predicate Distinct(names: seq<string>) {
    forall i, j | 0 <= i < j < |names| :: names[i] != names[j]
  }

  /** Strings.isNullOrEmpty(row.get(column)) is false. */
  predicate HasId(row: Row, column: string) {
    column in row && |row[column]| > 0
  }

  predicate HasDuplicateIds(records: seq<Row>, column: string) {
    exists i, j | 0 <= i < j < |records| ::
      HasId(records[i], column) && HasId(records[j], column) && records[i][column] == records[j][column]
  }

  /** The keys list a successful index must be: one key per record with a non-empty id, in
    * record order, naming that record's id. */
  predicate IsIndexOf(keys: seq<Key>, records: seq<Row>, column: string) {
    && (forall k | 0 <= k < |keys| ::
          keys[k].position < |records| && HasId(records[keys[k].position], column)
          && keys[k].id == records[keys[k].position][column])
    && (forall k, l | 0 <= k < l < |keys| :: keys[k].position < keys[l].position)
    && (forall p | 0 <= p < |records| && HasId(records[p], column) ::
          exists k | 0 <= k < |keys| :: keys[k].position == p)
  }

  function Ids(keys: seq<Key>): (r: seq<string>)
    ensures |r| == |keys| && forall k | 0 <= k < |keys| :: r[k] == keys[k].id
  {
    if |keys| == 0 then [] else [keys[0].id] + Ids(keys[1..])
  }

  /** The `values` map of a table: IllegalArgumentException for a repeated non-empty id,
    * otherwise every record with a non-empty id, keyed by that id, in record order. */
  function IndexById(records: seq<Row>, column: string): (r: Result<seq<Key>>)
    ensures r.Ok? <==> !HasDuplicateIds(records, column)
    ensures r.Ok? ==> IsIndexOf(r.value, records, column) && Distinct(Ids(r.value))
    ensures r.Err? ==> r.error.kind == IllegalArgument
    decreases |records|
  {
    if |records| == 0 then Ok([])
    else
      var init := records[..|records| - 1];
      var last := records[|records| - 1];
      assert records == init + [last];
      match IndexById(init, column)
      case Err(e) =>
        DuplicateExtends(init, last, column);
        Err(e)
      case Ok(keys) =>
        if !HasId(last, column) then
          NoDuplicateExtends(init, last, column);
          IndexExtendsWithoutId(keys, init, last, column);
          Ok(keys)
        else if Lookup(keys, last[column]).Some? then
          DuplicateOfRepeatedId(keys, init, last, column);
          Fail(IllegalArgument, "Multiple entries with same key: " + last[column])
        else
          NoDuplicateWithFreshId(keys, init, last, column);
          IndexExtendsWithId(keys, init, last, column);
          DistinctExtends(keys, Key(last[column], |init|));
          Ok(keys + [Key(last[column], |init|)])
  }

  lemma DuplicateExtends(init: seq<Row>, last: Row, column: string)
    requires HasDuplicateIds(init, column)
    ensures HasDuplicateIds(init + [last], column)
  {
    var records := init + [last];
    var i, j :| 0 <= i < j < |init| && HasId(init[i], column) && HasId(init[j], column) && init[i][column] == init[j][column];
    assert records[i] == init[i] && records[j] == init[j];
  }

  lemma DuplicateOfRepeatedId(keys: seq<Key>, init: seq<Row>, last: Row, column: string)
    requires IsIndexOf(keys, init, column) && HasId(last, column)
    requires Lookup(keys, last[column]).Some?
    ensures HasDuplicateIds(init + [last], column)
  {
    var records := init + [last];
    var k :| 0 <= k < |keys| && keys[k].id == last[column];
    var i := keys[k].position;
    assert records[i] == init[i];
    assert records[|init|] == last;
  }

  lemma DistinctExtends(keys: seq<Key>, key: Key)
    requires Distinct(Ids(keys)) && Lookup(keys, key.id).None?
    ensures Distinct(Ids(keys + [key]))
  {
    var ids := Ids(keys + [key]);
    forall i, j | 0 <= i < j < |ids| ensures ids[i] != ids[j] {
      assert ids[i] == Ids(keys)[i];
      if j < |keys| {
        assert ids[j] == Ids(keys)[j];
      }
    }
  }

  lemma NoDuplicateExtends(init: seq<Row>, last: Row, column: string)
    requires !HasDuplicateIds(init, column) && !HasId(last, column)
    ensures !HasDuplicateIds(init + [last], column)
  {
    var records := init + [last];
    forall i, j | 0 <= i < j < |records| && HasId(records[i], column) && HasId(records[j], column)
      ensures records[i][column] != records[j][column]
    {
      assert records[i] == init[i] && records[j] == init[j];
    }
  }

  lemma NoDuplicateWithFreshId(keys: seq<Key>, init: seq<Row>, last: Row, column: string)
    requires !HasDuplicateIds(init, column) && IsIndexOf(keys, init, column)
    requires HasId(last, column)
    requires Lookup(keys, last[column]).None?
    ensures !HasDuplicateIds(init + [last], column)
  {
    var records := init + [last];
    forall i, j | 0 <= i < j < |records| && HasId(records[i], column) && HasId(records[j], column)
      ensures records[i][column] != records[j][column]
    {
      assert records[i] == init[i];
      if j < |init| {
        assert records[j] == init[j];
      } else {
        var k :| 0 <= k < |keys| && keys[k].position == i;
      }
    }
  }

  lemma IndexExtendsWithoutId(keys: seq<Key>, init: seq<Row>, last: Row, column: string)
    requires IsIndexOf(keys, init, column) && !HasId(last, column)
    ensures IsIndexOf(keys, init + [last], column)
  {
    var records := init + [last];
    forall k | 0 <= k < |keys| ensures records[keys[k].position] == init[keys[k].position] { }
    forall p | 0 <= p < |records| && HasId(records[p], column)
      ensures exists k | 0 <= k < |keys| :: keys[k].position == p
    {
      assert records[p] == init[p];
    }
  }

  lemma IndexExtendsWithId(keys: seq<Key>, init: seq<Row>, last: Row, column: string)
    requires IsIndexOf(keys, init, column) && HasId(last, column)
    ensures IsIndexOf(keys + [Key(last[column], |init|)], init + [last], column)
  {
    var records := init + [last];
    var keys' := keys + [Key(last[column], |init|)];
    forall k | 0 <= k < |keys| ensures records[keys[k].position] == init[keys[k].position] { }
    forall p | 0 <= p < |records| && HasId(records[p], column)
      ensures exists k | 0 <= k < |keys'| :: keys'[k].position == p
    {
      if p < |init| {
        assert records[p] == init[p];
        var k :| 0 <= k < |keys| && keys[k].position == p;
        assert keys'[k] == keys[k];
      } else {
        assert keys'[|keys|].position == p;
      }
    }
  }

  /** The position of the row an id is keyed to, if any. */
  function Lookup(keys: seq<Key>, id: string): (r: Option<nat>)
    ensures r.None? <==> forall k | 0 <= k < |keys| :: keys[k].id != id
    ensures r.Some? ==> exists k | 0 <= k < |keys| :: keys[k].id == id && keys[k].position == r.value
  {
    if |keys| == 0 then None
    else if keys[0].id == id then Some(keys[0].position)
    else
      var r := Lookup(keys[1..], id);
      assert forall k | 1 <= k < |keys| :: keys[k] == keys[1..][k - 1];
      r
  }

  /** With distinct ids, the k-th key is found at its own position. */
  lemma {:induction false} LookupOfKey(keys: seq<Key>, k: nat)
    requires k < |keys| && Distinct(Ids(keys))
    ensures Lookup(keys, keys[k].id) == Some(keys[k].position)
    decreases k
  {
    if k > 0 {
      var ids := Ids(keys);
      assert ids[0] != ids[k];
      var tail := keys[1..];
      var tailIds := Ids(tail);
      forall i, j | 0 <= i < j < |tailIds|
        ensures tailIds[i] != tailIds[j]
      {
        assert tailIds[i] == ids[i + 1] && tailIds[j] == ids[j + 1];
      }
      assert tail[k - 1] == keys[k];
      LookupOfKey(tail, k - 1);
    }
  }

  /** listEntries(): each key with the record it names, as the record is now. */
  function Entries(keys: seq<Key>, records: seq<Row>): (r: seq<Entry>)
    requires forall k | 0 <= k < |keys| :: keys[k].position < |records|
    ensures |r| == |keys|
    ensures forall k | 0 <= k < |keys| :: r[k] == Entry(keys[k].id, records[keys[k].position])
  {
    seq(|keys|, k requires 0 <= k < |keys| => Entry(keys[k].id, records[keys[k].position]))
  }

  /** The printed form of a record in save(): the header columns in header order, null where the
    * record has no such column. */
  function Project(header: seq<string>, row: Row): (r: seq<Option<string>>)
    ensures |r| == |header|
    ensures forall i | 0 <= i < |header| :: r[i] == if header[i] in row then Some(row[header[i]]) else None
  {
    seq(|header|, i requires 0 <= i < |header| => if header[i] in row then Some(row[header[i]]) else None)
  }

  /** save(): the header line, then every record (also those without an id) in file order. */
  function SaveLines(header: seq<string>, records: seq<Row>): (r: seq<seq<Option<string>>>)
    ensures |r| == |records| + 1 && |r[0]| == |header|
    ensures forall i | 0 <= i < |header| :: r[0][i] == Some(header[i])
    ensures forall p | 0 <= p < |records| :: r[p + 1] == Project(header, records[p])
  {
    [seq(|header|, i requires 0 <= i < |header| => Some(header[i]))]
      + seq(|records|, p requires 0 <= p < |records| => Project(header, records[p]))
  }

  /** Printing one more record adds one more line. */
  lemma SaveLinesExtend(header: seq<string>, records: seq<Row>, record: Row)
    ensures SaveLines(header, records + [record]) == SaveLines(header, records) + [Project(header, record)]
  {
    var a := SaveLines(header, records + [record]);
    var b := SaveLines(header, records) + [Project(header, record)];
    assert |a| == |b|;
    forall q | 0 <= q < |a|
      ensures a[q] == b[q]
    {
      if q == 0 {
        assert a[0] == b[0];
      } else {
        assert a[q] == Project(header, (records + [record])[q - 1]);
      }
    }
  }

  /** A parsed header line: each column name mapped to its position. */
  function HeaderMap(header: seq<string>): (r: map<string, nat>)
    requires Distinct(header)
    ensures forall i | 0 <= i < |header| :: header[i] in r && r[header[i]] == i
    ensures forall name | name in r :: r[name] < |header| && header[r[name]] == name
  {
    map i | 0 <= i < |header| :: header[i] := i
  }

  /** CSVRecord.toMap: each header name mapped to the record's field at its position, for the
    * positions the record has. */
  function RecordMap(header: seq<string>, fields: seq<string>): (r: Row)
    ensures forall i | 0 <= i < |header| && i < |fields| :: header[i] in r
    ensures Distinct(header) ==> MapsHeader(header, fields, r)
    ensures forall name | name in r :: name in header
  {
    if |header| == 0 || |fields| == 0 then map[]
    else
      var rest := RecordMap(header[1..], fields[1..]);
      RecordMapCons(header, fields, rest);
      rest[header[0] := fields[0]]
  }

  /** Each header name is a key exactly when the record has its position, mapped to that field. */
  predicate MapsHeader(header: seq<string>, fields: seq<string>, r: Row) {
    forall i | 0 <= i < |header| :: (header[i] in r <==> i < |fields|) && (i < |fields| ==> r[header[i]] == fields[i])
  }

  lemma RecordMapCons(header: seq<string>, fields: seq<string>, rest: Row)
    requires |header| > 0 && |fields| > 0
    requires forall i | 0 <= i < |header[1..]| && i < |fields[1..]| :: header[1..][i] in rest
    requires Distinct(header[1..]) ==> MapsHeader(header[1..], fields[1..], rest)
    requires forall name | name in rest :: name in header[1..]
    ensures forall i | 0 <= i < |header| && i < |fields| :: header[i] in rest[header[0] := fields[0]]
    ensures Distinct(header) ==> MapsHeader(header, fields, rest[header[0] := fields[0]])
    ensures forall name | name in rest[header[0] := fields[0]] :: name in header
  {
    assert forall i | 1 <= i < |header| :: header[1..][i - 1] == header[i];
    assert forall i | 1 <= i < |fields| :: fields[1..][i - 1] == fields[i];
    assert Distinct(header) ==> Distinct(header[1..]) && forall i | 1 <= i < |header| :: header[i] != header[0];
  }

  /** The records of a parsed file, one row map per line after the header. */
  function Records(header: seq<string>, lines: seq<seq<string>>): (r: seq<Row>)
    ensures |r| == |lines| && forall p | 0 <= p < |lines| :: r[p] == RecordMap(header, lines[p])
  {
    seq(|lines|, p requires 0 <= p < |lines| => RecordMap(header, lines[p]))
  }

  /** getOptionalValue: the id's row, then the column in it; null when either is missing. */
  function OptionalValue(keys: seq<Key>, records: seq<Row>, id: string, column: string): (r: Option<string>)
    requires forall k | 0 <= k < |keys| :: keys[k].position < |records|
    ensures r.Some? <==> Lookup(keys, id).Some? && column in records[Lookup(keys, id).value]
  {
    match Lookup(keys, id)
    case None => None
    case Some(p) => if column in records[p] then Some(records[p][column]) else None
  }

  /** setValue on a row store: values.get(id) is null for an unknown id, so compute() throws
    * NullPointerException; a column the row does not have makes the remapping function throw
    * IllegalArgumentException; otherwise that one cell of that one row gets the value. */
  function SetCell(keys: seq<Key>, records: seq<Row>, id: string, column: string, value: string,
                   unknownColumnMessage: string): (r: Result<seq<Row>>)
    requires forall k | 0 <= k < |keys| :: keys[k].position < |records|
    ensures Lookup(keys, id).None? ==> r.Err? && r.error.kind == NullPointer
    ensures Lookup(keys, id).Some? && column !in records[Lookup(keys, id).value] ==>
      r.Err? && r.error.kind == IllegalArgument
    ensures r.Ok? <==> Lookup(keys, id).Some? && column in records[Lookup(keys, id).value]
    ensures r.Ok? ==>
      && |r.value| == |records|
      && (forall p | 0 <= p < |records| && p != Lookup(keys, id).value :: r.value[p] == records[p])
      && r.value[Lookup(keys, id).value].Keys == records[Lookup(keys, id).value].Keys
      && (forall c | c in records[Lookup(keys, id).value] && c != column ::
            r.value[Lookup(keys, id).value][c] == records[Lookup(keys, id).value][c])
      && r.value[Lookup(keys, id).value][column] == value
  {
    match Lookup(keys, id)
    case None => Fail(NullPointer, NULL_ROW_MESSAGE + id + " is null")
    case Some(p) =>
      if column !in records[p] then Fail(IllegalArgument, unknownColumnMessage + column)
      else Ok(records[p := records[p][column := value]])
  }

  /** After a successful setValue, getOptionalValue of that cell gives the new value and every
    * other cell reads as before. */
  lemma ValueAfterSetCell(keys: seq<Key>, records: seq<Row>, id: string, column: string, value: string,
                          message: string, id': string, column': string)
    requires forall k | 0 <= k < |keys| :: keys[k].position < |records|
    requires SetCell(keys, records, id, column, value, message).Ok?
    ensures OptionalValue(keys, SetCell(keys, records, id, column, value, message).value, id, column) == Some(value)
    ensures (Lookup(keys, id') != Lookup(keys, id) || column' != column) ==>
      OptionalValue(keys, SetCell(keys, records, id, column, value, message).value, id', column')
      == OptionalValue(keys, records, id', column')
  {
  }

  /** After a successful setValue, save() prints the new value in that record's line, in the
    * column's header position, and prints every other record's line as before. */
  lemma SaveAfterSetCell(header: seq<string>, keys: seq<Key>, records: seq<Row>, id: string, column: string,
                         value: string, message: string, i: nat)
    requires forall k | 0 <= k < |keys| :: keys[k].position < |records|
    requires SetCell(keys, records, id, column, value, message).Ok?
    requires i < |header| && header[i] == column
    ensures var p := Lookup(keys, id).value;
      var lines := SaveLines(header, SetCell(keys, records, id, column, value, message).value);
      lines[p + 1][i] == Some(value)
      && forall q | 1 <= q <= |records| && q != p + 1 :: lines[q] == SaveLines(header, records)[q]
  {
    var p := Lookup(keys, id).value;
    var updated := SetCell(keys, records, id, column, value, message).value;
    assert updated[p][column] == value;
    assert Project(header, updated[p])[i] == Some(value);
  }
}
