/** The spreadsheet as table/XlsTableUpdator sees it through Apache POI. A workbook is a list of
  * named sheets, a sheet is its rows 0..getLastRowNum() (None for a row that does not exist),
  * and a row is its cells, at most one per column. What POI computes from a cell's contents is
  * kept in the cell: the text getCellString derives from it and the text DataFormatter shows. */
module XlsSheet {
  import opened Wrappers

  datatype CellType = StringType | NumericType | BlankType | FormulaType | OtherType

  /** A cell: its column index, its type, the text getCellString returns for it (the string, the
    * rendering of the number, or the formula), the text DataFormatter.formatCellValue shows for
    * it, and the address of its hyperlink if it has one. */
  datatype Cell = Cell(column: nat, cellType: CellType, content: string, shown: string, hyperlink: Option<string>)

  type SheetRow = seq<Cell>
  type Sheet = seq<Option<SheetRow>>
  type Workbook = seq<(string, Sheet)>

  predicate DistinctColumns(row: SheetRow) {
    forall i, j | 0 <= i < j < |row| :: row[i].column != row[j].column
  }

  predicate WellFormedSheet(sheet: Sheet) {
    forall r | 0 <= r < |sheet| && sheet[r].Some? :: DistinctColumns(sheet[r].value)
  }

  predicate WellFormedWorkbook(workbook: Workbook) {
    forall i | 0 <= i < |workbook| :: WellFormedSheet(workbook[i].1)
  }

  /** row.getCell(column): the row's cell in that column, or null. */
  function CellAt(row: SheetRow, column: nat): (r: Option<Cell>)
    ensures r.Some? ==> r.value in row && r.value.column == column
    ensures r.None? <==> forall i | 0 <= i < |row| :: row[i].column != column
  {
    if |row| == 0 then None
    else if row[0].column == column then Some(row[0])
    else
      var r := CellAt(row[1..], column);
      assert forall i | 1 <= i < |row| :: row[i] == row[1..][i - 1];
      r
  }

  /** getCellString: the text of a string, numeric or formula cell; null for a blank cell and
    * for any other type. */
  function CellString(cell: Cell): (r: Option<string>)
    ensures r.Some? <==> cell.cellType in {StringType, NumericType, FormulaType}
    ensures r.Some? ==> r.value == cell.content
  {
    match cell.cellType
    case StringType => Some(cell.content)
    case NumericType => Some(cell.content)
    case FormulaType => Some(cell.content)
    case BlankType => None
    case OtherType => None
  }

  /** Strings.nullToEmpty. */
  function NullToEmpty(s: Option<string>): (r: string)
    ensures s.Some? ==> r == s.value
    ensures s.None? ==> |r| == 0
  {
    s.GetOr("")
  }

  /** A map entry from a column index to a name (the entries of the header map before
    * spareMapToList turns it into an array). */
  datatype Named = Named(column: nat, name: string)

  /** An entry from a name to its position (the entries collected into the header map and the
    * config map), in the order they were collected. */
  datatype Position = Position(name: string, index: nat)

  /** No name occurs in two entries. */
  predicate DistinctEntryNames(entries: seq<Position>) {
    forall i, j | 0 <= i < j < |entries| :: entries[i].name != entries[j].name
  }

  /** Some entry has that name. */
  predicate HasEntryName(entries: seq<Position>, name: string) {
    exists j | 0 <= j < |entries| :: entries[j].name == name
  }

  /** ImmutableMap.toImmutableMap: IllegalArgumentException when a name repeats, otherwise the
    * map of every entry. */
  function ToImmutableMap(entries: seq<Position>): (r: Result<map<string, nat>>)
    ensures r.Ok? <==> DistinctEntryNames(entries)
    ensures r.Err? ==> r.error.kind == IllegalArgument
    ensures r.Ok? ==> forall j | 0 <= j < |entries| :: entries[j].name in r.value && r.value[entries[j].name] == entries[j].index
    ensures r.Ok? ==> forall k | k in r.value :: HasEntryName(entries, k)
  {
    if !DistinctEntryNames(entries) then Fail(IllegalArgument, "Multiple entries with same key")
    else Ok(map j | 0 <= j < |entries| :: entries[j].name := entries[j].index)
  }

  /** No column occurs in two entries. */
  predicate DistinctEntryColumns(entries: seq<Named>) {
    forall i, j | 0 <= i < j < |entries| :: entries[i].column != entries[j].column
  }

  /** Some entry has that column. */
  predicate HasEntryColumn(entries: seq<Named>, column: nat) {
    exists j | 0 <= j < |entries| :: entries[j].column == column
  }

  /** The array length spareMapToList allocates: the largest key plus one, as the reduction
    * from -1 with Integer::max gives it; 0 for an empty map. */
  function SpareLength(entries: seq<Named>): (n: nat)
    ensures forall j | 0 <= j < |entries| :: entries[j].column < n
    ensures n > 0 ==> HasEntryColumn(entries, n - 1)
    ensures n == 0 <==> |entries| == 0
  {
    if |entries| == 0 then 0
    else
      var init := entries[..|entries| - 1];
      var rest := SpareLength(init);
      var last := entries[|entries| - 1].column + 1;
      assert forall j | 0 <= j < |init| :: init[j] == entries[j];
      if last > rest then last else rest
  }

  /** The value stored at index i by the entries written in order (the last write wins). */
  function ValueAt(entries: seq<Named>, i: nat): (r: Option<string>)
    ensures r.None? <==> forall j | 0 <= j < |entries| :: entries[j].column != i
    ensures r.Some? ==> Named(i, r.value) in entries
  {
    if |entries| == 0 then None
    else if entries[|entries| - 1].column == i then Some(entries[|entries| - 1].name)
    else
      var init := entries[..|entries| - 1];
      assert forall j | 0 <= j < |init| :: init[j] == entries[j];
      ValueAt(init, i)
  }

  /** The array spareMapToList returns: null everywhere the map has no entry. */
  function SpareList(entries: seq<Named>): (r: seq<Option<string>>)
    ensures |r| == SpareLength(entries)
    ensures forall i | 0 <= i < |r| :: r[i].None? <==> forall j | 0 <= j < |entries| :: entries[j].column != i
    ensures DistinctEntryColumns(entries) ==> forall j | 0 <= j < |entries| :: r[entries[j].column] == Some(entries[j].name)
  {
    var r := seq(SpareLength(entries), i requires 0 <= i < SpareLength(entries) => ValueAt(entries, i));
    assert forall j | 0 <= j < |entries| :: r[entries[j].column] == ValueAt(entries, entries[j].column);
    forall j | 0 <= j < |entries| && DistinctEntryColumns(entries)
      ensures r[entries[j].column] == Some(entries[j].name)
    {
      var v := ValueAt(entries, entries[j].column);
      var l :| 0 <= l < |entries| && entries[l] == Named(entries[j].column, v.value);
      assert l == j;
    }
    r
  }

  /** Writing one more entry changes only its own index. */
  lemma ValueAtExtend(entries: seq<Named>, j: nat, i: nat)
    requires j < |entries|
    ensures ValueAt(entries[..j + 1], i) == if entries[j].column == i then Some(entries[j].name) else ValueAt(entries[..j], i)
  {
    assert entries[..j + 1][..j] == entries[..j];
  }

  /** spareMapToList: an array as long as the largest key plus one, filled entry by entry. */
  method SpareMapToList(entries: seq<Named>) returns (out: array<Option<string>>)
    ensures fresh(out) && out[..] == SpareList(entries)
  {
    var top: int := -1;
    for j := 0 to |entries|
      invariant top + 1 == SpareLength(entries[..j])
    {
      assert entries[..j + 1][..j] == entries[..j];
      if entries[j].column > top {
        top := entries[j].column;
      }
    }
    assert entries[..|entries|] == entries;
    out := new Option<string>[top + 1](_ => None);
    for j := 0 to |entries|
      invariant forall i | 0 <= i < out.Length :: out[i] == ValueAt(entries[..j], i)
    {
      forall i | 0 <= i < out.Length
        ensures ValueAt(entries[..j + 1], i) == if entries[j].column == i then Some(entries[j].name) else ValueAt(entries[..j], i)
      {
        ValueAtExtend(entries, j, i);
      }
      out[entries[j].column] := Some(entries[j].name);
    }
  }

  /** The (name, position) entries of the non-null names among the first n, in position order. */
  function NamedPositions(names: seq<Option<string>>, n: nat): (r: seq<Position>)
    requires n <= |names|
    ensures forall j | 0 <= j < |r| :: r[j].index < n && names[r[j].index] == Some(r[j].name)
    ensures forall i | 0 <= i < n && names[i].Some? :: Position(names[i].value, i) in r
  {
    if n == 0 then []
    else
      var rest := NamedPositions(names, n - 1);
      if names[n - 1].Some? then
        var r := rest + [Position(names[n - 1].value, n - 1)];
        assert r[|rest|] == Position(names[n - 1].value, n - 1);
        assert forall j | 0 <= j < |rest| :: r[j] == rest[j];
        r
      else rest
  }

  /** No name occurs at two positions. */
  predicate DistinctNames(names: seq<Option<string>>) {
    forall i, j | 0 <= i < j < |names| && names[i].Some? && names[j].Some? :: names[i].value != names[j].value
  }

  /** The ImmutableMap from each non-null name to its position (the header map of a name array,
    * the config map of a sheet): IllegalArgumentException for a repeated name. */
  function PositionMap(names: seq<Option<string>>): (r: Result<map<string, nat>>)
    ensures r.Ok? <==> DistinctNames(names)
    ensures r.Err? ==> r.error.kind == IllegalArgument
    ensures r.Ok? ==> forall i | 0 <= i < |names| && names[i].Some? :: names[i].value in r.value && r.value[names[i].value] == i
    ensures r.Ok? ==> forall name | name in r.value :: r.value[name] < |names| && names[r.value[name]] == Some(name)
  {
    var entries := NamedPositions(names, |names|);
    var r := ToImmutableMap(entries);
    if r.Ok? then
      forall i | 0 <= i < |names| && names[i].Some?
        ensures names[i].value in r.value && r.value[names[i].value] == i
      {
        var j :| 0 <= j < |entries| && entries[j] == Position(names[i].value, i);
      }
      forall name | name in r.value
        ensures r.value[name] < |names| && names[r.value[name]] == Some(name)
      {
        var j :| 0 <= j < |entries| && entries[j].name == name;
      }
      assert DistinctNames(names) by {
        forall i, j | 0 <= i < j < |names| && names[i].Some? && names[j].Some?
          ensures names[i].value != names[j].value
        {
          assert r.value[names[i].value] == i && r.value[names[j].value] == j;
        }
      }
      r
    else
      assert !DistinctNames(names) by {
        var a, b :| 0 <= a < b < |entries| && entries[a].name == entries[b].name;
        assert entries[a].index != entries[b].index by { NamedPositionsIncreasing(names, |names|, a, b); }
      }
      r
  }

  /** NamedPositions lists positions in increasing order. */
  lemma {:induction false} NamedPositionsIncreasing(names: seq<Option<string>>, n: nat, a: nat, b: nat)
    requires n <= |names| && a < b < |NamedPositions(names, n)|
    ensures NamedPositions(names, n)[a].index < NamedPositions(names, n)[b].index
  {
    if n > 0 {
      var rest := NamedPositions(names, n - 1);
      if names[n - 1].Some? && b == |rest| {
        assert NamedPositions(names, n)[a] == rest[a];
      } else {
        NamedPositionsIncreasing(names, n - 1, a, b);
      }
    }
  }
}
