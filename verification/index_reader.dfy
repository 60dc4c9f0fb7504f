/** indexfile/IndexReader.readIndex: the rows of the index table selected for a set of exhibit
  * keys. A key K selects a row through the row's "K Exh" column. */
module IndexReader {
  import opened Wrappers
  import opened JavaText
  import opened TableRows

  const NULL_HEADERS_MESSAGE: string := "Cannot invoke \"java.util.Map.containsKey(Object)\" because \"headers\" is null"

  const BASE_ID: string := "BASE"
  const EXCLUDE_PREFIX: string := "exclude"

  function ExhColumn(key: string): string {
    key + " Exh"
  }

  /** Strings.emptyToNull(row.get(K + " Exh")) is non-null and does not start with "exclude". */
  predicate SelectsRow(row: Row, key: string) {
    ExhColumn(key) in row && |row[ExhColumn(key)]| > 0 && !StartsWith(row[ExhColumn(key)], EXCLUDE_PREFIX)
  }

  /** The anyMatch over the requested keys. */
  predicate Included(row: Row, keys: seq<string>) {
    exists k | 0 <= k < |keys| :: SelectsRow(row, keys[k])
  }

  /** isExhibitIncluded(row, K), which the commands call but which this IndexReader does not
    * define, taken to be the readIndex filter for the single key K. */
  predicate IsExhibitIncluded(row: Row, key: string) {
    Included(row, [key])
  }

  /** Whether readIndex keeps an entry. */
  predicate Kept(entry: Entry, keys: Option<seq<string>>) {
    entry.id != BASE_ID && (keys.None? || Included(entry.row, keys.value))
  }

  /** The stream filter, in entry order. */
  function Select(entries: seq<Entry>, keys: Option<seq<string>>): (r: seq<Entry>)
    ensures |r| <= |entries|
    ensures forall e :: e in r <==> e in entries && Kept(e, keys)
  {
    if |entries| == 0 then []
    else
      var rest := Select(entries[1..], keys);
      assert forall e :: e in entries <==> e == entries[0] || e in entries[1..];
      if Kept(entries[0], keys) then [entries[0]] + rest else rest
  }

  /** The filter keeps the order of the listed entries: selecting from a concatenation is the
    * concatenation of the selections. */
  lemma {:induction false} SelectAppend(a: seq<Entry>, b: seq<Entry>, keys: Option<seq<string>>)
    ensures Select(a + b, keys) == Select(a, keys) + Select(b, keys)
    decreases |a|
  {
    if |a| == 0 {
      assert a + b == b;
    } else {
      assert (a + b)[1..] == a[1..] + b;
      SelectAppend(a[1..], b, keys);
    }
  }

  /** The header check of readIndex: each requested key K needs a "K Exh" header. A null header
    * map makes the check itself throw NullPointerException at the first key. */
  function CheckHeaders(headers: Option<map<string, nat>>, keys: seq<string>): (r: Result<bool>)
    ensures r.Ok? <==> |keys| == 0 || (headers.Some? && forall k | 0 <= k < |keys| :: ExhColumn(keys[k]) in headers.value)
    ensures |keys| > 0 && headers.None? ==> r.Err? && r.error.kind == NullPointer
    ensures headers.Some? && r.Err? ==> r.error.kind == IO
  {
    if |keys| == 0 then Ok(true)
    else if headers.None? || ExhColumn(keys[0]) !in headers.value then
      if headers.None? then Fail(NullPointer, NULL_HEADERS_MESSAGE)
      else Fail(IO, "Header not found in index file: " + ExhColumn(keys[0]))
    else
      var rest := CheckHeaders(headers, keys[1..]);
      assert forall k | 1 <= k < |keys| :: keys[k] == keys[1..][k - 1];
      rest
  }

  /** readIndex(keys): with null keys every entry but "BASE"; otherwise, once every key has its
    * header, the entries but "BASE" whose row is selected by at least one key. */
  function ReadIndex(headers: Option<map<string, nat>>, entries: seq<Entry>, keys: Option<seq<string>>): (r: Result<seq<Entry>>)
    ensures keys.None? ==> r.Ok?
    ensures keys.Some? ==> (r.Ok? <==> CheckHeaders(headers, keys.value).Ok?)
    ensures r.Ok? ==> forall e :: e in r.value <==> e in entries && Kept(e, keys)
  {
    if keys.Some? then
      var _ :- CheckHeaders(headers, keys.value);
      Ok(Select(entries, keys))
    else
      Ok(Select(entries, keys))
  }

  /** With null keys, every entry except "BASE" is returned (so "FILES" is too). */
  lemma ReadIndexAll(headers: Option<map<string, nat>>, entries: seq<Entry>, e: Entry)
    requires e in entries
    ensures e in ReadIndex(headers, entries, None).value <==> e.id != BASE_ID
  {
  }

  /** An empty key collection succeeds whatever the headers and returns no entry. */
  lemma ReadIndexNoKeys(headers: Option<map<string, nat>>, entries: seq<Entry>)
    ensures ReadIndex(headers, entries, Some([])).Ok?
    ensures forall e :: e !in ReadIndex(headers, entries, Some([])).value
  {
  }

  /** A single-key readIndex keeps exactly the rows isExhibitIncluded accepts. */
  lemma SingleKeyIsExhibitIncluded(headers: map<string, nat>, entries: seq<Entry>, key: string, e: Entry)
    requires ExhColumn(key) in headers
    requires e in entries && e.id != BASE_ID
    ensures ReadIndex(Some(headers), entries, Some([key])).Ok?
    ensures e in ReadIndex(Some(headers), entries, Some([key])).value <==> IsExhibitIncluded(e.row, key)
  {
  }

  /** A row whose "K Exh" cell says "excluded" is not selected by K, while "AB" is. */
  lemma ExcludedCellNotSelected(row: Row, key: string)
    requires ExhColumn(key) in row
    ensures row[ExhColumn(key)] == "excluded" ==> !SelectsRow(row, key)
    ensures row[ExhColumn(key)] == "AB" ==> SelectsRow(row, key)
  {
    if row[ExhColumn(key)] == "excluded" {
      assert "excluded"[..7] == EXCLUDE_PREFIX;
    }
  }
}
