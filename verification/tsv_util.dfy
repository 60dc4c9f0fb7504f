/** TsvUtil: one line of tab-separated output, with quoting of awkward values. */
module TsvUtil {
  import opened Wrappers
  import opened JavaText

  /** A value holding a tab, a newline or a double quote cannot be written bare. */
  predicate NeedsQuoting(s: string) {
    '\t' in s || '\n' in s || '"' in s
  }

  /** String.replace("\"", "\"\""): every double quote doubled. */
  function DoubleQuotes(s: string): (r: string)
    ensures '\t' in r <==> '\t' in s
    ensures '\n' in r <==> '\n' in s
  {
    if |s| == 0 then ""
    else (if s[0] == '"' then "\"\"" else [s[0]]) + DoubleQuotes(s[1..])
  }

  /** The reading side of the escaping in section 2 rule 7 of RFC 4180: inside a quoted field
    * a pair of double quotes stands for one. */
  function UndoubleQuotes(s: string): string
    decreases |s|
  {
    if |s| == 0 then ""
    else if |s| >= 2 && s[0] == '"' && s[1] == '"' then "\"" + UndoubleQuotes(s[2..])
    else [s[0]] + UndoubleQuotes(s[1..])
  }

  lemma {:induction false} UndoubleOfDouble(s: string)
    ensures UndoubleQuotes(DoubleQuotes(s)) == s
    decreases |s|
  {
    if |s| > 0 {
      var rest := DoubleQuotes(s[1..]);
      UndoubleOfDouble(s[1..]);
      if s[0] == '"' {
        assert DoubleQuotes(s) == "\"\"" + rest;
        assert ("\"\"" + rest)[2..] == rest;
      } else {
        assert DoubleQuotes(s) == [s[0]] + rest;
        assert ([s[0]] + rest)[1..] == rest;
      }
      assert s == [s[0]] + s[1..];
    }
  }

  /** formatTsvSingle as written: null is empty, a plain value is kept, and a value that needs
    * quoting gets an opening quote and doubled inner quotes, but no closing quote. */
  function FormatTsvSingle(data: Option<string>): (r: string)
    ensures data.None? ==> |r| == 0
    ensures data.Some? && !NeedsQuoting(data.value) ==> r == data.value
    ensures data.Some? && NeedsQuoting(data.value) ==>
      |r| >= 1 && r[0] == '"' && UndoubleQuotes(r[1..]) == data.value
  {
    match data
    case None => ""
    case Some(s) =>
      if NeedsQuoting(s) then
        UndoubleOfDouble(s);
        assert ("\"" + DoubleQuotes(s))[1..] == DoubleQuotes(s);
        "\"" + DoubleQuotes(s)
      else s
  }

  /** The field a reader following RFC 4180 sees: a field enclosed in double quotes loses them
    * and its doubled quotes are collapsed; any other field is taken as it is. */
  function ParseTsvField(field: string): string {
    if |field| >= 2 && field[0] == '"' && field[|field| - 1] == '"' then UndoubleQuotes(field[1..|field| - 1])
    else field
  }

  /** formatTsvSingle with the closing quote the quoting evidently intends: it differs from the
    * code as written only by that quote. */
  function FormatTsvField(data: Option<string>): (r: string)
    ensures data.None? ==> |r| == 0
    ensures data.Some? ==> ParseTsvField(r) == data.value
    ensures data.Some? && !NeedsQuoting(data.value) ==> r == FormatTsvSingle(data)
    ensures data.Some? && NeedsQuoting(data.value) ==> r == FormatTsvSingle(data) + "\""
  {
    match data
    case None => ""
    case Some(s) =>
      if NeedsQuoting(s) then
        var r := "\"" + DoubleQuotes(s) + "\"";
        UndoubleOfDouble(s);
        assert r[1..|r| - 1] == DoubleQuotes(s);
        r
      else
        assert |s| >= 2 ==> s[0] != '"' by {
          if |s| >= 2 { assert s[0] in s; }
        }
        s
  }

  /** As written, a quoted value does not read back: "a<TAB>b" is written as "\"a<TAB>b"
    * and a reader takes the opening quote as part of the value. */
  lemma FormatTsvSingleDoesNotReadBack()
    ensures FormatTsvSingle(Some("a\tb")) == "\"a\tb"
    ensures ParseTsvField(FormatTsvSingle(Some("a\tb"))) != "a\tb"
  {
    assert NeedsQuoting("a\tb") by { assert "a\tb"[1] == '\t'; }
    assert DoubleQuotes("a\tb") == "a\tb" by {
      assert DoubleQuotes("b") == "b";
      assert "a\tb"[1..] == "\tb";
      assert "\tb"[1..] == "b";
    }
  }

  /** The fields of one output line, formatted one by one (with the closing quote). */
  function FormatFields(data: seq<Option<string>>): (r: seq<string>)
    ensures |r| == |data|
    ensures forall i | 0 <= i < |data| :: r[i] == FormatTsvField(data[i])
  {
    if |data| == 0 then [] else [FormatTsvField(data[0])] + FormatFields(data[1..])
  }

  /** formatTsv: the formatted fields joined by single tabs, in argument order. */
  function FormatTsv(data: seq<Option<string>>): string {
    Join(FormatFields(data), '\t')
  }

  /** When no argument needs quoting, cutting the line at every tab gives back exactly the
    * formatted fields. (Java's String.split would in addition drop trailing empty fields.) */
  lemma SplitOfFormatTsv(data: seq<Option<string>>)
    requires |data| >= 1
    requires forall i | 0 <= i < |data| :: data[i].Some? ==> !NeedsQuoting(data[i].value)
    ensures RawSplit(FormatTsv(data), '\t') == FormatFields(data)
  {
    var fields := FormatFields(data);
    forall k | 0 <= k < |fields|
      ensures '\t' !in fields[k]
    {
      assert fields[k] == FormatTsvField(data[k]);
    }
    RawSplitOfJoin(fields, '\t');
  }
}
