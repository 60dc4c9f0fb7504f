/** command/TabConfigToTextCommand: tab-separated lines of code, tab and an optional suffix are
  * turned into the TABMAP text that DocIndexCommand reads back. Standard input is given as its
  * sequence of lines. */
module TabConfigText {
  import opened Wrappers
  import opened JavaText
  import opened DocIndexModel

  /** What one input line contributes. */
  datatype LineResult = Skip | Invalid | Piece(entry: TabEntry)

  /** One line split on tabs with Java's split, which drops trailing empty fields: fewer than two
    * fields or two blank fields are skipped, exactly one blank field is invalid, and otherwise the
    * code is the first field and the tab the second, followed by "=" and the third when there is
    * a third field that is not blank. */
  function ReadLine(line: string): (r: LineResult)
    ensures var fields := Split(line, '\t');
      && (r == Skip <==> |fields| < 2 || (IsBlank(fields[0]) && IsBlank(fields[1])))
      && (r == Invalid <==> |fields| >= 2 && IsBlank(fields[0]) != IsBlank(fields[1]))
      && (r.Piece? ==>
            && r.entry.code == fields[0] && !IsBlank(r.entry.code)
            && r.entry.tab == (if |fields| > 2 && !IsBlank(fields[2]) then fields[1] + "=" + fields[2] else fields[1]))
  {
    var fields := Split(line, '\t');
    if |fields| < 2 then Skip
    else if IsBlank(fields[0]) && IsBlank(fields[1]) then Skip
    else if IsBlank(fields[0]) || IsBlank(fields[1]) then Invalid
    else if |fields| > 2 && !IsBlank(fields[2]) then Piece(TabEntry(fields[0], fields[1] + "=" + fields[2]))
    else Piece(TabEntry(fields[0], fields[1]))
  }

  /** The entries of the valid lines in input order; the first invalid line fails the run with
    * IllegalArgumentException. */
  function TabEntries(lines: seq<string>): (r: Result<seq<TabEntry>>)
    ensures r.Ok? <==> forall i | 0 <= i < |lines| :: ReadLine(lines[i]) != Invalid
  {
    if |lines| == 0 then Ok([])
    else
      var first := ReadLine(lines[0]);
      assert forall i | 1 <= i < |lines| :: lines[i] == lines[1..][i - 1];
      if first == Invalid then Fail(IllegalArgument, "Invalid input: " + lines[0])
      else
        var rest :- TabEntries(lines[1..]);
        if first.Piece? then Ok([first.entry] + rest) else Ok(rest)
  }

  /** The error is the first invalid line's, and every entry comes from a valid line. */
  lemma {:induction false} TabEntriesFrom(lines: seq<string>)
    ensures TabEntries(lines).Err? ==> exists i | 0 <= i < |lines| ::
      ReadLine(lines[i]) == Invalid && TabEntries(lines) == Fail(IllegalArgument, "Invalid input: " + lines[i])
    ensures TabEntries(lines).Ok? ==> forall e | e in TabEntries(lines).value ::
      exists i | 0 <= i < |lines| :: ReadLine(lines[i]) == Piece(e)
    decreases |lines|
  {
    if |lines| > 0 {
      TabEntriesFrom(lines[1..]);
      assert forall i | 1 <= i < |lines| :: lines[i] == lines[1..][i - 1];
      if ReadLine(lines[0]) != Invalid && TabEntries(lines[1..]).Err? {
        var i :| 0 <= i < |lines[1..]| && ReadLine(lines[1..][i]) == Invalid
          && TabEntries(lines[1..]) == Fail(IllegalArgument, "Invalid input: " + lines[1..][i]);
        assert lines[i + 1] == lines[1..][i];
      }
      if TabEntries(lines).Ok? {
        forall e | e in TabEntries(lines).value
          ensures exists i | 0 <= i < |lines| :: ReadLine(lines[i]) == Piece(e)
        {
          if e !in TabEntries(lines[1..]).value {
            assert ReadLine(lines[0]) == Piece(e);
          } else {
            var i :| 0 <= i < |lines[1..]| && ReadLine(lines[1..][i]) == Piece(e);
            assert lines[i + 1] == lines[1..][i];
          }
        }
      }
    }
  }

  /** "code=tab" */
  function EntryText(e: TabEntry): string {
    e.code + "=" + e.tab
  }

  /** The StringBuilder's content: each entry's text followed by ','. */
  function Terminated(entries: seq<TabEntry>): (r: string)
    ensures |entries| == 0 <==> |r| == 0
  {
    if |entries| == 0 then "" else EntryText(entries[0]) + "," + Terminated(entries[1..])
  }

  lemma {:induction false} TerminatedAppend(entries: seq<TabEntry>, e: TabEntry)
    ensures Terminated(entries + [e]) == Terminated(entries) + EntryText(e) + ","
    decreases |entries|
  {
    if |entries| > 0 {
      assert (entries + [e])[1..] == entries[1..] + [e];
      TerminatedAppend(entries[1..], e);
    }
  }

  /** The text the command prints (before println's line end), or the error it throws. */
  function TabText(lines: seq<string>): Result<string> {
    var entries :- TabEntries(lines);
    Ok(Terminated(entries))
  }

  /** TabEntries after some lines are done: the done entries, then the rest's. */
  function Continued(done: seq<TabEntry>, rest: Result<seq<TabEntry>>): Result<seq<TabEntry>> {
    if rest.Err? then rest else Ok(done + rest.value)
  }

  /** TabEntries from line i on, by what line i contributes. */
  lemma TabEntriesStep(lines: seq<string>, i: nat)
    requires i < |lines|
    ensures ReadLine(lines[i]) == Skip ==> TabEntries(lines[i..]) == TabEntries(lines[i + 1..])
    ensures ReadLine(lines[i]) == Invalid ==> TabEntries(lines[i..]) == Fail(IllegalArgument, "Invalid input: " + lines[i])
    ensures ReadLine(lines[i]).Piece? ==>
      TabEntries(lines[i..]) == Continued([ReadLine(lines[i]).entry], TabEntries(lines[i + 1..]))
  {
    assert lines[i..][1..] == lines[i + 1..];
    assert lines[i..][0] == lines[i];
  }

  lemma ContinuedAppend(done: seq<TabEntry>, e: TabEntry, rest: Result<seq<TabEntry>>)
    ensures Continued(done + [e], rest) == Continued(done, Continued([e], rest))
  {
    if rest.Ok? {
      assert done + [e] + rest.value == done + ([e] + rest.value);
    }
  }

  /** One pass of execute's loop: split the line, skip it, reject it, or append its fields to
    * the StringBuilder. */
  method FormatLine(sb: string, line: string) returns (r: Result<string>)
    ensures r == Formatted(sb, line)
  {
    var fields := Split(line, '\t');
    if |fields| < 2 {
      return Ok(sb);
    } else if IsBlank(fields[0]) && IsBlank(fields[1]) {
      return Ok(sb);
    } else if IsBlank(fields[0]) || IsBlank(fields[1]) {
      return Fail(IllegalArgument, "Invalid input: " + line);
    }
    var text := sb + fields[0] + "=" + fields[1];
    if |fields| > 2 && !IsBlank(fields[2]) {
      text := text + "=" + fields[2];
      assert text == sb + EntryText(TabEntry(fields[0], fields[1] + "=" + fields[2]));
    } else {
      assert text == sb + EntryText(TabEntry(fields[0], fields[1]));
    }
    return Ok(text + ",");
  }

  /** execute's loop over the lines, appending to the StringBuilder. */
  method FormatLines(lines: seq<string>) returns (r: Result<string>)
    ensures r == TabText(lines)
  {
    var sb := "";
    ghost var done: seq<TabEntry> := [];
    var i := 0;
    LinesFromStart(lines);
    while i < |lines|
      invariant 0 <= i <= |lines|
      invariant TabEntries(lines) == Continued(done, TabEntries(lines[i..]))
      invariant sb == Terminated(done)
    {
      LinesStep(lines, i, done, sb);
      var next := FormatLine(sb, lines[i]);
      if next.Err? {
        return next;
      }
      done := Advance(done, lines[i]);
      sb := next.value;
      i := i + 1;
    }
    LinesDone(lines, done);
    r := Ok(sb);
  }

  lemma LinesFromStart(lines: seq<string>)
    ensures TabEntries(lines) == Continued([], TabEntries(lines[0..]))
  {
    assert lines[0..] == lines;
    if TabEntries(lines).Ok? {
      assert [] + TabEntries(lines).value == TabEntries(lines).value;
    }
  }

  /** The entries once a line is read: one more for a "code\ttab" line. */
  function Advance(done: seq<TabEntry>, line: string): seq<TabEntry> {
    if ReadLine(line).Piece? then done + [ReadLine(line).entry] else done
  }

  /** What one pass of the loop yields: the text so far, unchanged, extended, or the error. */
  function Formatted(sb: string, line: string): Result<string> {
    match ReadLine(line)
    case Skip => Ok(sb)
    case Invalid => Fail(IllegalArgument, "Invalid input: " + line)
    case Piece(entry) => Ok(sb + EntryText(entry) + ",")
  }

  /** What line i does to the entries still to come and to the text so far. */
  lemma LinesStep(lines: seq<string>, i: nat, done: seq<TabEntry>, sb: string)
    requires i < |lines| && TabEntries(lines) == Continued(done, TabEntries(lines[i..]))
    requires sb == Terminated(done)
    ensures Formatted(sb, lines[i]).Err? ==> TabText(lines) == Formatted(sb, lines[i])
    ensures Formatted(sb, lines[i]).Ok? ==>
      && TabEntries(lines) == Continued(Advance(done, lines[i]), TabEntries(lines[i + 1..]))
      && Formatted(sb, lines[i]).value == Terminated(Advance(done, lines[i]))
  {
    TabEntriesStep(lines, i);
    if ReadLine(lines[i]).Piece? {
      TerminatedAppend(done, ReadLine(lines[i]).entry);
      ContinuedAppend(done, ReadLine(lines[i]).entry, TabEntries(lines[i + 1..]));
    }
  }

  lemma LinesDone(lines: seq<string>, done: seq<TabEntry>)
    requires TabEntries(lines) == Continued(done, TabEntries(lines[|lines|..]))
    ensures TabText(lines) == Ok(Terminated(done))
  {
    assert lines[|lines|..] == [];
    assert done + [] == done;
  }

  // ---------------------------------------------------------------- reading the text back

  lemma {:induction false} TerminatedIsJoin(entries: seq<TabEntry>)
    ensures Terminated(entries) == Join(Texts(entries) + [""], ',')
    decreases |entries|
  {
    if |entries| > 0 {
      TerminatedIsJoin(entries[1..]);
      assert Texts(entries) + [""] == [EntryText(entries[0])] + (Texts(entries[1..]) + [""]);
    }
  }

  function Texts(entries: seq<TabEntry>): (r: seq<string>)
    ensures |r| == |entries| && forall i | 0 <= i < |entries| :: r[i] == EntryText(entries[i])
  {
    seq(|entries|, i requires 0 <= i < |entries| => EntryText(entries[i]))
  }

  lemma DropLastEmpty(parts: seq<string>)
    requires |parts| > 0 && |parts[|parts| - 1]| > 0
    ensures DropTrailingEmpty(parts + [""]) == parts
  {
    var r := DropTrailingEmpty(parts + [""]);
    assert (parts + [""])[|parts| - 1] == parts[|parts| - 1];
    assert (parts + [""])[|parts|] == "";
    assert |r| == |parts|;
    assert (parts + [""])[..|parts|] == parts;
  }

  lemma {:induction false} NonBlankKeeps(pieces: seq<string>)
    requires forall i | 0 <= i < |pieces| :: !IsBlank(pieces[i])
    ensures NonBlank(pieces) == pieces
    decreases |pieces|
  {
    if |pieces| > 0 {
      NonBlankKeeps(pieces[1..]);
    }
  }

  /** A text split at its first '=' has one code and one tab. */
  lemma SplitAtFirstEquals(a: string, b: string, c: string, d: string)
    requires '=' !in a && '=' !in c
    requires a + "=" + b == c + "=" + d
    ensures a == c && b == d
  {
    var s := a + "=" + b;
    IndexOfAfter(a, '=', b);
    IndexOfAfter(c, '=', d);
    assert a == s[..|a|] && c == s[..|c|];
    assert b == s[|a| + 1..] && d == s[|c| + 1..];
  }

  /** Each entry's text is free of ',' when its fields are, holds '=' and is not blank. */
  lemma TextsFacts(entries: seq<TabEntry>)
    requires forall i | 0 <= i < |entries| :: ',' !in entries[i].code && ',' !in entries[i].tab
    ensures forall i | 0 <= i < |entries| :: ',' !in Texts(entries)[i] && '=' in Texts(entries)[i] && !IsBlank(Texts(entries)[i])
  {
    var texts := Texts(entries);
    forall i | 0 <= i < |texts|
      ensures ',' !in texts[i] && '=' in texts[i] && !IsBlank(texts[i])
    {
      assert texts[i][|entries[i].code|] == '=';
      assert !IsWhitespace('=');
    }
  }

  lemma NoCommaInParts(entries: seq<TabEntry>)
    requires forall i | 0 <= i < |entries| :: ',' !in Texts(entries)[i]
    ensures forall k | 0 <= k < |Texts(entries) + [""]| :: ',' !in (Texts(entries) + [""])[k]
  {
    var parts := Texts(entries) + [""];
    forall k | 0 <= k < |parts|
      ensures ',' !in parts[k]
    {
      if k < |entries| {
        assert parts[k] == Texts(entries)[k];
      }
    }
  }

  lemma RawSplitOfTerminated(entries: seq<TabEntry>)
    requires forall i | 0 <= i < |entries| :: ',' !in Texts(entries)[i]
    ensures RawSplit(Terminated(entries), ',') == Texts(entries) + [""]
  {
    var parts := Texts(entries) + [""];
    NoCommaInParts(entries);
    var text := Terminated(entries);
    var joined := Join(parts, ',');
    TerminatedIsJoin(entries);
    assert text == joined;
    RawSplitOfJoin(parts, ',');
    assert RawSplit(joined, ',') == parts;
  }

  /** Java's split on ',' of the printed text: the entries' texts, the empty piece after the last
    * ',' dropped. */
  lemma SplitOfTerminated(entries: seq<TabEntry>)
    requires |entries| > 0
    requires forall i | 0 <= i < |entries| :: ',' !in entries[i].code && ',' !in entries[i].tab
    ensures Split(Terminated(entries), ',') == Texts(entries)
  {
    var text := Terminated(entries);
    var texts := Texts(entries);
    TextsFacts(entries);
    assert ',' in text by {
      assert text == texts[0] + "," + Terminated(entries[1..]);
      assert text[|texts[0]|] == ',';
    }
    RawSplitOfTerminated(entries);
    DropLastEmpty(texts);
  }

  /** The printed text is cut back into the entries' texts by readTabMap's split and blank
    * filter. */
  lemma PiecesOfTerminated(entries: seq<TabEntry>)
    requires forall i | 0 <= i < |entries| :: ',' !in entries[i].code && ',' !in entries[i].tab
    ensures TabPieces(Terminated(entries)) == Texts(entries)
  {
    TextsFacts(entries);
    if |entries| == 0 {
      assert Split(Terminated(entries), ',') == [""];
    } else {
      SplitOfTerminated(entries);
      NonBlankKeeps(Texts(entries));
    }
  }

  /** Round trip: the TABMAP parser reads the printed text back as the lines' entries, when codes
    * are distinct, no field holds ',', and no code holds '='. */
  lemma TabTextReadsBack(entries: seq<TabEntry>)
    requires DistinctCodes(entries)
    requires forall i | 0 <= i < |entries| :: ',' !in entries[i].code && ',' !in entries[i].tab && '=' !in entries[i].code
    ensures ReadTabMap(Terminated(entries)) == Ok(entries)
  {
    PiecesOfTerminated(entries);
    ParseTexts(entries);
  }

  /** readTabMap's parse of the entries' texts gives the entries back. */
  lemma ParseTexts(entries: seq<TabEntry>)
    requires forall i | 0 <= i < |entries| :: ',' !in entries[i].code && ',' !in entries[i].tab && '=' !in entries[i].code
    ensures ParsePieces(Texts(entries)) == Ok(entries)
  {
    TextsFacts(entries);
    var parsed := ParsePieces(Texts(entries));
    forall i | 0 <= i < |entries|
      ensures parsed.value[i] == entries[i]
    {
      SplitAtFirstEquals(parsed.value[i].code, parsed.value[i].tab, entries[i].code, entries[i].tab);
    }
    assert parsed.value == entries;
  }

  /** The same round trip from the command's input: every valid line's code maps to its tab. */
  lemma FormatLinesReadBack(lines: seq<string>)
    requires TabEntries(lines).Ok?
    requires DistinctCodes(TabEntries(lines).value)
    requires forall i | 0 <= i < |lines| :: ',' !in lines[i]
    requires forall i | 0 <= i < |lines| :: ReadLine(lines[i]).Piece? ==> '=' !in ReadLine(lines[i]).entry.code
    ensures TabText(lines).Ok? && ReadTabMap(TabText(lines).value) == TabEntries(lines)
  {
    SafeEntries(lines);
    TabTextReadsBack(TabEntries(lines).value);
  }

  /** An entry the printed text can carry: no ',' anywhere and no '=' in the code. */
  predicate SafeEntry(entry: TabEntry) {
    ',' !in entry.code && ',' !in entry.tab && '=' !in entry.code
  }

  /** Lines without ',' whose codes have no '=' give safe entries. */
  lemma {:induction false} SafeEntries(lines: seq<string>)
    requires TabEntries(lines).Ok?
    requires forall i | 0 <= i < |lines| :: ',' !in lines[i]
    requires forall i | 0 <= i < |lines| :: ReadLine(lines[i]).Piece? ==> '=' !in ReadLine(lines[i]).entry.code
    ensures forall k | 0 <= k < |TabEntries(lines).value| :: SafeEntry(TabEntries(lines).value[k])
    decreases |lines|
  {
    if |lines| > 0 {
      var rest := lines[1..];
      assert forall i | 0 <= i < |rest| :: rest[i] == lines[i + 1];
      SafeEntries(rest);
      FieldsOfLine(lines[0]);
      var first := ReadLine(lines[0]);
      if first.Piece? {
        var entries := [first.entry] + TabEntries(rest).value;
        assert TabEntries(lines).value == entries;
        forall k | 0 <= k < |entries|
          ensures SafeEntry(entries[k])
        {
          if k > 0 {
            assert entries[k] == TabEntries(rest).value[k - 1];
          }
        }
      } else {
        assert TabEntries(lines).value == TabEntries(rest).value;
      }
    }
  }

  /** The fields of a line hold no character the line does not. */
  lemma FieldsOfLine(line: string)
    requires ',' !in line
    ensures ReadLine(line).Piece? ==> ',' !in ReadLine(line).entry.code && ',' !in ReadLine(line).entry.tab
  {
    var fields := Split(line, '\t');
    RawSplitPieces(line, '\t');
    if '\t' in line {
      assert forall k | 0 <= k < |fields| :: fields[k] in RawSplit(line, '\t');
    }
  }

  lemma {:induction false} RawSplitPieces(s: string, c: char)
    ensures forall k, x | 0 <= k < |RawSplit(s, c)| && x in RawSplit(s, c)[k] :: x in s
    decreases |s|
  {
    var i := IndexOf(s, c);
    if i >= 0 {
      RawSplitPieces(s[i + 1..], c);
      var r := RawSplit(s, c);
      forall k, x | 0 <= k < |r| && x in r[k]
        ensures x in s
      {
        if k > 0 {
          assert r[k] == RawSplit(s[i + 1..], c)[k - 1];
          assert x in s[i + 1..];
        } else {
          assert r[0] == s[..i];
          assert x in s[..i];
        }
      }
    }
  }
}
