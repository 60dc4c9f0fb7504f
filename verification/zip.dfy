/** command/ZipCommand: the files the index lists (each row's file and its Media file) are
  * compressed into one archive, into one archive split in volumes of -s bytes, or (-a) into as
  * many numbered archives as needed, each filled greedily up to -a bytes. The file system and
  * the compression are not part of this model: whether a path exists, the compressed size of a
  * file and the bytes an archive has written are given functions. */
module ZipModel {
  import opened Wrappers
  import opened TableRows
  import IndexReader
  import FileNames
  import TsvTableUpdatorModel

  // ---------------------------------------------------------------------------------------------
  // Options

  /** validateOptions: -l and -o are mandatory, and -s and -a exclude each other. */
  function ValidateZip(listFile: Option<string>, output: Option<string>, maxPart: Option<int>,
                       maxArchive: Option<int>): (r: Validation)
    ensures r == Continue <==> listFile.Some? && output.Some? && !(maxPart.Some? && maxArchive.Some?)
    ensures listFile.None? ==> r == Usage("-l index file is mandatory")
    ensures listFile.Some? && output.None? ==> r == Usage("-o output file is mandatory")
    ensures listFile.Some? && output.Some? && maxPart.Some? && maxArchive.Some?
      ==> r == Usage("-s and -a cannot be specified both")
  {
    if listFile.None? then Usage("-l index file is mandatory")
    else if output.None? then Usage("-o output file is mandatory")
    else if maxPart.Some? && maxArchive.Some? then Usage("-s and -a cannot be specified both")
    else Continue
  }

  // ---------------------------------------------------------------------------------------------
  // The file list

  const MEDIA: string := "Media"

  /** A row of the index: its id is the file name, and its Media cell another file. */
  datatype InputEntry = InputEntry(filename: string, media: Option<string>)

  const NULL_HEADERS_MESSAGE: string :=
    "Cannot invoke \"java.util.Map.get(Object)\" because the return value of \"com.github.kvr000.zbyneklegal.format.table.TableUpdator.getHeaders()\" is null"

  /** readListFile: the index's getHeaders() is read first, so a null header map (what a TSV
    * index gives, see TsvTableUpdatorModel.GetHeaders) throws NullPointerException whatever the
    * keys; the index then needs a "Media" column; the rows readIndex keeps (all but BASE when no
    * -k key is given) become entries, in order. */
  function ReadListFile(headers: Option<map<string, nat>>, entries: seq<Entry>, keys: seq<string>)
    : (r: Result<seq<InputEntry>>)
    ensures headers.None? ==> r == Fail(NullPointer, NULL_HEADERS_MESSAGE)
    ensures headers.Some? && MEDIA !in headers.value ==> r == Fail(IllegalArgument, "Key not found in index file: Media")
    ensures headers.Some? && MEDIA in headers.value && |keys| == 0 ==> r.Ok?
    ensures r.Ok? ==> var selected := IndexReader.ReadIndex(headers, entries, if |keys| == 0 then None else Some(keys));
      && headers.Some? && selected.Ok? && |r.value| == |selected.value|
      && forall k | 0 <= k < |r.value| ::
           && r.value[k].filename == selected.value[k].id
           && r.value[k].media == (if MEDIA in selected.value[k].row then Some(selected.value[k].row[MEDIA]) else None)
  {
    if headers.None? then Fail(NullPointer, NULL_HEADERS_MESSAGE)
    else if MEDIA !in headers.value then Fail(IllegalArgument, "Key not found in index file: Media")
    else
      var selected :- IndexReader.ReadIndex(headers, entries, if |keys| == 0 then None else Some(keys));
      Ok(seq(|selected|, k requires 0 <= k < |selected| =>
        InputEntry(selected[k].id, if MEDIA in selected[k].row then Some(selected[k].row[MEDIA]) else None)))
  }

  /** As written, zip over a TSV index fails with NullPointerException whatever its columns and
    * keys, because that table's getHeaders() is the shadowed, never-assigned field. */
  lemma ReadListFileOverTsvTableFails(table: TsvTableUpdatorModel.TsvTableUpdator, keys: seq<string>)
    requires table.Valid() && table.inheritedHeaders == None
    ensures ReadListFile(table.GetHeaders(), table.ListEntries(), keys) == Fail(NullPointer, NULL_HEADERS_MESSAGE)
  {
  }

  /** findFile: the name itself, or the name with ".pdf", whichever exists first; otherwise the
    * FileNotFoundException is logged and the file skipped. */
  function FindFile(name: string, present: string -> bool): (r: Option<string>)
    ensures r.Some? ==> present(r.value) && (r.value == name || r.value == name + ".pdf")
    ensures r.None? <==> !present(name) && !present(name + ".pdf")
    ensures present(name) ==> r == Some(name)
  {
    if present(name) then Some(name)
    else if present(name + ".pdf") then Some(name + ".pdf")
    else None
  }

  /** What one row contributes: its file, if found, then its Media path, if it exists. */
  function EntryFiles(e: InputEntry, present: string -> bool): (r: seq<string>)
    ensures forall p | p in r :: present(p)
    ensures |r| <= 2
  {
    var file := if |e.filename| > 0 then FindFile(e.filename, present) else None;
    var media := if e.media.Some? && |e.media.value| > 0 && present(e.media.value) then [e.media.value] else [];
    (if file.Some? then [file.value] else []) + media
  }

  /** The whole list, row by row. */
  function FileList(entries: seq<InputEntry>, present: string -> bool): (r: seq<string>)
    ensures forall p | p in r :: present(p)
  {
    if |entries| == 0 then []
    else FileList(entries[..|entries| - 1], present) + EntryFiles(entries[|entries| - 1], present)
  }

  /** A row's Media file is listed when it exists, and a row's own file when it or its ".pdf"
    * exists. */
  lemma {:induction false} FileListHasRowFiles(entries: seq<InputEntry>, present: string -> bool, k: nat)
    requires k < |entries|
    ensures var e := entries[k];
      && (e.media.Some? && |e.media.value| > 0 && present(e.media.value) ==> e.media.value in FileList(entries, present))
      && (|e.filename| > 0 && FindFile(e.filename, present).Some?
          ==> FindFile(e.filename, present).value in FileList(entries, present))
    decreases |entries|
  {
    var init := entries[..|entries| - 1];
    if k < |entries| - 1 {
      FileListHasRowFiles(init, present, k);
      assert init[k] == entries[k];
    }
  }

  /** The loop building toCompress. */
  method BuildFileList(entries: seq<InputEntry>, present: string -> bool) returns (toCompress: seq<string>)
    ensures toCompress == FileList(entries, present)
  {
    toCompress := [];
    for i := 0 to |entries|
      invariant toCompress == FileList(entries[..i], present)
    {
      var entry := entries[i];
      if |entry.filename| > 0 {
        var file := FindFile(entry.filename, present);
        if file.Some? {
          toCompress := toCompress + [file.value];
        }
      }
      if entry.media.Some? && |entry.media.value| > 0 {
        if present(entry.media.value) {
          toCompress := toCompress + [entry.media.value];
        }
      }
      assert entries[..i + 1][..i] == entries[..i];
    }
    assert entries[..|entries|] == entries;
  }

  // ---------------------------------------------------------------------------------------------
  // Archives

  /** An archive file and its entries, in order. */
  datatype Archive = Archive(name: string, entries: seq<string>)

  /** The entries of the archives, one archive after the other. */
  function Contents(archives: seq<Archive>): seq<string> {
    if |archives| == 0 then []
    else Contents(archives[..|archives| - 1]) + archives[|archives| - 1].entries
  }

  /** The -a size rule: with `entries` already in the archive, `file` joins it when the bytes
    * written, its compressed size and 512 bytes per entry including it stay within the limit. */
  predicate Admits(entries: seq<string>, file: string, compressed: string -> nat,
                   written: seq<string> -> int, maxArchive: int) {
    written(entries) + compressed(file) + 512 * (|entries| + 1) <= maxArchive
  }

  /** Every entry of the archive was admitted by the rule when it was added. */
  predicate Packed(entries: seq<string>, compressed: string -> nat, written: seq<string> -> int,
                   maxArchive: int) {
    forall k | 0 <= k < |entries| :: Admits(entries[..k], entries[k], compressed, written, maxArchive)
  }

  /** An archive of -a: not empty, and every entry admitted by the rule. */
  predicate Filled(a: Archive, compressed: string -> nat, written: seq<string> -> int, maxArchive: int) {
    |a.entries| > 0 && Packed(a.entries, compressed, written, maxArchive)
  }

  /** Every file fits into an empty archive; otherwise -a makes no progress and loops. */
  predicate EachFits(files: seq<string>, compressed: string -> nat, written: seq<string> -> int,
                     maxArchive: int) {
    forall i | 0 <= i < |files| :: Admits([], files[i], compressed, written, maxArchive)
  }

  /** The archives are filled greedily: each is filled by the rule, and the file that opened the
    * next archive was refused by the one before. */
  predicate Greedy(archives: seq<Archive>, compressed: string -> nat, written: seq<string> -> int,
                   maxArchive: int) {
    && (forall k | 0 <= k < |archives| :: Filled(archives[k], compressed, written, maxArchive))
    && (forall k | 0 <= k < |archives| - 1 ::
          !Admits(archives[k].entries, archives[k + 1].entries[0], compressed, written, maxArchive))
  }

  lemma PackedStep(entries: seq<string>, file: string, compressed: string -> nat,
                    written: seq<string> -> int, maxArchive: int)
    requires Packed(entries, compressed, written, maxArchive)
    requires Admits(entries, file, compressed, written, maxArchive)
    ensures Packed(entries + [file], compressed, written, maxArchive)
  {
    var longer := entries + [file];
    forall k | 0 <= k < |longer|
      ensures Admits(longer[..k], longer[k], compressed, written, maxArchive)
    {
      if k < |entries| {
        assert longer[..k] == entries[..k];
      } else {
        assert longer[..k] == entries;
      }
    }
  }

  lemma ContentsStep(archives: seq<Archive>, archive: Archive)
    ensures Contents(archives + [archive]) == Contents(archives) + archive.entries
  {
    assert (archives + [archive])[..|archives|] == archives;
  }

  lemma GreedyStep(archives: seq<Archive>, archive: Archive, compressed: string -> nat,
                   written: seq<string> -> int, maxArchive: int)
    requires Greedy(archives, compressed, written, maxArchive)
    requires Filled(archive, compressed, written, maxArchive)
    requires |archives| > 0
      ==> !Admits(archives[|archives| - 1].entries, archive.entries[0], compressed, written, maxArchive)
    ensures Greedy(archives + [archive], compressed, written, maxArchive)
  {
    var longer := archives + [archive];
    assert longer[..|archives|] == archives;
    forall k | 0 <= k < |longer|
      ensures Filled(longer[k], compressed, written, maxArchive)
    {
      if k < |archives| {
        assert longer[k] == archives[k];
      }
    }
    forall k | 0 <= k < |longer| - 1
      ensures !Admits(longer[k].entries, longer[k + 1].entries[0], compressed, written, maxArchive)
    {
      assert longer[k] == archives[k];
    }
  }

  /** The inner loop of -a: files are moved from the head of the list into the archive until the
    * list is empty or the head is refused. */
  method FillArchive(toCompress: seq<string>, compressed: string -> nat, written: seq<string> -> int,
                     maxArchive: int)
    returns (entries: seq<string>, rest: seq<string>)
    ensures entries + rest == toCompress
    ensures Packed(entries, compressed, written, maxArchive)
    ensures |rest| > 0 ==> !Admits(entries, rest[0], compressed, written, maxArchive)
  {
    entries := [];
    rest := toCompress;
    var entriesCounter := 0;
    while |rest| > 0
      invariant entriesCounter == |entries|
      invariant entries + rest == toCompress
      invariant Packed(entries, compressed, written, maxArchive)
      decreases |rest|
    {
      if written(entries) + compressed(rest[0]) + 512 * (entriesCounter + 1) > maxArchive {
        break;
      }
      PackedStep(entries, rest[0], compressed, written, maxArchive);
      entries := entries + [rest[0]];
      rest := rest[1..];
      entriesCounter := entriesCounter + 1;
    }
  }

  /** What the -a loop keeps: the archives so far hold the consumed head of the list in order,
    * are named by their position, are filled greedily, and the last one refused the next file. */
  ghost predicate PackedSoFar(output: string, toCompress: seq<string>, archives: seq<Archive>,
                              rest: seq<string>, compressed: string -> nat, written: seq<string> -> int,
                              maxArchive: int) {
    && Contents(archives) + rest == toCompress
    && EachFits(rest, compressed, written, maxArchive)
    && (forall k | 0 <= k < |archives| :: archives[k].name == FileNames.NumberedName(output, k))
    && Greedy(archives, compressed, written, maxArchive)
    && (|archives| > 0 && |rest| > 0
        ==> !Admits(archives[|archives| - 1].entries, rest[0], compressed, written, maxArchive))
  }

  lemma EachFitsSuffix(files: seq<string>, n: nat, compressed: string -> nat,
                       written: seq<string> -> int, maxArchive: int)
    requires n <= |files| && EachFits(files, compressed, written, maxArchive)
    ensures EachFits(files[n..], compressed, written, maxArchive)
  {
    forall i | 0 <= i < |files| - n
      ensures Admits([], files[n..][i], compressed, written, maxArchive)
    {
      assert files[n..][i] == files[n + i];
    }
  }

  lemma Regroup(a: seq<string>, b: seq<string>, c: seq<string>)
    ensures (a + b) + c == a + (b + c)
  {
  }

  lemma SuffixOfAppend(a: seq<string>, b: seq<string>)
    ensures (a + b)[|a|..] == b
  {
  }

  lemma NamesStep(output: string, archives: seq<Archive>, entries: seq<string>)
    requires forall k | 0 <= k < |archives| :: archives[k].name == FileNames.NumberedName(output, k)
    ensures var longer := archives + [Archive(FileNames.NumberedName(output, |archives|), entries)];
      forall k | 0 <= k < |longer| :: longer[k].name == FileNames.NumberedName(output, k)
  {
    var longer := archives + [Archive(FileNames.NumberedName(output, |archives|), entries)];
    forall k | 0 <= k < |longer|
      ensures longer[k].name == FileNames.NumberedName(output, k)
    {
      if k < |archives| {
        assert longer[k] == archives[k];
      } else {
        assert longer[k] == Archive(FileNames.NumberedName(output, |archives|), entries);
      }
    }
  }

  lemma EmptyPrefix(entries: seq<string>, remaining: seq<string>)
    ensures |entries| == 0 ==> entries + remaining == remaining
  {
  }

  /** One pass of the outer -a loop keeps what the loop keeps. */
  lemma PackStep(output: string, toCompress: seq<string>, archives: seq<Archive>, rest: seq<string>,
                 entries: seq<string>, remaining: seq<string>, compressed: string -> nat,
                 written: seq<string> -> int, maxArchive: int)
    requires PackedSoFar(output, toCompress, archives, rest, compressed, written, maxArchive)
    requires |rest| > 0 && entries + remaining == rest
    requires Packed(entries, compressed, written, maxArchive)
    requires |remaining| > 0 ==> !Admits(entries, remaining[0], compressed, written, maxArchive)
    ensures var archive := Archive(FileNames.NumberedName(output, |archives|), entries);
      PackedSoFar(output, toCompress, archives + [archive], remaining, compressed, written, maxArchive)
  {
    var archive := Archive(FileNames.NumberedName(output, |archives|), entries);
    assert Admits([], rest[0], compressed, written, maxArchive);
    EmptyPrefix(entries, remaining);
    assert |entries| > 0;
    assert entries[0] == rest[0] by {
      assert rest[0] == (entries + remaining)[0];
    }
    GreedyStep(archives, archive, compressed, written, maxArchive);
    ContentsStep(archives, archive);
    Regroup(Contents(archives), entries, remaining);
    SuffixOfAppend(entries, remaining);
    EachFitsSuffix(rest, |entries|, compressed, written, maxArchive);
    NamesStep(output, archives, entries);
  }

  /** -a: archives named output-0000.ext, output-0001.ext, ... are filled greedily until the
    * list is used up. A file that does not fit even into an empty archive would make the
    * command loop for ever, so every file must fit into an empty one. */
  method PackArchives(output: string, toCompress: seq<string>, compressed: string -> nat,
                      written: seq<string> -> int, maxArchive: int)
    returns (archives: seq<Archive>)
    requires EachFits(toCompress, compressed, written, maxArchive)
    ensures Contents(archives) == toCompress
    ensures forall k | 0 <= k < |archives| :: archives[k].name == FileNames.NumberedName(output, k)
    ensures Greedy(archives, compressed, written, maxArchive)
  {
    archives := [];
    var rest := toCompress;
    var archiveCounter := 0;
    assert [] + rest == rest;
    while |rest| > 0
      invariant archiveCounter == |archives|
      invariant PackedSoFar(output, toCompress, archives, rest, compressed, written, maxArchive)
      decreases |rest|
    {
      var entries, remaining := FillArchive(rest, compressed, written, maxArchive);
      PackStep(output, toCompress, archives, rest, entries, remaining, compressed, written, maxArchive);
      archives := archives + [Archive(FileNames.NumberedName(output, archiveCounter), entries)];
      rest := remaining;
      archiveCounter := archiveCounter + 1;
    }
    assert Contents(archives) + [] == Contents(archives);
  }

  /** With neither -s nor -a: one archive under the output name, files taken from the head of
    * the list in order. */
  method SingleArchive(output: string, toCompress: seq<string>) returns (archive: Archive)
    ensures archive.name == output && archive.entries == toCompress
  {
    var entries := [];
    var rest := toCompress;
    while |rest| > 0
      invariant entries + rest == toCompress
      decreases |rest|
    {
      entries := entries + [rest[0]];
      rest := rest[1..];
    }
    archive := Archive(output, entries);
  }

  /** execute once the file list is built: -s writes every file, in order, into one archive that
    * the library splits into volumes of -s bytes; -a packs numbered archives; otherwise one
    * archive takes every file. */
  method Pack(output: string, maxPart: Option<int>, maxArchive: Option<int>, toCompress: seq<string>,
              compressed: string -> nat, written: seq<string> -> int)
    returns (archives: seq<Archive>)
    requires maxPart.None? && maxArchive.Some?
      ==> EachFits(toCompress, compressed, written, maxArchive.value)
    ensures Contents(archives) == toCompress
    ensures maxPart.Some? || maxArchive.None? ==> archives == [Archive(output, toCompress)]
    ensures maxPart.None? && maxArchive.Some? ==>
      && Greedy(archives, compressed, written, maxArchive.value)
      && forall k | 0 <= k < |archives| :: archives[k].name == FileNames.NumberedName(output, k)
  {
    if maxPart.Some? {
      archives := [Archive(output, toCompress)];
    } else if maxArchive.Some? {
      archives := PackArchives(output, toCompress, compressed, written, maxArchive.value);
    } else {
      var archive := SingleArchive(output, toCompress);
      archives := [archive];
    }
    assert Contents([Archive(output, toCompress)]) == [] + toCompress;
  }

  /** The archives of -a have distinct names. */
  lemma NumberedArchivesDistinct(output: string, archives: seq<Archive>, i: nat, j: nat)
    requires forall k | 0 <= k < |archives| :: archives[k].name == FileNames.NumberedName(output, k)
    requires i < j < |archives|
    ensures archives[i].name != archives[j].name
  {
    FileNames.NumberedNameInjective(output, i, j);
  }

  /** With -a every archive stays within the limit once its last entry is added: its bytes
    * before that entry plus that entry's compressed size and 512 bytes per entry. */
  lemma {:induction false} PackedWithinLimit(entries: seq<string>, compressed: string -> nat,
                                             written: seq<string> -> int, maxArchive: int)
    requires |entries| > 0 && Packed(entries, compressed, written, maxArchive)
    ensures written(entries[..|entries| - 1]) + compressed(entries[|entries| - 1]) + 512 * |entries|
      <= maxArchive
  {
    assert Admits(entries[..|entries| - 1], entries[|entries| - 1], compressed, written, maxArchive);
  }
}
