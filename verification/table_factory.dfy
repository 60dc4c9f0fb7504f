/** table/TableUpdatorFactory: the kind of table opened for a path is chosen by the extension of
  * the path's last component, as commons-io FilenameUtils reads it. The constructors it then
  * calls are TsvTableUpdatorModel.Open and XlsTableUpdatorModel.Open. */
module TableFactory {
  import opened Wrappers

  const NULL_FILE_NAME_MESSAGE: string := "Cannot invoke \"java.nio.file.Path.toString()\" because the return value of \"java.nio.file.Path.getFileName()\" is null"

  datatype TableKind = TsvTable | XlsTable

  predicate EndsWith(s: string, suffix: string) {
    |suffix| <= |s| && s[|s| - |suffix|..] == suffix
  }

  /** String.lastIndexOf(char): the last position of `c`, or -1. */
  function LastIndexOf(s: string, c: char): (r: int)
    ensures -1 <= r < |s|
    ensures r >= 0 ==> s[r] == c
    ensures forall k | 0 <= k < |s| && s[k] == c :: k <= r
  {
    if |s| == 0 then -1
    else if s[|s| - 1] == c then |s| - 1
    else LastIndexOf(s[..|s| - 1], c)
  }

  /** FilenameUtils.indexOfLastSeparator: the last '/' or '\\'. */
  function LastSeparator(name: string): (r: int)
    ensures -1 <= r < |name|
    ensures forall k | r < k < |name| :: name[k] != '/' && name[k] != '\\'
  {
    var slash := LastIndexOf(name, '/');
    var backslash := LastIndexOf(name, '\\');
    if slash > backslash then slash else backslash
  }

  /** FilenameUtils.getExtension: the text after the last '.', or "" when there is no '.' after
    * the last separator. */
  function Extension(name: string): (r: string)
    ensures '.' !in r && '/' !in r && '\\' !in r
    ensures |r| <= |name| && name[|name| - |r|..] == r
  {
    var dot := LastIndexOf(name, '.');
    if dot < 0 || LastSeparator(name) > dot then ""
    else name[dot + 1..]
  }

  lemma ExtensionEndsName(name: string)
    requires |Extension(name)| > 0
    ensures EndsWith(name, "." + Extension(name))
  {
    var ext := Extension(name);
    var dot := LastIndexOf(name, '.');
    assert name[dot + 1..] == ext;
    assert name[|name| - |ext| - 1..] == [name[dot]] + ext;
  }

  lemma EndingGivesExtension(name: string, ext: string)
    requires '.' !in ext && '/' !in ext && '\\' !in ext
    requires EndsWith(name, "." + ext)
    ensures Extension(name) == ext
  {
    var dot := LastIndexOf(name, '.');
    var i := |name| - |ext| - 1;
    assert name[i..] == "." + ext;
    assert name[i] == '.' by { assert name[i..][0] == name[i]; }
    assert name[i + 1..] == ext by { assert name[i + 1..] == name[i..][1..]; }
    assert forall k | i < k < |name| :: name[k] == ext[k - i - 1];
    assert dot == i;
    assert LastSeparator(name) < i;
  }

  /** An extension without a dot or separator is read off a name exactly when the name ends with
    * a dot and that extension. */
  lemma ExtensionIsSuffix(name: string, ext: string)
    requires |ext| > 0 && '.' !in ext && '/' !in ext && '\\' !in ext
    ensures Extension(name) == ext <==> EndsWith(name, "." + ext)
  {
    if Extension(name) == ext {
      ExtensionEndsName(name);
    }
    if EndsWith(name, "." + ext) {
      EndingGivesExtension(name, ext);
    }
  }

  /** openTableUpdator's choice for a path given by its name components: a path without a file
    * name (the root) fails on the null getFileName(); "tsv" opens a TSV table, "xls" and "xlsx"
    * an XLS table, and any other extension is an IOException. */
  function OpenTableKind(path: seq<string>): (r: Result<TableKind>)
    ensures |path| == 0 ==> r.Err? && r.error.kind == NullPointer
    ensures |path| > 0 && r.Err? ==> r == Fail(IO, "Unsupported file extension: " + path[|path| - 1])
    ensures r.Ok? ==> |path| > 0 && Extension(path[|path| - 1]) in {"tsv", "xls", "xlsx"}
  {
    if |path| == 0 then Fail(NullPointer, NULL_FILE_NAME_MESSAGE)
    else
      var lastname := path[|path| - 1];
      var ext := Extension(lastname);
      if ext == "tsv" then Ok(TsvTable)
      else if ext == "xls" || ext == "xlsx" then Ok(XlsTable)
      else Fail(IO, "Unsupported file extension: " + lastname)
  }

  /** The choice in terms of how the file name ends, and only the file name counts. */
  lemma OpenTableKindByName(path: seq<string>)
    requires |path| > 0
    ensures var name := path[|path| - 1];
      && (OpenTableKind(path) == Ok(TsvTable) <==> EndsWith(name, ".tsv"))
      && (OpenTableKind(path) == Ok(XlsTable) <==> EndsWith(name, ".xls") || EndsWith(name, ".xlsx"))
      && OpenTableKind(path) == OpenTableKind([name])
  {
    var name := path[|path| - 1];
    var ext := Extension(name);
    ExtensionIsSuffix(name, "tsv");
    ExtensionIsSuffix(name, "xls");
    ExtensionIsSuffix(name, "xlsx");
    assert "." + "tsv" == ".tsv" && "." + "xls" == ".xls" && "." + "xlsx" == ".xlsx";
    assert OpenTableKind(path) == Ok(TsvTable) <==> ext == "tsv";
    assert OpenTableKind(path) == Ok(XlsTable) <==> ext == "xls" || ext == "xlsx";
  }
}
