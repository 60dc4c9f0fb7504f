/** command/DocIndexCommand: the files of the index are filed into categories. The TABMAP
  * config value names each category's code and tab; each file of a known category is appended
  * to its category's document, padded to an even page count, stamped with page numbers and an
  * exhibit label on its first page, and the index is then told where each file landed.
  * PDF documents are reduced to their pages' origins and stamps, and the PDF files found for the
  * index entries to their page counts. */
module DocIndexModel {
  import opened Wrappers
  import opened JavaText
  import opened TableRows
  import opened IndexReader
  import opened ExhibitId

  const OUTPUT_MANDATORY_MESSAGE: string := "output must be provided, either via option or Pg/FILES"

  const NO_OUTPUT_MESSAGE: string := "No output file provided, nor index key"

  const SWORN_POS_MESSAGE: string := "Sworn Pos must contain two semicolon separated numbers or be 'default', got: "

  // ---------------------------------------------------------------- TABMAP

  /** A TABMAP entry: a category code and the tab it is filed under. */
  datatype TabEntry = TabEntry(code: string, tab: string)

  /** The pieces that are not blank, in order. */
  function NonBlank(pieces: seq<string>): (r: seq<string>)
    ensures |r| <= |pieces|
    ensures forall p :: p in r <==> p in pieces && !IsBlank(p)
  {
    if |pieces| == 0 then []
    else
      var rest := NonBlank(pieces[1..]);
      assert forall p :: p in pieces <==> p == pieces[0] || p in pieces[1..];
      if IsBlank(pieces[0]) then rest else [pieces[0]] + rest
  }

  /** tabMapStr.split(",") without the blank pieces. */
  function TabPieces(value: string): seq<string> {
    NonBlank(Split(value, ','))
  }

  /** Every piece has an '='. */
  predicate AllHaveEquals(pieces: seq<string>) {
    forall i | 0 <= i < |pieces| :: '=' in pieces[i]
  }

  /** Each entry is its piece split at the piece's first '='. */
  predicate ParsedFrom(pieces: seq<string>, entries: seq<TabEntry>) {
    |entries| == |pieces| && forall i | 0 <= i < |pieces| ::
      '=' !in entries[i].code && pieces[i] == entries[i].code + "=" + entries[i].tab
  }

  /** Each piece split at its first '=' into code and tab: a piece without '=' has no p[1], an
    * ArrayIndexOutOfBoundsException. */
  function ParsePieces(pieces: seq<string>): (r: Result<seq<TabEntry>>)
    ensures r.Ok? <==> AllHaveEquals(pieces)
    ensures r.Err? ==> r.error.kind == IndexOutOfBounds
    ensures r.Ok? ==> ParsedFrom(pieces, r.value)
  {
    if |pieces| == 0 then Ok([])
    else
      var p := SplitOnce(pieces[0], '=');
      HaveEqualsCons(pieces);
      if |p| < 2 then Fail(IndexOutOfBounds, "Index 1 out of bounds for length 1")
      else
        var rest := ParsePieces(pieces[1..]);
        if rest.Err? then Err(rest.error)
        else
          ParsedCons(pieces, TabEntry(p[0], p[1]), rest.value);
          Ok([TabEntry(p[0], p[1])] + rest.value)
  }

  lemma HaveEqualsCons(pieces: seq<string>)
    requires |pieces| > 0
    ensures AllHaveEquals(pieces) <==> '=' in pieces[0] && AllHaveEquals(pieces[1..])
  {
    assert forall i | 1 <= i < |pieces| :: pieces[i] == pieces[1..][i - 1];
  }

  lemma ParsedCons(pieces: seq<string>, entry: TabEntry, rest: seq<TabEntry>)
    requires |pieces| > 0 && '=' !in entry.code && pieces[0] == entry.code + "=" + entry.tab
    requires ParsedFrom(pieces[1..], rest)
    ensures ParsedFrom(pieces, [entry] + rest)
  {
    var r := [entry] + rest;
    forall i | 1 <= i < |pieces|
      ensures '=' !in r[i].code && pieces[i] == r[i].code + "=" + r[i].tab
    {
      assert pieces[i] == pieces[1..][i - 1] && r[i] == rest[i - 1];
    }
  }

  predicate DistinctCodes(entries: seq<TabEntry>) {
    forall i, j | 0 <= i < j < |entries| :: entries[i].code != entries[j].code
  }

  /** readTabMap: the parsed pieces collected into an ImmutableMap keyed by code, which refuses a
    * repeated code with IllegalArgumentException. A piece without '=' fails first, as it fails
    * while the stream is consumed and the duplicate only when the map is built. */
  function ReadTabMap(value: string): (r: Result<seq<TabEntry>>)
    ensures ParsePieces(TabPieces(value)).Err? ==> r == Err(ParsePieces(TabPieces(value)).error)
    ensures ParsePieces(TabPieces(value)).Ok? ==>
      (r.Ok? <==> DistinctCodes(ParsePieces(TabPieces(value)).value))
    ensures r.Err? ==> r.error.kind in {IndexOutOfBounds, IllegalArgument}
    ensures r.Ok? ==> r == ParsePieces(TabPieces(value)) && DistinctCodes(r.value)
  {
    var entries :- ParsePieces(TabPieces(value));
    if DistinctCodes(entries) then Ok(entries)
    else Fail(IllegalArgument, "Multiple entries with same key")
  }

  // ---------------------------------------------------------------- the filing loop

  /** Where an output page comes from: a page of an input file, or the blank page added after a
    * file with an odd page count. */
  datatype PageOrigin = InputPage(file: string, index: nat) | Padding(file: string)

  /** An output page with the page-number text and, on an exhibit's first page, the exhibit text
    * drawn on it (an unstamped page has an empty stamp). */
  datatype OutPage = OutPage(origin: PageOrigin, stamp: string, exhibit: Option<string>)

  /** A Category: its code and tab, the counters categoryCount, categoryPages and exhibitCount,
    * and its output document, null until its first file. */
  datatype Category = Category(code: string, tab: string, count: nat, pages: nat, exhibits: nat, output: Option<seq<OutPage>>)

  /** An InputEntry: the file's name (its id in the index), its URL, its category code, its index
    * row, and what the loop assigns: categoryId, categoryPage0 (0 until assigned) and exhibitId. */
  datatype InputEntry = InputEntry(
    filename: string, url: Option<string>, category: string, row: Row,
    categoryId: Option<string>, categoryPage0: int, exhibitId: Option<string>)

  datatype FileError = FileError(filename: string, message: string)

  /** The loop's inputs that come from outside: the NEEDURL config value and the page count of
    * the PDF found for each file name (a name without one is not found). */
  datatype DocConfig = DocConfig(needUrl: Option<string>, documents: map<string, nat>)

  /** The state the loop leaves: the categories, the entries as updated, and the error list. */
  datatype DocRun = DocRun(categories: seq<Category>, files: seq<InputEntry>, errors: seq<FileError>)

  /** renderPageNumber's text: escapePercent(code) + " %03d" formatted with the number. */
  function PageStamp(code: string, number: nat): string {
    code + " " + ZeroPad(number, 3)
  }

  /** EXHIBIT_TEXT with {category} and {exhibit} substituted. */
  function ExhibitText(code: string, mark: string): string {
    "This is Exhibit \"" + code + "." + mark + "\"\n"
  }

  /** One category per TABMAP entry, all counters at 0 and no output. */
  function InitialCategories(tabs: seq<TabEntry>): (r: seq<Category>)
    ensures |r| == |tabs|
    ensures forall c | 0 <= c < |r| :: r[c] == Category(tabs[c].code, tabs[c].tab, 0, 0, 0, None)
    ensures AllConsistent(r)
  {
    seq(|tabs|, c requires 0 <= c < |tabs| => Category(tabs[c].code, tabs[c].tab, 0, 0, 0, None))
  }

  /** categoryMap.get(code): the category with that code. */
  function FindCategory(categories: seq<Category>, code: string): (r: Option<nat>)
    ensures r.None? <==> forall c | 0 <= c < |categories| :: categories[c].code != code
    ensures r.Some? ==>
      && r.value < |categories| && categories[r.value].code == code
      && forall c | 0 <= c < r.value :: categories[c].code != code
  {
    if |categories| == 0 then None
    else if categories[0].code == code then Some(0)
    else
      var rest := FindCategory(categories[1..], code);
      assert forall c | 1 <= c < |categories| :: categories[c] == categories[1..][c - 1];
      if rest.None? then None else Some(rest.value + 1)
  }

  /** The NEEDURL check: a file needs a URL unless NEEDURL is configured and parses to 0; a value
    * that is not a number is a NumberFormatException. */
  function NeedsUrl(needUrl: Option<string>): (r: Result<bool>)
    ensures needUrl.None? ==> r == Ok(true)
    ensures needUrl.Some? ==> (r.Err? <==> ParseInt(needUrl.value).Err?)
    ensures needUrl.Some? && r.Ok? ==> (r.value <==> ParseInt(needUrl.value).value != 0)
  {
    match needUrl
    case None => Ok(true)
    case Some(v) =>
      var n :- ParseInt(v);
      Ok(n != 0)
  }

  /** The pages appendDocument adds for a file of n pages, then the blank page added after an
    * odd count; none is stamped yet. */
  function RawPages(file: string, n: nat): (r: seq<OutPage>)
    ensures |r| == n + n % 2
    ensures forall k | 0 <= k < |r| :: r[k] == OutPage(if k < n then InputPage(file, k) else Padding(file), "", None)
  {
    seq(n + n % 2, k requires 0 <= k < n + n % 2 => OutPage(if k < n then InputPage(file, k) else Padding(file), "", None))
  }

  /** The stamping loop from page `from` to the end: page i gets the number i + 1, and page
    * `from` also the exhibit text. */
  function Stamped(pages: seq<OutPage>, from: nat, code: string, mark: string): (r: seq<OutPage>)
    ensures |r| == |pages|
    ensures forall j | 0 <= j < |pages| && j < from :: r[j] == pages[j]
    ensures forall j | from <= j < |pages| :: r[j] == StampedPage(pages[j], j, from, code, mark)
  {
    seq(|pages|, j requires 0 <= j < |pages| => if j < from then pages[j] else StampedPage(pages[j], j, from, code, mark))
  }

  function StampedPage(page: OutPage, j: nat, from: nat, code: string, mark: string): OutPage {
    page.(stamp := PageStamp(code, j + 1), exhibit := if j == from then Some(ExhibitText(code, mark)) else None)
  }

  /** What the loop keeps true of a category: categoryPages is the page count of its document and
    * is even, the exhibit counter has advanced once per filed file, the document exists exactly
    * when a file was filed, and page j of the document carries the number j + 1. */
  predicate Consistent(category: Category) {
    var output := category.output.GetOr([]);
    && |output| == category.pages
    && category.pages % 2 == 0
    && category.exhibits == category.count
    && (category.output.Some? <==> category.count > 0)
    && forall j | 0 <= j < |output| :: output[j].stamp == PageStamp(category.code, j + 1)
  }

  predicate AllConsistent(categories: seq<Category>) {
    forall c | 0 <= c < |categories| :: Consistent(categories[c])
  }

  /** A file of n pages filed into a category: the category's output grows by the file's pages
    * and padding, the pages from categoryPages on are stamped, categoryPage0 is the page count
    * before, the exhibit label comes from the category's own exhibit counter, and categoryId is
    * the tab with the 1-based count of the category's files. */
  datatype Filed = Filed(category: Category, entry: InputEntry)

  function FileInto(category: Category, entry: InputEntry, n: nat): (r: Result<Filed>)
    ensures r.Ok? <==> Label(category.exhibits).Ok?
    ensures r.Err? ==> r.error.kind == IllegalFormat
  {
    var mark :- Label(category.exhibits);
    var output := Stamped(category.output.GetOr([]) + RawPages(entry.filename, n), category.pages, category.code, mark);
    Ok(Filed(
      category.(count := category.count + 1, pages := |output|, exhibits := category.exhibits + 1, output := Some(output)),
      entry.(categoryPage0 := category.pages, exhibitId := Some(mark),
             categoryId := Some(category.tab + "-" + ZeroPad(category.count + 1, 3)))))
  }

  function UnknownCategoryMessage(entry: InputEntry): string {
    "Unknown category for file: file=" + entry.filename + " category=" + entry.category
  }

  /** One pass of the loop for one file. */
  function StepFile(run: DocRun, entry: InputEntry, config: DocConfig): (r: Result<DocRun>)
    ensures r.Ok? ==>
      && |r.value.categories| == |run.categories| && |r.value.files| == |run.files| + 1
      && r.value.files[..|run.files|] == run.files
    ensures FindCategory(run.categories, entry.category).None? ==>
      r == Ok(run.(files := run.files + [entry], errors := run.errors + [FileError(entry.filename, UnknownCategoryMessage(entry))]))
    ensures r.Ok? && FindCategory(run.categories, entry.category).Some? ==> r.value.errors == run.errors
    ensures r.Ok? ==> forall c | 0 <= c < |run.categories| && run.categories[c].code != entry.category ::
      r.value.categories[c] == run.categories[c]
  {
    match FindCategory(run.categories, entry.category)
    case None =>
      Ok(run.(files := run.files + [entry], errors := run.errors + [FileError(entry.filename, UnknownCategoryMessage(entry))]))
    case Some(c) =>
      var needs :- NeedsUrl(config.needUrl);
      if needs && entry.url.None? then
        Ok(run.(files := run.files + [entry]))
      else if entry.filename !in config.documents then
        Fail(FileNotFound, "File not found: " + entry.filename)
      else
        var filed :- FileInto(run.categories[c], entry, config.documents[entry.filename]);
        Ok(DocRun(run.categories[c := filed.category], run.files + [filed.entry], run.errors))
  }

  /** The loop over every file, in order, from a given state. */
  function RunFiles(files: seq<InputEntry>, config: DocConfig, run: DocRun): (r: Result<DocRun>)
    decreases |files|
  {
    if |files| == 0 then Ok(run)
    else
      var next :- StepFile(run, files[0], config);
      RunFiles(files[1..], config, next)
  }

  /** What filing a file into a consistent category does to the category: the document keeps its
    * pages and grows by the file's pages and, for an odd count, one blank page; every added page
    * i is numbered i + 1 and only the first of them carries the exhibit text, whose label is the
    * category's own file count before. */
  lemma FileIntoPages(category: Category, entry: InputEntry, n: nat)
    requires Consistent(category) && FileInto(category, entry, n).Ok?
    ensures var f := FileInto(category, entry, n).value;
      var before := category.output.GetOr([]);
      var after := f.category.output.GetOr([]);
      && f.category.code == category.code && f.category.tab == category.tab
      && f.category.count == category.count + 1
      && f.category.pages == category.pages + n + n % 2
      && after[..category.pages] == before
      && (forall j | category.pages <= j < |after| ::
            after[j] == OutPage(
              if j - category.pages < n then InputPage(entry.filename, j - category.pages) else Padding(entry.filename),
              PageStamp(category.code, j + 1),
              if j == category.pages then Some(ExhibitText(category.code, Label(category.count).value)) else None))
  {
    var mark := Label(category.exhibits).value;
    var before := category.output.GetOr([]);
    assert FileInto(category, entry, n).value.category.output == Some(Stamped(before + RawPages(entry.filename, n), category.pages, category.code, mark));
    StampedAppend(before, entry.filename, n, category.code, mark);
  }

  /** What filing does to the entry: categoryPage0 is the category's page count before, the
    * exhibit label comes from the category's file count, and categoryId counts the category's
    * files from 1. */
  lemma FileIntoEntry(category: Category, entry: InputEntry, n: nat)
    requires Consistent(category) && FileInto(category, entry, n).Ok?
    ensures FileInto(category, entry, n).value.entry
      == entry.(categoryPage0 := category.pages, exhibitId := Some(Label(category.count).value),
                categoryId := Some(category.tab + "-" + ZeroPad(category.count + 1, 3)))
  {
  }

  /** An even page count stays even after n pages and the padding for odd n. */
  lemma EvenAfterPadding(pages: nat, n: nat)
    requires pages % 2 == 0
    ensures (pages + n + n % 2) % 2 == 0
  {
  }

  /** Filing keeps the category consistent: its page count stays even. */
  lemma FileIntoConsistent(category: Category, entry: InputEntry, n: nat)
    requires Consistent(category) && FileInto(category, entry, n).Ok?
    ensures Consistent(FileInto(category, entry, n).value.category)
  {
    var f := FileInto(category, entry, n).value;
    var after := f.category.output.GetOr([]);
    FileIntoPages(category, entry, n);
    EvenAfterPadding(category.pages, n);
    assert f.category.exhibits == f.category.count && f.category.output.Some?;
    forall j | 0 <= j < |after|
      ensures after[j].stamp == PageStamp(category.code, j + 1)
    {
      if j < category.pages {
        assert after[j] == after[..category.pages][j];
      }
    }
  }

  /** The pages of a file and its padding appended to a document and stamped from the old end. */
  lemma StampedAppend(before: seq<OutPage>, file: string, n: nat, code: string, mark: string)
    ensures var after := Stamped(before + RawPages(file, n), |before|, code, mark);
      && |after| == |before| + n + n % 2
      && after[..|before|] == before
      && forall j | |before| <= j < |after| ::
           after[j] == OutPage(
             if j - |before| < n then InputPage(file, j - |before|) else Padding(file),
             PageStamp(code, j + 1),
             if j == |before| then Some(ExhibitText(code, mark)) else None)
  {
    var raw := before + RawPages(file, n);
    var after := Stamped(raw, |before|, code, mark);
    forall j | |before| <= j < |after|
      ensures after[j] == OutPage(
             if j - |before| < n then InputPage(file, j - |before|) else Padding(file),
             PageStamp(code, j + 1),
             if j == |before| then Some(ExhibitText(code, mark)) else None)
    {
      assert raw[j] == RawPages(file, n)[j - |before|];
    }
    assert after[..|before|] == before;
  }

  /** One pass keeps every category consistent. */
  lemma StepFileConsistent(run: DocRun, entry: InputEntry, config: DocConfig)
    requires AllConsistent(run.categories)
    requires StepFile(run, entry, config).Ok?
    ensures AllConsistent(StepFile(run, entry, config).value.categories)
  {
    var found := FindCategory(run.categories, entry.category);
    if found.Some? && NeedsUrl(config.needUrl).Ok? && !(NeedsUrl(config.needUrl).value && entry.url.None?)
       && entry.filename in config.documents {
      FileIntoConsistent(run.categories[found.value], entry, config.documents[entry.filename]);
    }
  }

  /** The whole loop keeps every category consistent, so a category's page count is even after
    * every file. */
  lemma {:induction false} RunFilesConsistent(files: seq<InputEntry>, config: DocConfig, run: DocRun)
    requires AllConsistent(run.categories)
    requires RunFiles(files, config, run).Ok?
    ensures AllConsistent(RunFiles(files, config, run).value.categories)
    ensures |RunFiles(files, config, run).value.categories| == |run.categories|
    decreases |files|
  {
    if |files| > 0 {
      StepFileConsistent(run, files[0], config);
      RunFilesConsistent(files[1..], config, StepFile(run, files[0], config).value);
    }
  }

  /** The category codes of the state. */
  function Codes(categories: seq<Category>): (r: seq<string>)
    ensures |r| == |categories| && forall c | 0 <= c < |r| :: r[c] == categories[c].code
  {
    seq(|categories|, c requires 0 <= c < |categories| => categories[c].code)
  }

  /** The error entries the loop records for files whose category is not among the codes. */
  function UnknownErrors(files: seq<InputEntry>, codes: seq<string>): (r: seq<FileError>)
    ensures |r| <= |files|
  {
    if |files| == 0 then []
    else
      var rest := UnknownErrors(files[1..], codes);
      if files[0].category in codes then rest
      else [FileError(files[0].filename, UnknownCategoryMessage(files[0]))] + rest
  }

  /** A file named in an error entry has a category outside the codes. */
  predicate UnknownFileNamed(files: seq<InputEntry>, codes: seq<string>, filename: string) {
    exists i | 0 <= i < |files| :: files[i].category !in codes && filename == files[i].filename
  }

  /** Only files of unknown categories get an error entry. */
  lemma {:induction false} UnknownErrorsNamed(files: seq<InputEntry>, codes: seq<string>, e: FileError)
    requires e in UnknownErrors(files, codes)
    ensures UnknownFileNamed(files, codes, e.filename)
    decreases |files|
  {
    var rest := UnknownErrors(files[1..], codes);
    if e in rest {
      UnknownErrorsNamed(files[1..], codes, e);
      var i :| 0 <= i < |files[1..]| && files[1..][i].category !in codes && e.filename == files[1..][i].filename;
      assert files[i + 1] == files[1..][i];
    } else {
      assert files[0].category !in codes && e.filename == files[0].filename;
    }
  }

  lemma FindCategoryOfCodes(categories: seq<Category>, code: string)
    ensures FindCategory(categories, code).None? <==> code !in Codes(categories)
  {
    if code in Codes(categories) {
      var c :| 0 <= c < |categories| && Codes(categories)[c] == code;
    }
  }

  /** One pass for one file: the codes stay, an error is added exactly for an unknown category,
    * and the file's entry is appended under its own name. */
  lemma StepFileShape(run: DocRun, entry: InputEntry, config: DocConfig)
    requires StepFile(run, entry, config).Ok?
    ensures var next := StepFile(run, entry, config).value;
      && Codes(next.categories) == Codes(run.categories)
      && next.errors == run.errors + UnknownErrors([entry], Codes(run.categories))
      && next.files == run.files + [next.files[|run.files|]]
      && next.files[|run.files|].filename == entry.filename
  {
    var next := StepFile(run, entry, config).value;
    FindCategoryOfCodes(run.categories, entry.category);
    assert next.files == next.files[..|run.files|] + [next.files[|run.files|]];
  }

  lemma UnknownErrorsCons(files: seq<InputEntry>, codes: seq<string>)
    requires |files| > 0
    ensures UnknownErrors(files, codes) == UnknownErrors([files[0]], codes) + UnknownErrors(files[1..], codes)
  {
    assert [files[0]][1..] == [];
  }

  lemma ErrorsAssociate(a: seq<FileError>, b: seq<FileError>, c: seq<FileError>)
    ensures (a + b) + c == a + (b + c)
  {
  }

  lemma RunFilesCons(files: seq<InputEntry>, config: DocConfig, run: DocRun)
    requires |files| > 0 && RunFiles(files, config, run).Ok?
    ensures StepFile(run, files[0], config).Ok?
    ensures RunFiles(files, config, run) == RunFiles(files[1..], config, StepFile(run, files[0], config).value)
  {
  }

  /** A file of an unknown category is recorded in the error list and the loop goes on: a
    * completed run's errors are exactly those of the unknown categories, in file order. */
  lemma {:induction false} RunFilesErrors(files: seq<InputEntry>, config: DocConfig, run: DocRun)
    requires RunFiles(files, config, run).Ok?
    ensures Codes(RunFiles(files, config, run).value.categories) == Codes(run.categories)
    ensures RunFiles(files, config, run).value.errors == run.errors + UnknownErrors(files, Codes(run.categories))
    decreases |files|
  {
    if |files| > 0 {
      RunFilesCons(files, config, run);
      var next := StepFile(run, files[0], config).value;
      StepFileShape(run, files[0], config);
      RunFilesErrors(files[1..], config, next);
      UnknownErrorsCons(files, Codes(run.categories));
      ErrorsAssociate(run.errors, UnknownErrors([files[0]], Codes(run.categories)),
                      UnknownErrors(files[1..], Codes(run.categories)));
    }
  }

  /** Every file, whatever becomes of it, has its entry in the run's entry list, in order. */
  lemma {:induction false} RunFilesEntries(files: seq<InputEntry>, config: DocConfig, run: DocRun)
    requires RunFiles(files, config, run).Ok?
    ensures EntriesFollow(run.files, RunFiles(files, config, run).value.files, files)
    decreases |files|
  {
    if |files| > 0 {
      RunFilesCons(files, config, run);
      var next := StepFile(run, files[0], config).value;
      StepFileName(run, files[0], config);
      RunFilesEntries(files[1..], config, next);
      EntriesExtend(run.files, next.files, RunFiles(files[1..], config, next).value.files, files);
    }
  }

  /** `after` is `before` followed by one entry per file, each under its file's name. */
  predicate EntriesFollow(before: seq<InputEntry>, after: seq<InputEntry>, files: seq<InputEntry>) {
    && |after| == |before| + |files|
    && after[..|before|] == before
    && forall i | 0 <= i < |files| :: after[|before| + i].filename == files[i].filename
  }

  /** The entry a pass appends carries the file's name. */
  lemma StepFileName(run: DocRun, entry: InputEntry, config: DocConfig)
    requires StepFile(run, entry, config).Ok?
    ensures StepFile(run, entry, config).value.files[|run.files|].filename == entry.filename
  {
  }

  /** An entry list that grew by the first file's entry and then by the entries of the rest
    * grew by the entries of all the files. */
  lemma EntriesExtend(before: seq<InputEntry>, next: seq<InputEntry>, after: seq<InputEntry>, files: seq<InputEntry>)
    requires |files| > 0 && |next| == |before| + 1 && next[..|before|] == before
    requires next[|before|].filename == files[0].filename
    requires EntriesFollow(next, after, files[1..])
    ensures EntriesFollow(before, after, files)
  {
    assert after[..|before|] == next[..|before|];
    forall i | 0 <= i < |files|
      ensures after[|before| + i].filename == files[i].filename
    {
      if i > 0 {
        assert files[i] == files[1..][i - 1];
      } else {
        assert after[|before|] == next[|before|];
      }
    }
  }

  /** The entry a pass appends: a file skipped for its category or its missing URL is kept as it
    * was read, and a filed file is the entry FileInto produced. */
  lemma StepFileEntry(run: DocRun, entry: InputEntry, config: DocConfig)
    requires StepFile(run, entry, config).Ok?
    ensures var e := StepFile(run, entry, config).value.files[|run.files|];
      var found := FindCategory(run.categories, entry.category);
      && (found.None? || (NeedsUrl(config.needUrl).value && entry.url.None?) ==> e == entry)
      && (found.Some? && !(NeedsUrl(config.needUrl).value && entry.url.None?) ==>
            entry.filename in config.documents
            && FileInto(run.categories[found.value], entry, config.documents[entry.filename]).Ok?
            && e == FileInto(run.categories[found.value], entry, config.documents[entry.filename]).value.entry)
  {
  }

  // ---------------------------------------------------------------- updateListFile

  /** A setValue call on the index table. */
  datatype CellWrite = CellWrite(id: string, column: string, value: string)

  /** The two values written for an entry under a key: "K Pg" gets categoryPage0 in decimal and
    * "K Exh" the categoryId, or "-" for a file that was not filed. */
  function KeyWrites(entry: InputEntry, key: string): (r: seq<CellWrite>)
    ensures |r| == 2 && r[0].id == entry.filename && r[1].id == entry.filename
    ensures r[0].column == key + " Pg" && r[1].column == ExhColumn(key)
  {
    [CellWrite(entry.filename, key + " Pg", IntToString(entry.categoryPage0)),
     CellWrite(entry.filename, ExhColumn(key), entry.categoryId.GetOr("-"))]
  }

  /** The written values read back: the page cell parses to categoryPage0, an int, and the
    * exhibit cell is the categoryId when there is one. */
  lemma KeyWritesReadBack(entry: InputEntry, key: string)
    requires INT_MIN <= entry.categoryPage0 <= INT_MAX
    ensures ParseInt(KeyWrites(entry, key)[0].value) == Ok(entry.categoryPage0)
    ensures entry.categoryId.Some? ==> KeyWrites(entry, key)[1].value == entry.categoryId.value
    ensures entry.categoryId.None? ==> KeyWrites(entry, key)[1].value == "-"
  {
    ParseIntOfIntToString(entry.categoryPage0);
  }

  /** `w` is one of the writes for the entry under a key the entry is included for. */
  predicate WrittenFor(entry: InputEntry, keys: seq<string>, w: CellWrite) {
    exists k | 0 <= k < |keys| :: IsExhibitIncluded(entry.row, keys[k]) && w in KeyWrites(entry, keys[k])
  }

  /** The writes for one entry, key by key. */
  function EntryWrites(entry: InputEntry, keys: seq<string>): (r: seq<CellWrite>)
    ensures forall w :: w in r <==> WrittenFor(entry, keys, w)
  {
    if |keys| == 0 then []
    else
      var rest := EntryWrites(entry, keys[1..]);
      assert forall w :: WrittenFor(entry, keys[1..], w) ==> WrittenFor(entry, keys, w) by {
        forall w | WrittenFor(entry, keys[1..], w) ensures WrittenFor(entry, keys, w) {
          var k :| 0 <= k < |keys[1..]| && IsExhibitIncluded(entry.row, keys[1..][k]) && w in KeyWrites(entry, keys[1..][k]);
          assert keys[k + 1] == keys[1..][k];
        }
      }
      assert forall w :: WrittenFor(entry, keys, w) ==>
        (IsExhibitIncluded(entry.row, keys[0]) && w in KeyWrites(entry, keys[0])) || WrittenFor(entry, keys[1..], w) by {
        forall w | WrittenFor(entry, keys, w)
          ensures (IsExhibitIncluded(entry.row, keys[0]) && w in KeyWrites(entry, keys[0])) || WrittenFor(entry, keys[1..], w)
        {
          var k :| 0 <= k < |keys| && IsExhibitIncluded(entry.row, keys[k]) && w in KeyWrites(entry, keys[k]);
          if k > 0 {
            assert keys[1..][k - 1] == keys[k];
          }
        }
      }
      (if IsExhibitIncluded(entry.row, keys[0]) then KeyWrites(entry, keys[0]) else []) + rest
  }

  /** updateListFile: every entry, filed or skipped, is written back under every key it is
    * included for, and nothing else is written. */
  function WriteBack(files: seq<InputEntry>, keys: seq<string>): (r: seq<CellWrite>)
    ensures forall w :: w in r <==> exists i | 0 <= i < |files| :: WrittenFor(files[i], keys, w)
  {
    if |files| == 0 then []
    else
      var rest := WriteBack(files[1..], keys);
      assert forall w :: (exists i | 0 <= i < |files| :: WrittenFor(files[i], keys, w)) <==>
        WrittenFor(files[0], keys, w) || exists i | 0 <= i < |files[1..]| :: WrittenFor(files[1..][i], keys, w) by {
        forall w ensures (exists i | 0 <= i < |files| :: WrittenFor(files[i], keys, w)) <==>
          WrittenFor(files[0], keys, w) || exists i | 0 <= i < |files[1..]| :: WrittenFor(files[1..][i], keys, w)
        {
          if i :| 0 <= i < |files| && WrittenFor(files[i], keys, w) {
            if i > 0 {
              assert files[1..][i - 1] == files[i];
            }
          }
          if i :| 0 <= i < |files[1..]| && WrittenFor(files[1..][i], keys, w) {
            assert files[i + 1] == files[1..][i];
          }
        }
      }
      EntryWrites(files[0], keys) + rest
  }

  /** A file that was never filed keeps categoryPage0 at its int default: it is written back as
    * page "0" and exhibit "-". */
  lemma UnfiledWriteBack(entry: InputEntry, key: string)
    requires entry.categoryPage0 == 0 && entry.categoryId.None?
    ensures KeyWrites(entry, key) == [CellWrite(entry.filename, key + " Pg", "0"), CellWrite(entry.filename, key + " Exh", "-")]
  {
    assert IntToString(0) == "0";
  }

  // ---------------------------------------------------------------- readListFile and options

  /** The "Sworn Pos" check: an absent or empty value and "default" give no position; any other
    * value must have a ';'. (The two numbers are then parsed as floats.) */
  function SwornPosError(row: Row): (r: Option<string>)
    ensures r.Some? <==> "Sworn Pos" in row && |row["Sworn Pos"]| > 0 && row["Sworn Pos"] != "default" && ';' !in row["Sworn Pos"]
  {
    if "Sworn Pos" in row && |row["Sworn Pos"]| > 0 && row["Sworn Pos"] != "default"
       && |SplitOnce(row["Sworn Pos"], ';')| != 2
    then Some(SWORN_POS_MESSAGE + row["Sworn Pos"])
    else None
  }

  /** The builder for one index row: the URL from the table's link for the name, the category,
    * which must be present, then the sworn position; any failure is rethrown wrapped. */
  function EntryOf(e: Entry, urls: map<string, string>): (r: Result<InputEntry>)
    ensures r.Ok? <==> "Category" in e.row && SwornPosError(e.row).None?
    ensures r.Err? ==>
      && r.error.kind == IllegalArgument
      && StartsWith(r.error.message, "Failed to process entry file=" + e.id + ": java.lang.IllegalArgumentException: ")
  {
    var wrap := "Failed to process entry file=" + e.id + ": java.lang.IllegalArgumentException: ";
    if "Category" !in e.row then Fail(IllegalArgument, wrap + "Category not specified for: " + e.id)
    else if SwornPosError(e.row).Some? then Fail(IllegalArgument, wrap + SwornPosError(e.row).value)
    else Ok(InputEntry(e.id, if e.id in urls then Some(urls[e.id]) else None, e.row["Category"], e.row, None, 0, None))
  }

  /** readListFile: the index rows the key selects, in order, become entries with nothing
    * assigned yet; the first row that fails fails the whole list. */
  function ReadListFile(entries: seq<Entry>, urls: map<string, string>): (r: Result<seq<InputEntry>>)
    ensures r.Ok? <==> forall i | 0 <= i < |entries| :: EntryOf(entries[i], urls).Ok?
    ensures r.Err? ==> r.error.kind == IllegalArgument
    ensures r.Ok? ==> |r.value| == |entries| && forall i | 0 <= i < |entries| ::
      && r.value[i].filename == entries[i].id && r.value[i].row == entries[i].row
      && r.value[i].category == entries[i].row["Category"]
      && r.value[i].url == (if entries[i].id in urls then Some(urls[entries[i].id]) else None)
      && r.value[i].categoryPage0 == 0 && r.value[i].categoryId.None? && r.value[i].exhibitId.None?
  {
    if |entries| == 0 then Ok([])
    else
      var first :- EntryOf(entries[0], urls);
      var rest := ReadListFile(entries[1..], urls);
      assert forall i | 1 <= i < |entries| :: entries[i] == entries[1..][i - 1];
      if rest.Err? then Err(rest.error)
      else
        var r := [first] + rest.value;
        assert forall i | 1 <= i < |entries| :: r[i] == rest.value[i - 1];
        Ok(r)
  }

  /** validateOptions: the list file and exactly one key are required. */
  function ValidateOptions(listFile: Option<string>, keys: seq<string>): (r: Validation)
    ensures r == Continue <==> listFile.Some? && |keys| == 1
    ensures listFile.None? ==> r == Usage("list file must be provided")
  {
    if listFile.None? then Usage("list file must be provided")
    else if |keys| != 1 then Usage("one list file key must be provided")
    else Continue
  }

  /** readIndexIo and revalidateOptions: without -o the output directory is the FILES config
    * value under "K Pg" for the first key (filesConfig is the table's answer to that lookup), and
    * without either the run fails. */
  function ResolveOutput(output: Option<string>, keys: seq<string>, filesConfig: Result<Option<string>>): (r: Result<string>)
    ensures output.Some? ==> r == Ok(output.value)
    ensures output.None? && |keys| == 0 ==> r == Fail(IO, NO_OUTPUT_MESSAGE)
    ensures output.None? && |keys| > 0 && filesConfig.Err? ==> r == Err(filesConfig.error)
    ensures output.None? && |keys| > 0 && filesConfig.Ok? ==>
      && (r.Ok? <==> filesConfig.value.Some? && |filesConfig.value.value| > 0)
      && (r.Ok? ==> r.value == filesConfig.value.value)
      && (r.Err? ==> r == Fail(IllegalArgument, OUTPUT_MANDATORY_MESSAGE))
  {
    if output.Some? then Ok(output.value)
    else if |keys| == 0 then Fail(IO, NO_OUTPUT_MESSAGE)
    else
      var found :- filesConfig;
      if found.Some? && |found.value| > 0 then Ok(found.value)
      else Fail(IllegalArgument, OUTPUT_MANDATORY_MESSAGE)
  }

  /** merger.appendDocument for a file of n pages, then the blank page for an odd count. */
  method AppendPages(output: seq<OutPage>, file: string, n: nat) returns (r: seq<OutPage>)
    ensures r == output + RawPages(file, n)
  {
    r := output;
    var k := 0;
    while k < n
      invariant 0 <= k <= n
      invariant r == output + RawPages(file, n)[..k]
    {
      assert RawPages(file, n)[..k + 1] == RawPages(file, n)[..k] + [OutPage(InputPage(file, k), "", None)];
      r := r + [OutPage(InputPage(file, k), "", None)];
      k := k + 1;
    }
    if n % 2 == 1 {
      assert RawPages(file, n) == RawPages(file, n)[..n] + [OutPage(Padding(file), "", None)];
      r := r + [OutPage(Padding(file), "", None)];
    } else {
      assert RawPages(file, n)[..n] == RawPages(file, n);
    }
  }

  /** The stamping loop: from categoryPages to the document's page count. */
  method StampPages(pages: seq<OutPage>, from: nat, code: string, mark: string) returns (r: seq<OutPage>)
    ensures r == Stamped(pages, from, code, mark)
  {
    r := pages;
    var p := from;
    while p < |r|
      invariant from <= p && (p <= |r| || p == from)
      invariant |r| == |pages|
      invariant forall j | 0 <= j < |r| :: r[j] == if from <= j < p then StampedPage(pages[j], j, from, code, mark) else pages[j]
    {
      r := r[p := StampedPage(r[p], p, from, code, mark)];
      p := p + 1;
    }
  }

  /** The body of execute's loop for a file of a known category that is not skipped: append,
    * pad, take the exhibit label, stamp the new pages, and advance the counters. */
  method FileOne(category: Category, entry: InputEntry, n: nat) returns (r: Result<Filed>)
    ensures r == FileInto(category, entry, n)
  {
    var output := AppendPages(category.output.GetOr([]), entry.filename, n);
    var mark := Label(category.exhibits);
    if mark.Err? {
      return Err(mark.error);
    }
    output := StampPages(output, category.pages, category.code, mark.value);
    r := Ok(Filed(
      category.(count := category.count + 1, pages := |output|, exhibits := category.exhibits + 1, output := Some(output)),
      entry.(categoryPage0 := category.pages, exhibitId := Some(mark.value),
             categoryId := Some(category.tab + "-" + ZeroPad(category.count + 1, 3)))));
  }

  /** One pass of execute's loop. */
  method StepOne(categories: seq<Category>, done: seq<InputEntry>, errors: seq<FileError>, entry: InputEntry, config: DocConfig)
    returns (r: Result<DocRun>)
    ensures r == StepFile(DocRun(categories, done, errors), entry, config)
  {
    var found := FindCategory(categories, entry.category);
    if found.None? {
      return Ok(DocRun(categories, done + [entry], errors + [FileError(entry.filename, UnknownCategoryMessage(entry))]));
    }
    var c := found.value;
    var needs := NeedsUrl(config.needUrl);
    if needs.Err? {
      return Err(needs.error);
    }
    if needs.value && entry.url.None? {
      return Ok(DocRun(categories, done + [entry], errors));
    }
    if entry.filename !in config.documents {
      return Fail(FileNotFound, "File not found: " + entry.filename);
    }
    var filed := FileOne(categories[c], entry, config.documents[entry.filename]);
    if filed.Err? {
      return Err(filed.error);
    }
    r := Ok(DocRun(categories[c := filed.value.category], done + [filed.value.entry], errors));
  }

  /** execute's loop over the files, with the categories and entries updated in place. */
  method FileAll(files: seq<InputEntry>, tabs: seq<TabEntry>, config: DocConfig) returns (r: Result<DocRun>)
    ensures r == RunFiles(files, config, DocRun(InitialCategories(tabs), [], []))
  {
    var categories := InitialCategories(tabs);
    var done: seq<InputEntry> := [];
    var errors: seq<FileError> := [];
    var i := 0;
    while i < |files|
      invariant 0 <= i <= |files|
      invariant RunFiles(files, config, DocRun(InitialCategories(tabs), [], []))
        == RunFiles(files[i..], config, DocRun(categories, done, errors))
    {
      assert files[i..][1..] == files[i + 1..];
      var next := StepOne(categories, done, errors, files[i], config);
      if next.Err? {
        return Err(next.error);
      }
      categories, done, errors := next.value.categories, next.value.files, next.value.errors;
      i := i + 1;
    }
    assert files[i..] == [];
    r := Ok(DocRun(categories, done, errors));
  }
}
