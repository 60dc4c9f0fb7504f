/** command/JoinExhibitCommand: the exhibit book. The base document's pages come first; every
  * input document that is found is appended after them, each of its pages stamped with a page
  * number and its first page with the exhibit label; links on base pages that point at an
  * input's URL are turned into links to that input's first page; --extract then keeps only a
  * subset of the pages; and with an index file each entry's page number and label are written
  * back. A PDF is modelled as its list of pages, and the files on disk as a map from path to
  * page count. */
module JoinExhibitModel {
  import opened Wrappers
  import opened JavaText
  import opened TableRows
  import opened IndexReader
  import opened ExhibitId
  import opened JoinExhibitExtract
  import DocIndexModel

  const INPUT_ENTRY_CLASS: string := "com.github.kvr000.zbyneklegal.format.command.JoinExhibitCommand$InputEntry"

  // ---------------------------------------------------------------- documents and entries

  /** A link's action: a URI, a go-to to a page of the output, or any other action. */
  datatype Action = UriAction(uri: string) | GoToPage(target: nat) | OtherAction

  /** A page annotation: a link with its action (which may be null), or any other annotation. */
  datatype Annotation = Link(action: Option<Action>) | OtherAnnotation

  /** Where a page of the output comes from. */
  datatype Origin = BasePage(index: nat) | InputPage(path: string, index: nat)

  /** A page of the output: its origin, its annotations, the page number stamped on it and the
    * exhibit label drawn on it, if any. */
  datatype Page = Page(origin: Origin, annotations: seq<Annotation>, number: Option<int>, exhibit: Option<string>)

  /** An InputEntry: the file name, its URL, its index row, and what the loop assigns:
    * pageNumber and internalPageNumber (both -1 until assigned), exhibitId and error. */
  datatype InputEntry = InputEntry(
    filename: string, url: Option<string>, row: Row,
    pageNumber: int, internalPageNumber: int, exhibitId: Option<string>, error: Option<Error>)

  /** An entry as the builder makes it, with nothing assigned yet. */
  predicate Unassigned(e: InputEntry) {
    e.pageNumber == -1 && e.internalPageNumber == -1 && e.exhibitId.None? && e.error.None?
  }

  /** findPdfFile: the name itself if that file exists, else the name with ".pdf" appended, else
    * FileNotFoundException. `disk` maps each existing PDF file to its page count. */
  function FindPdfFile(name: string, disk: map<string, nat>): (r: Result<string>)
    ensures r.Ok? <==> name in disk || name + ".pdf" in disk
    ensures r.Ok? ==> r.value in disk && (r.value == name || (name !in disk && r.value == name + ".pdf"))
    ensures r.Err? ==> r == Fail(FileNotFound, "File not found: " + name)
  {
    if name in disk then Ok(name)
    else if name + ".pdf" in disk then Ok(name + ".pdf")
    else Fail(FileNotFound, "File not found: " + name)
  }

  /** The pages of a loaded input of `count` pages appended when the counter is `start`: its
    * page i is stamped firstPage + start + i in `int` arithmetic, and its first page carries the
    * exhibit label. */
  function InputPages(path: string, count: nat, firstPage: int, start: int, mark: string): seq<Page> {
    seq(count, i requires 0 <= i < count =>
      Page(InputPage(path, i), [], Some(Wrap32(firstPage + start + i)), if i == 0 then Some(mark) else None))
  }

  // ---------------------------------------------------------------- the loop over input files

  /** The state of the merge: the output's pages, the entries visited so far, internalPageCounter
    * and exhibitCounter. */
  datatype JoinRun = JoinRun(pages: seq<Page>, entries: seq<InputEntry>, counter: int, exhibitCounter: int)

  /** One pass of the loop over files. A file that is not found records the error and, with -i,
    * is skipped with nothing else changed; without -i the exception ends the run. A found file
    * gets internalPageNumber = the counter and pageNumber = firstPage + the counter (in `int`
    * arithmetic, as are all the page numbers below); its pages
    * are appended and counted; a file with at least one page gets the label of exhibitCounter,
    * which then advances. */
  function StepEntry(run: JoinRun, entry: InputEntry, disk: map<string, nat>, ignoreMissing: bool, firstPage: int): (r: Result<JoinRun>)
  {
    match FindPdfFile(entry.filename, disk)
    case Err(e) =>
      if ignoreMissing then Ok(run.(entries := run.entries + [entry.(error := Some(e))])) else Err(e)
    case Ok(path) =>
      var placed := entry.(internalPageNumber := run.counter, pageNumber := Wrap32(firstPage + run.counter));
      if disk[path] == 0 then Ok(run.(entries := run.entries + [placed]))
      else
        var mark :- Label(run.exhibitCounter);
        Ok(JoinRun(run.pages + InputPages(path, disk[path], firstPage, run.counter, mark),
                   run.entries + [placed.(exhibitId := Some(mark))],
                   run.counter + disk[path], run.exhibitCounter + 1))
  }

  /** The loop over all files, in the order of the files map. */
  function RunEntries(files: seq<InputEntry>, run: JoinRun, disk: map<string, nat>, ignoreMissing: bool, firstPage: int): Result<JoinRun>
    decreases |files|
  {
    if |files| == 0 then Ok(run)
    else
      var next :- StepEntry(run, files[0], disk, ignoreMissing, firstPage);
      RunEntries(files[1..], next, disk, ignoreMissing, firstPage)
  }

  /** The page count of the file found for an entry, 0 when none is found. */
  function FoundPages(entry: InputEntry, disk: map<string, nat>): nat {
    match FindPdfFile(entry.filename, disk)
    case Ok(path) => disk[path]
    case Err(_) => 0
  }

  /** The pages of all files found. */
  function PagesOf(files: seq<InputEntry>, disk: map<string, nat>): nat {
    if |files| == 0 then 0 else FoundPages(files[0], disk) + PagesOf(files[1..], disk)
  }

  /** The number of files found that have at least one page. */
  function ExhibitsOf(files: seq<InputEntry>, disk: map<string, nat>): nat {
    if |files| == 0 then 0 else (if FoundPages(files[0], disk) > 0 then 1 else 0) + ExhibitsOf(files[1..], disk)
  }

  /** options.firstPage after line 304: 1 without -a (so base page i counts as i + 1); with -a the
    * base page count is subtracted in `int` arithmetic, so that the first appended page, whose
    * stamp adds the base page count back, is stamped with the -a value. */
  function StartPage(firstPage: Option<int>, basePages: nat): (r: int)
    requires firstPage.Some? ==> INT_MIN <= firstPage.value <= INT_MAX
    ensures INT_MIN <= r <= INT_MAX
    ensures firstPage.None? ==> r + basePages == basePages + 1
    ensures firstPage.Some? ==> Wrap32(r + basePages) == firstPage.value
    ensures firstPage.Some? && INT_MIN <= firstPage.value - basePages ==> r + basePages == firstPage.value
  {
    match firstPage
    case None => 1
    case Some(a) =>
      Wrap32Add(a - basePages, basePages);
      Wrap32(a - basePages)
  }

  /** The for loop over one input's pages: page i is stamped firstPage + internalPageCounter++, and
    * page 0 also gets the exhibit label. */
  method AppendInput(pages: seq<Page>, path: string, count: nat, firstPage: int, counter: int, mark: string)
    returns (r: seq<Page>, next: int)
    ensures r == pages + InputPages(path, count, firstPage, counter, mark)
    ensures next == counter + count
  {
    r := pages;
    next := counter;
    var i := 0;
    while i < count
      invariant 0 <= i <= count
      invariant next == counter + i
      invariant r == pages + InputPages(path, i, firstPage, counter, mark)
    {
      r := r + [Page(InputPage(path, i), [], Some(Wrap32(firstPage + next)), if i == 0 then Some(mark) else None)];
      next := next + 1;
      i := i + 1;
    }
  }

  /** One iteration of the loop over files, on the loop's variables. */
  method StepOne(run: JoinRun, entry: InputEntry, disk: map<string, nat>, ignoreMissing: bool, firstPage: int)
    returns (r: Result<JoinRun>)
    ensures r == StepEntry(run, entry, disk, ignoreMissing, firstPage)
  {
    var found := FindPdfFile(entry.filename, disk);
    if found.Err? {
      if ignoreMissing {
        return Ok(run.(entries := run.entries + [entry.(error := Some(found.error))]));
      }
      return Err(found.error);
    }
    var path := found.value;
    var placed := entry.(internalPageNumber := run.counter, pageNumber := Wrap32(firstPage + run.counter));
    if disk[path] == 0 {
      return Ok(run.(entries := run.entries + [placed]));
    }
    var mark := Label(run.exhibitCounter);
    if mark.Err? {
      return Err(mark.error);
    }
    var pages, counter := AppendInput(run.pages, path, disk[path], firstPage, run.counter, mark.value);
    return Ok(JoinRun(pages, run.entries + [placed.(exhibitId := Some(mark.value))], counter, run.exhibitCounter + 1));
  }

  /** The loop of execute over the files, starting from the base document's pages with
    * internalPageCounter = basePages and exhibitCounter = firstExhibit. */
  method AssembleInputs(base: seq<Page>, files: seq<InputEntry>, disk: map<string, nat>, ignoreMissing: bool, firstPage: int, firstExhibit: int)
    returns (r: Result<JoinRun>)
    ensures r == RunEntries(files, JoinRun(base, [], |base|, firstExhibit), disk, ignoreMissing, firstPage)
  {
    var run := JoinRun(base, [], |base|, firstExhibit);
    var i := 0;
    while i < |files|
      invariant 0 <= i <= |files|
      invariant RunEntries(files, JoinRun(base, [], |base|, firstExhibit), disk, ignoreMissing, firstPage)
        == RunEntries(files[i..], run, disk, ignoreMissing, firstPage)
    {
      var next := StepOne(run, files[i], disk, ignoreMissing, firstPage);
      assert files[i..][1..] == files[i + 1..];
      if next.Err? {
        return Err(next.error);
      }
      run := next.value;
      i := i + 1;
    }
    assert files[i..] == [];
    return Ok(run);
  }

  // ---------------------------------------------------------------- what the loop computes

  /** What makes a pass of the loop throw: a file that is not found without -i, or a label that
    * String.format cannot produce for a file with pages. */
  predicate StepFails(entry: InputEntry, disk: map<string, nat>, ignoreMissing: bool, exhibitCounter: int) {
    || (FindPdfFile(entry.filename, disk).Err? && !ignoreMissing)
    || (FoundPages(entry, disk) > 0 && Label(exhibitCounter).Err?)
  }

  /** One pass: it fails exactly as StepFails says; otherwise the counter advances by the file's
    * pages, the exhibit counter by one for a file with pages, one entry is added, and the pages and
    * entries so far are kept. */
  lemma StepEntryShape(run: JoinRun, entry: InputEntry, disk: map<string, nat>, ignoreMissing: bool, firstPage: int)
    ensures var r := StepEntry(run, entry, disk, ignoreMissing, firstPage);
      && (r.Ok? <==> !StepFails(entry, disk, ignoreMissing, run.exhibitCounter))
      && (r.Ok? ==>
        && r.value.counter == run.counter + FoundPages(entry, disk)
        && r.value.exhibitCounter == run.exhibitCounter + (if FoundPages(entry, disk) > 0 then 1 else 0)
        && |r.value.pages| == |run.pages| + FoundPages(entry, disk)
        && r.value.pages[..|run.pages|] == run.pages
        && |r.value.entries| == |run.entries| + 1
        && r.value.entries[..|run.entries|] == run.entries)
  {
  }

  /** The counters and sizes after a pass that goes through. */
  lemma StepEntryCounts(run: JoinRun, entry: InputEntry, disk: map<string, nat>, ignoreMissing: bool, firstPage: int)
    requires StepEntry(run, entry, disk, ignoreMissing, firstPage).Ok?
    ensures var next := StepEntry(run, entry, disk, ignoreMissing, firstPage).value;
      && next.counter == run.counter + FoundPages(entry, disk)
      && next.exhibitCounter == run.exhibitCounter + (if FoundPages(entry, disk) > 0 then 1 else 0)
      && |next.pages| == |run.pages| + FoundPages(entry, disk)
      && |next.entries| == |run.entries| + 1
  {
  }

  /** A pass fails exactly as StepFails says, and the exhibit counter advances once for a file
    * with pages. */
  lemma StepEntryOk(run: JoinRun, entry: InputEntry, disk: map<string, nat>, ignoreMissing: bool, firstPage: int)
    ensures var r := StepEntry(run, entry, disk, ignoreMissing, firstPage);
      && (r.Ok? <==> !StepFails(entry, disk, ignoreMissing, run.exhibitCounter))
      && (r.Ok? ==> r.value.exhibitCounter == run.exhibitCounter + (if FoundPages(entry, disk) > 0 then 1 else 0))
  {
  }

  /** The sums over a prefix of the files split off its first file. */
  lemma PrefixSums(files: seq<InputEntry>, i: nat, disk: map<string, nat>)
    requires 0 < i <= |files|
    ensures PagesOf(files[..i], disk) == FoundPages(files[0], disk) + PagesOf(files[1..][..i - 1], disk)
    ensures ExhibitsOf(files[..i], disk) == (if FoundPages(files[0], disk) > 0 then 1 else 0) + ExhibitsOf(files[1..][..i - 1], disk)
  {
    assert files[..i][1..] == files[1..][..i - 1];
  }

  /** Pass i of the loop over `files` goes through, where it sees the exhibit counter advanced
    * from `x` once for every earlier file with pages. */
  predicate PassesAt(files: seq<InputEntry>, disk: map<string, nat>, ignoreMissing: bool, x: int, i: nat)
    requires i < |files|
  {
    !StepFails(files[i], disk, ignoreMissing, x + ExhibitsOf(files[..i], disk))
  }

  /** A loop that completes went through every pass. */
  lemma RunEntriesPasses(files: seq<InputEntry>, run: JoinRun, disk: map<string, nat>, ignoreMissing: bool, firstPage: int, i: nat)
    requires RunEntries(files, run, disk, ignoreMissing, firstPage).Ok? && i < |files|
    ensures PassesAt(files, disk, ignoreMissing, run.exhibitCounter, i)
  {
    RunEntriesSplit(files, run, disk, ignoreMissing, firstPage, i);
    var first := RunEntries(files[..i], run, disk, ignoreMissing, firstPage);
    assert first.Ok?;
    var mid := first.value;
    assert RunEntries(files[i..], mid, disk, ignoreMissing, firstPage).Ok?;
    RunEntriesTotals(files[..i], run, disk, ignoreMissing, firstPage);
    assert files[i..][0] == files[i];
    StepEntryOk(mid, files[i], disk, ignoreMissing, firstPage);
  }

  /** A loop whose every pass goes through completes. */
  lemma {:induction false} RunEntriesCompletes(files: seq<InputEntry>, run: JoinRun, disk: map<string, nat>, ignoreMissing: bool, firstPage: int)
    requires forall i | 0 <= i < |files| :: PassesAt(files, disk, ignoreMissing, run.exhibitCounter, i)
    ensures RunEntries(files, run, disk, ignoreMissing, firstPage).Ok?
    decreases |files|
  {
    if |files| > 0 {
      var x := run.exhibitCounter;
      assert PassesAt(files, disk, ignoreMissing, x, 0);
      assert files[..0] == [];
      StepEntryOk(run, files[0], disk, ignoreMissing, firstPage);
      var step := StepEntry(run, files[0], disk, ignoreMissing, firstPage).value;
      var y := step.exhibitCounter;
      forall j | 0 <= j < |files[1..]| ensures PassesAt(files[1..], disk, ignoreMissing, y, j) {
        assert PassesAt(files, disk, ignoreMissing, x, j + 1);
        PrefixSums(files, j + 1, disk);
        assert files[j + 1] == files[1..][j];
      }
      RunEntriesCompletes(files[1..], step, disk, ignoreMissing, firstPage);
    }
  }

  /** The loop completes exactly when no pass fails. */
  lemma RunEntriesOk(files: seq<InputEntry>, run: JoinRun, disk: map<string, nat>, ignoreMissing: bool, firstPage: int)
    ensures RunEntries(files, run, disk, ignoreMissing, firstPage).Ok? <==>
      forall i | 0 <= i < |files| :: PassesAt(files, disk, ignoreMissing, run.exhibitCounter, i)
  {
    if RunEntries(files, run, disk, ignoreMissing, firstPage).Ok? {
      forall i | 0 <= i < |files| ensures PassesAt(files, disk, ignoreMissing, run.exhibitCounter, i) {
        RunEntriesPasses(files, run, disk, ignoreMissing, firstPage, i);
      }
    }
    if forall i | 0 <= i < |files| :: PassesAt(files, disk, ignoreMissing, run.exhibitCounter, i) {
      RunEntriesCompletes(files, run, disk, ignoreMissing, firstPage);
    }
  }

  /** After the loop: the counter has grown by the pages of all files found and the exhibit
    * counter by the number of those with pages; the output holds the earlier pages followed by
    * exactly those pages; every file has its entry, after the earlier ones. */
  lemma {:induction false} RunEntriesTotals(files: seq<InputEntry>, run: JoinRun, disk: map<string, nat>, ignoreMissing: bool, firstPage: int)
    requires RunEntries(files, run, disk, ignoreMissing, firstPage).Ok?
    ensures var out := RunEntries(files, run, disk, ignoreMissing, firstPage).value;
      && out.counter == run.counter + PagesOf(files, disk)
      && out.exhibitCounter == run.exhibitCounter + ExhibitsOf(files, disk)
      && |out.pages| == |run.pages| + PagesOf(files, disk)
      && out.pages[..|run.pages|] == run.pages
      && |out.entries| == |run.entries| + |files|
      && out.entries[..|run.entries|] == run.entries
    decreases |files|
  {
    if |files| > 0 {
      StepEntryShape(run, files[0], disk, ignoreMissing, firstPage);
      var step := StepEntry(run, files[0], disk, ignoreMissing, firstPage).value;
      RunEntriesTotals(files[1..], step, disk, ignoreMissing, firstPage);
      var out := RunEntries(files, run, disk, ignoreMissing, firstPage).value;
      assert out.pages[..|run.pages|] == out.pages[..|step.pages|][..|run.pages|];
      assert out.entries[..|run.entries|] == out.entries[..|step.entries|][..|run.entries|];
    }
  }

  /** Every page from index `from` on is stamped firstPage + its index. */
  predicate NumberedFrom(pages: seq<Page>, from: nat, firstPage: int) {
    forall k | from <= k < |pages| :: pages[k].number == Some(Wrap32(firstPage + k))
  }

  /** A pass keeps the counter equal to the output's page count and stamps each new page
    * firstPage + its index. */
  lemma StepEntryNumbered(run: JoinRun, entry: InputEntry, disk: map<string, nat>, ignoreMissing: bool, firstPage: int, from: nat)
    requires StepEntry(run, entry, disk, ignoreMissing, firstPage).Ok?
    requires run.counter == |run.pages| && from <= |run.pages| && NumberedFrom(run.pages, from, firstPage)
    ensures var next := StepEntry(run, entry, disk, ignoreMissing, firstPage).value;
      next.counter == |next.pages| && NumberedFrom(next.pages, from, firstPage)
  {
    var next := StepEntry(run, entry, disk, ignoreMissing, firstPage).value;
    if FoundPages(entry, disk) > 0 {
      var path := FindPdfFile(entry.filename, disk).value;
      var added := InputPages(path, disk[path], firstPage, run.counter, Label(run.exhibitCounter).value);
      assert next.pages == run.pages + added;
      forall k | from <= k < |next.pages| ensures next.pages[k].number == Some(Wrap32(firstPage + k)) {
        if k >= |run.pages| {
          assert next.pages[k] == added[k - |run.pages|];
        } else {
          assert next.pages[k] == run.pages[k];
        }
      }
    }
  }

  /** Page numbering: when the counter starts equal to the page count (basePages for the base
    * document), every page the loop appends is stamped firstPage + its index in the output, and
    * the counter ends equal to the page count. */
  lemma {:induction false} RunEntriesNumbered(files: seq<InputEntry>, run: JoinRun, disk: map<string, nat>, ignoreMissing: bool, firstPage: int)
    requires RunEntries(files, run, disk, ignoreMissing, firstPage).Ok?
    requires run.counter == |run.pages|
    ensures var out := RunEntries(files, run, disk, ignoreMissing, firstPage).value;
      out.counter == |out.pages| && NumberedFrom(out.pages, |run.pages|, firstPage)
    decreases |files|
  {
    if |files| > 0 {
      var step := StepEntry(run, files[0], disk, ignoreMissing, firstPage).value;
      StepEntryNumbered(run, files[0], disk, ignoreMissing, firstPage, |run.pages|);
      StepEntryShape(run, files[0], disk, ignoreMissing, firstPage);
      RunEntriesNumbered(files[1..], step, disk, ignoreMissing, firstPage);
      var out := RunEntries(files, run, disk, ignoreMissing, firstPage).value;
      assert NumberedFrom(out.pages, |step.pages|, firstPage);
      RunEntriesTotals(files[1..], step, disk, ignoreMissing, firstPage);
      forall k | |run.pages| <= k < |step.pages| ensures out.pages[k].number == Some(Wrap32(firstPage + k)) {
        assert out.pages[k] == out.pages[..|step.pages|][k];
      }
    }
  }

  /** With -a, the appended pages are stamped the -a value, the value + 1 and so on, in `int`
    * arithmetic: after INT_MAX the next page is stamped INT_MIN. */
  lemma FirstPageNumbers(base: seq<Page>, files: seq<InputEntry>, disk: map<string, nat>, ignoreMissing: bool, a: int, firstExhibit: int)
    requires INT_MIN <= a <= INT_MAX
    requires RunEntries(files, JoinRun(base, [], |base|, firstExhibit), disk, ignoreMissing, StartPage(Some(a), |base|)).Ok?
    ensures var out := RunEntries(files, JoinRun(base, [], |base|, firstExhibit), disk, ignoreMissing, StartPage(Some(a), |base|)).value;
      forall k | |base| <= k < |out.pages| :: out.pages[k].number == Some(Wrap32(a + (k - |base|)))
  {
    var start := StartPage(Some(a), |base|);
    var out := RunEntries(files, JoinRun(base, [], |base|, firstExhibit), disk, ignoreMissing, start).value;
    RunEntriesNumbered(files, JoinRun(base, [], |base|, firstExhibit), disk, ignoreMissing, start);
    forall k | |base| <= k < |out.pages| ensures out.pages[k].number == Some(Wrap32(a + (k - |base|))) {
      Wrap32Add(a - |base|, k);
    }
  }

  /** What the loop leaves for `entry` when it reaches it with the counter at `start` and the
    * exhibit counter at `x`: a file that is not found keeps -1 and no label and records the
    * error; a found file gets internalPageNumber = start and pageNumber = firstPage + start, and
    * if it has pages, the label of x, drawn on output page `start` together with its number. */
  predicate PlacedAt(e: InputEntry, entry: InputEntry, disk: map<string, nat>, firstPage: int, start: int, x: int, pages: seq<Page>) {
    match FindPdfFile(entry.filename, disk)
    case Err(err) => e == entry.(error := Some(err))
    case Ok(path) =>
      && e == entry.(internalPageNumber := start, pageNumber := Wrap32(firstPage + start), exhibitId := e.exhibitId)
      && (disk[path] == 0 ==> e.exhibitId == entry.exhibitId)
      && (disk[path] > 0 ==>
            && Label(x).Ok? && e.exhibitId == Some(Label(x).value)
            && 0 <= start < |pages|
            && pages[start] == Page(InputPage(path, 0), [], Some(Wrap32(firstPage + start)), Some(Label(x).value)))
  }

  lemma PlacedAtExtends(e: InputEntry, entry: InputEntry, disk: map<string, nat>, firstPage: int, start: int, x: int, pages: seq<Page>, longer: seq<Page>)
    requires PlacedAt(e, entry, disk, firstPage, start, x, pages)
    requires |pages| <= |longer| && longer[..|pages|] == pages
    ensures PlacedAt(e, entry, disk, firstPage, start, x, longer)
  {
    if FoundPages(entry, disk) > 0 {
      assert longer[start] == longer[..|pages|][start];
    }
  }

  lemma StepEntryPlaced(run: JoinRun, entry: InputEntry, disk: map<string, nat>, ignoreMissing: bool, firstPage: int)
    requires StepEntry(run, entry, disk, ignoreMissing, firstPage).Ok?
    requires run.counter == |run.pages|
    ensures var next := StepEntry(run, entry, disk, ignoreMissing, firstPage).value;
      && |run.entries| < |next.entries|
      && PlacedAt(next.entries[|run.entries|], entry, disk, firstPage, run.counter, run.exhibitCounter, next.pages)
  {
    var next := StepEntry(run, entry, disk, ignoreMissing, firstPage).value;
    if FoundPages(entry, disk) > 0 {
      var path := FindPdfFile(entry.filename, disk).value;
      var added := InputPages(path, disk[path], firstPage, run.counter, Label(run.exhibitCounter).value);
      assert next.pages == run.pages + added;
      assert next.pages[run.counter] == added[0];
    }
  }

  /** The first file's entry survives the rest of the loop as the first pass left it. */
  lemma RunEntriesHead(files: seq<InputEntry>, run: JoinRun, disk: map<string, nat>, ignoreMissing: bool, firstPage: int)
    requires RunEntries(files, run, disk, ignoreMissing, firstPage).Ok?
    requires run.counter == |run.pages| && |files| > 0
    ensures var out := RunEntries(files, run, disk, ignoreMissing, firstPage).value;
      && |run.entries| < |out.entries|
      && PlacedAt(out.entries[|run.entries|], files[0], disk, firstPage, run.counter, run.exhibitCounter, out.pages)
  {
    var step := StepEntry(run, files[0], disk, ignoreMissing, firstPage).value;
    var out := RunEntries(files, run, disk, ignoreMissing, firstPage).value;
    assert RunEntries(files, run, disk, ignoreMissing, firstPage) == RunEntries(files[1..], step, disk, ignoreMissing, firstPage);
    StepEntryShape(run, files[0], disk, ignoreMissing, firstPage);
    RunEntriesTotals(files[1..], step, disk, ignoreMissing, firstPage);
    StepEntryPlaced(run, files[0], disk, ignoreMissing, firstPage);
    assert out.entries[|run.entries|] == out.entries[..|step.entries|][|run.entries|];
    PlacedAtExtends(out.entries[|run.entries|], files[0], disk, firstPage, run.counter, run.exhibitCounter, step.pages, out.pages);
  }

  /** The loop over files split after the first i: the rest continues from where the first
    * part stopped. */
  lemma {:induction false} RunEntriesSplit(files: seq<InputEntry>, run: JoinRun, disk: map<string, nat>, ignoreMissing: bool, firstPage: int, i: nat)
    requires i <= |files|
    ensures RunEntries(files, run, disk, ignoreMissing, firstPage) ==
      match RunEntries(files[..i], run, disk, ignoreMissing, firstPage)
      case Err(e) => Err(e)
      case Ok(mid) => RunEntries(files[i..], mid, disk, ignoreMissing, firstPage)
    decreases i
  {
    if i == 0 {
      assert files[..0] == [] && files[0..] == files;
    } else {
      assert files[..i][0] == files[0] && files[..i][1..] == files[1..][..i - 1];
      assert files[1..][i - 1..] == files[i..];
      var step := StepEntry(run, files[0], disk, ignoreMissing, firstPage);
      if step.Ok? {
        RunEntriesSplit(files[1..], step.value, disk, ignoreMissing, firstPage, i - 1);
      }
    }
  }

  /** The entry of file i after the whole loop, in closed form: the loop reaches it with the
    * counter advanced by the pages of the files found before it, and the exhibit counter by the
    * number of those with pages. */
  lemma RunEntriesEntry(files: seq<InputEntry>, run: JoinRun, disk: map<string, nat>, ignoreMissing: bool, firstPage: int, i: nat)
    requires RunEntries(files, run, disk, ignoreMissing, firstPage).Ok?
    requires run.counter == |run.pages| && i < |files|
    ensures var out := RunEntries(files, run, disk, ignoreMissing, firstPage).value;
      && |run.entries| + i < |out.entries|
      && PlacedAt(out.entries[|run.entries| + i], files[i], disk, firstPage,
                  run.counter + PagesOf(files[..i], disk), run.exhibitCounter + ExhibitsOf(files[..i], disk), out.pages)
  {
    RunEntriesSplit(files, run, disk, ignoreMissing, firstPage, i);
    var first := RunEntries(files[..i], run, disk, ignoreMissing, firstPage);
    assert first.Ok?;
    var mid := first.value;
    var whole := RunEntries(files, run, disk, ignoreMissing, firstPage);
    assert whole == RunEntries(files[i..], mid, disk, ignoreMissing, firstPage);
    RunEntriesTotals(files[..i], run, disk, ignoreMissing, firstPage);
    assert files[i..][0] == files[i];
    RunEntriesHead(files[i..], mid, disk, ignoreMissing, firstPage);
    assert |mid.entries| == |run.entries| + i;
    assert mid.counter == run.counter + PagesOf(files[..i], disk);
    assert mid.exhibitCounter == run.exhibitCounter + ExhibitsOf(files[..i], disk);
  }


  // ---------------------------------------------------------------- link retargeting

  /** No two entries have the same URL. */
  predicate UrlsDistinct(entries: seq<InputEntry>) {
    forall i, j | 0 <= i < j < |entries| :: entries[i].url.Some? ==> entries[i].url != entries[j].url
  }

  predicate HasUrl(entries: seq<InputEntry>, u: string) {
    exists i | 0 <= i < |entries| :: entries[i].url == Some(u)
  }

  /** urlsPages: the URL of every entry that has one, mapped to its internalPageNumber. It is an
    * ImmutableMap, which throws IllegalArgumentException when two entries have the same URL. */
  function UrlPages(entries: seq<InputEntry>): (r: Result<map<string, int>>)
    ensures r.Ok? <==> UrlsDistinct(entries)
    ensures r.Ok? ==> forall u :: u in r.value <==> HasUrl(entries, u)
    ensures r.Err? ==> r.error.kind == IllegalArgument
    decreases |entries|
  {
    if |entries| == 0 then Ok(map[])
    else
      var init := entries[..|entries| - 1];
      var last := entries[|entries| - 1];
      assert entries == init + [last];
      var rest := UrlPages(init);
      if rest.Err? then
        assert !UrlsDistinct(entries) by {
          var i, j :| 0 <= i < j < |init| && init[i].url.Some? && init[i].url == init[j].url;
          assert entries[i] == init[i] && entries[j] == init[j];
        }
        Err(rest.error)
      else
        var m := rest.value;
        if last.url.None? then
          assert forall u :: HasUrl(entries, u) <==> HasUrl(init, u) by {
            forall u ensures HasUrl(entries, u) <==> HasUrl(init, u) {
              if HasUrl(entries, u) {
                var i :| 0 <= i < |entries| && entries[i].url == Some(u);
                assert init[i] == entries[i];
              }
              if HasUrl(init, u) {
                var i :| 0 <= i < |init| && init[i].url == Some(u);
                assert init[i] == entries[i];
              }
            }
          }
          Ok(m)
        else if last.url.value in m then
          assert !UrlsDistinct(entries) by {
            var i :| 0 <= i < |init| && init[i].url == last.url;
            assert entries[i] == init[i] && entries[|entries| - 1] == last;
          }
          Fail(IllegalArgument, "Multiple entries with same key: " + last.url.value)
        else
          assert forall u :: HasUrl(entries, u) <==> HasUrl(init, u) || last.url == Some(u) by {
            forall u ensures HasUrl(entries, u) <==> HasUrl(init, u) || last.url == Some(u) {
              if HasUrl(entries, u) {
                var i :| 0 <= i < |entries| && entries[i].url == Some(u);
                if i < |init| { assert init[i] == entries[i]; }
              }
              if HasUrl(init, u) {
                var i :| 0 <= i < |init| && init[i].url == Some(u);
                assert init[i] == entries[i];
              }
              if last.url == Some(u) {
                assert entries[|entries| - 1] == last;
              }
            }
          }
          Ok(m[last.url.value := last.internalPageNumber])
  }

  /** Each URL is mapped to the internalPageNumber of the one entry that has it. */
  lemma {:induction false} UrlPagesValues(entries: seq<InputEntry>, i: nat)
    requires UrlPages(entries).Ok? && i < |entries| && entries[i].url.Some?
    ensures entries[i].url.value in UrlPages(entries).value
    ensures UrlPages(entries).value[entries[i].url.value] == entries[i].internalPageNumber
    decreases |entries|
  {
    var init := entries[..|entries| - 1];
    var last := entries[|entries| - 1];
    var m := UrlPages(init).value;
    if i < |init| {
      assert init[i] == entries[i];
      UrlPagesValues(init, i);
      if last.url.Some? {
        assert last.url != entries[i].url;
      }
    }
  }

  /** The page a base-page annotation is sent to: a link whose URI action names a URL of the map
    * with a page >= 0. */
  predicate Redirected(a: Annotation, urls: map<string, int>) {
    a.Link? && a.action.Some? && a.action.value.UriAction? && a.action.value.uri in urls && urls[a.action.value.uri] >= 0
  }

  /** An annotation after the retargeting: a redirected link gets a go-to action to its page,
    * any other annotation is left as it is. */
  function Retargeted(a: Annotation, urls: map<string, int>): (r: Annotation)
    ensures Redirected(a, urls) ==> r == Link(Some(GoToPage(urls[a.action.value.uri])))
    ensures !Redirected(a, urls) ==> r == a
  {
    if Redirected(a, urls) then Link(Some(GoToPage(urls[a.action.value.uri]))) else a
  }

  /** doc.getPage(targetPage) throws for a target at or past the output's page count. */
  predicate TargetMissing(a: Annotation, urls: map<string, int>, pageCount: nat) {
    Redirected(a, urls) && urls[a.action.value.uri] >= pageCount
  }

  /** The inner loop over one base page's annotations. */
  method RetargetPage(annotations: seq<Annotation>, urls: map<string, int>, pageCount: nat) returns (r: Result<seq<Annotation>>)
    ensures r.Ok? <==> forall j | 0 <= j < |annotations| :: !TargetMissing(annotations[j], urls, pageCount)
    ensures r.Err? ==> r.error.kind == IndexOutOfBounds
    ensures r.Ok? ==> |r.value| == |annotations| && forall j | 0 <= j < |annotations| :: r.value[j] == Retargeted(annotations[j], urls)
  {
    var out: seq<Annotation> := [];
    var j := 0;
    while j < |annotations|
      invariant 0 <= j <= |annotations|
      invariant forall k | 0 <= k < j :: !TargetMissing(annotations[k], urls, pageCount)
      invariant |out| == j && forall k | 0 <= k < j :: out[k] == Retargeted(annotations[k], urls)
    {
      var a := annotations[j];
      if Redirected(a, urls) {
        var target := urls[a.action.value.uri];
        if target >= pageCount {
          return Fail(IndexOutOfBounds, "Index out of bounds: " + IntToString(target + 1));
        }
        a := Link(Some(GoToPage(target)));
      }
      out := out + [a];
      j := j + 1;
    }
    return Ok(out);
  }

  /** The pages after retargeting: each annotation of a base page retargeted, all else kept. */
  function RetargetedPages(pages: seq<Page>, basePages: nat, urls: map<string, int>): seq<Page> {
    seq(|pages|, i requires 0 <= i < |pages| =>
      if i < basePages then
        pages[i].(annotations := seq(|pages[i].annotations|, j requires 0 <= j < |pages[i].annotations| =>
                                       Retargeted(pages[i].annotations[j], urls)))
      else pages[i])
  }

  /** No link on a base page is sent to a page the output does not have. */
  predicate LinksResolve(pages: seq<Page>, basePages: nat, urls: map<string, int>) {
    forall i, j | 0 <= i < basePages && i < |pages| && 0 <= j < |pages[i].annotations| :: !TargetMissing(pages[i].annotations[j], urls, |pages|)
  }

  /** The loop over the base pages (only those: the appended pages are not scanned). Every link
    * whose URI is the URL of an entry that got a page is turned into a go-to to that page. */
  method RetargetLinks(pages: seq<Page>, basePages: nat, urls: map<string, int>) returns (r: Result<seq<Page>>)
    requires basePages <= |pages|
    ensures r.Ok? <==> LinksResolve(pages, basePages, urls)
    ensures r.Err? ==> r.error.kind == IndexOutOfBounds
    ensures r.Ok? ==> |r.value| == |pages| && forall i | 0 <= i < |pages| ::
      && r.value[i].origin == pages[i].origin && r.value[i].number == pages[i].number && r.value[i].exhibit == pages[i].exhibit
      && |r.value[i].annotations| == |pages[i].annotations|
      && forall j | 0 <= j < |pages[i].annotations| ::
           r.value[i].annotations[j] == if i < basePages then Retargeted(pages[i].annotations[j], urls) else pages[i].annotations[j]
    ensures r.Ok? ==> r.value == RetargetedPages(pages, basePages, urls)
  {
    var out := pages;
    var i := 0;
    while i < basePages
      invariant 0 <= i <= basePages && |out| == |pages|
      invariant forall k, j | 0 <= k < i && 0 <= j < |pages[k].annotations| :: !TargetMissing(pages[k].annotations[j], urls, |pages|)
      invariant forall k | 0 <= k < |pages| ::
        && out[k].origin == pages[k].origin && out[k].number == pages[k].number && out[k].exhibit == pages[k].exhibit
        && |out[k].annotations| == |pages[k].annotations|
        && forall j | 0 <= j < |pages[k].annotations| ::
             out[k].annotations[j] == if k < i then Retargeted(pages[k].annotations[j], urls) else pages[k].annotations[j]
    {
      var page := RetargetPage(pages[i].annotations, urls, |pages|);
      if page.Err? {
        return Err(page.error);
      }
      out := out[i := out[i].(annotations := page.value)];
      i := i + 1;
    }
    ghost var expected := RetargetedPages(pages, basePages, urls);
    forall k | 0 <= k < |pages|
      ensures out[k] == expected[k]
    {
      assert out[k].annotations == expected[k].annotations;
    }
    return Ok(out);
  }

  /** Retargeting through the URL map: a link to the URL of an entry placed at page p >= 0 goes to
    * p; a link to the URL of an entry left at -1 is unchanged. */
  lemma RetargetedByEntry(entries: seq<InputEntry>, i: nat)
    requires UrlPages(entries).Ok? && i < |entries| && entries[i].url.Some?
    ensures var link := Link(Some(UriAction(entries[i].url.value)));
      Retargeted(link, UrlPages(entries).value)
        == if entries[i].internalPageNumber >= 0 then Link(Some(GoToPage(entries[i].internalPageNumber))) else link
  {
    UrlPagesValues(entries, i);
  }

  /** A link to a URL that no entry has is unchanged. */
  lemma RetargetedUnknownUrl(entries: seq<InputEntry>, u: string)
    requires UrlPages(entries).Ok? && !HasUrl(entries, u)
    ensures Retargeted(Link(Some(UriAction(u))), UrlPages(entries).value) == Link(Some(UriAction(u)))
  {
  }

  /** Retargeting twice changes nothing more: a go-to is never retargeted. */
  lemma RetargetedIdempotent(a: Annotation, urls: map<string, int>)
    ensures Retargeted(Retargeted(a, urls), urls) == Retargeted(a, urls)
  {
  }

  // ---------------------------------------------------------------- the entries and the counters' start

  /** The builder for one index row: the URL from the table's link for the name, then the sworn
    * position check; a failure is rethrown wrapped. */
  function ListEntryOf(e: Entry, urls: map<string, string>): (r: Result<InputEntry>)
    ensures r.Ok? <==> DocIndexModel.SwornPosError(e.row).None?
    ensures r.Ok? ==>
      && Unassigned(r.value) && r.value.filename == e.id && r.value.row == e.row
      && r.value.url == (if e.id in urls then Some(urls[e.id]) else None)
    ensures r.Err? ==> r == Fail(IllegalArgument, "Failed to process entry file=" + e.id
      + ": java.lang.IllegalArgumentException: " + DocIndexModel.SwornPosError(e.row).value)
  {
    match DocIndexModel.SwornPosError(e.row)
    case Some(message) =>
      Fail(IllegalArgument, "Failed to process entry file=" + e.id + ": java.lang.IllegalArgumentException: " + message)
    case None =>
      Ok(InputEntry(e.id, if e.id in urls then Some(urls[e.id]) else None, e.row, -1, -1, None, None))
  }

  /** readListFile: the index rows the keys select, in order, become entries with nothing
    * assigned yet; the first row that fails fails the whole list. */
  function ReadListFile(entries: seq<Entry>, urls: map<string, string>): (r: Result<seq<InputEntry>>)
    ensures r.Ok? <==> forall i | 0 <= i < |entries| :: ListEntryOf(entries[i], urls).Ok?
    ensures r.Err? ==> r.error.kind == IllegalArgument
    ensures r.Ok? ==> |r.value| == |entries| && forall i | 0 <= i < |entries| ::
      && Unassigned(r.value[i]) && r.value[i].filename == entries[i].id && r.value[i].row == entries[i].row
      && r.value[i].url == (if entries[i].id in urls then Some(urls[entries[i].id]) else None)
  {
    if |entries| == 0 then Ok([])
    else
      var first :- ListEntryOf(entries[0], urls);
      var rest := ReadListFile(entries[1..], urls);
      assert forall i | 1 <= i < |entries| :: entries[i] == entries[1..][i - 1];
      if rest.Err? then Err(rest.error)
      else
        var r := [first] + rest.value;
        assert forall i | 1 <= i < |entries| :: r[i] == rest.value[i - 1];
        Ok(r)
  }

  /** No file name is given twice. */
  predicate NamesDistinct(names: seq<string>) {
    forall i, j | 0 <= i < j < |names| :: names[i] != names[j]
  }

  /** The class of the entries, which has no toString of its own. */
  const ENTRY_CLASS := INPUT_ENTRY_CLASS

  /** The entries for the input files given on the command line: one unassigned entry per name,
    * in order, with no URL and an empty row; a name given twice fails with
    * IllegalArgumentException, whose message names the earlier entry object (its class and
    * identity hash), not the file. */
  function InputsOf(names: seq<string>): (r: Result<seq<InputEntry>>)
    ensures r.Ok? <==> NamesDistinct(names)
    ensures r.Err? ==> r.error.kind == IllegalArgument && StartsWith(r.error.message, "File specified twice: " + ENTRY_CLASS + "@")
    ensures r.Ok? ==> |r.value| == |names| && forall i | 0 <= i < |names| ::
      Unassigned(r.value[i]) && r.value[i].filename == names[i] && r.value[i].url.None?
  {
    if |names| == 0 then Ok([])
    else
      var init := names[..|names| - 1];
      var name := names[|names| - 1];
      var rest :- InputsOf(init);
      if name in init then
        Fail(IllegalArgument, "File specified twice: " + ENTRY_CLASS + "@")
      else
        assert forall i | 0 <= i < |init| :: init[i] == names[i];
        Ok(rest + [InputEntry(name, None, map[], -1, -1, None, None)])
  }

  /** The counters' start as read from the BASE row when -e and -a were not given: "K Exh" is
    * read with parseExhibitId and "K Pg" with Integer.parseInt, and an absent or empty cell
    * leaves the option unset. */
  datatype Numbering = Numbering(firstExhibit: Option<int>, firstPage: Option<int>)

  /** An absent or empty cell. */
  predicate Unset(cell: Option<string>) {
    cell.None? || |cell.value| == 0
  }

  method BaseNumbering(firstExhibit: Option<int>, firstPage: Option<int>, exhCell: Option<string>, pgCell: Option<string>)
    returns (r: Result<Numbering>)
    ensures var exhOk := firstExhibit.Some? || Unset(exhCell) || IsExhibitId(exhCell.value);
      var pgOk := firstPage.Some? || Unset(pgCell) || ParseInt(pgCell.value).Ok?;
      && (r.Ok? <==> exhOk && pgOk)
      && (!exhOk ==> r.Err? && r.error.kind == IllegalArgument)
      && (exhOk && !pgOk ==> r == Err(ParseInt(pgCell.value).error))
    ensures r.Ok? ==>
      && r.value.firstExhibit == (if firstExhibit.Some? then firstExhibit
                                 else if Unset(exhCell) then None else Some(ExhibitValue(exhCell.value)))
      && r.value.firstPage == (if firstPage.Some? then firstPage
                              else if Unset(pgCell) then None else Some(ParseInt(pgCell.value).value))
  {
    var exhibit := firstExhibit;
    if exhibit.None? && !Unset(exhCell) {
      var parsed := ParseExhibitId(exhCell.value);
      if parsed.Err? {
        return Err(parsed.error);
      }
      exhibit := Some(parsed.value);
    }
    var page := firstPage;
    if page.None? && !Unset(pgCell) {
      var parsed := ParseInt(pgCell.value);
      if parsed.Err? {
        return Err(parsed.error);
      }
      page := Some(parsed.value);
    }
    return Ok(Numbering(exhibit, page));
  }

  /** A BASE row that holds the label of counter c starts the exhibit counter at c. */
  lemma BaseLabelRoundTrip(c: int)
    requires 0 <= c < LABEL_BASE * LABEL_BASE
    ensures Label(c).Ok? && !Unset(Some(Label(c).value)) && IsExhibitId(Label(c).value)
    ensures ExhibitValue(Label(c).value) == c
  {
    ExhibitValueOfLabel(c);
  }

  // ---------------------------------------------------------------- the whole command

  /** The page counts of a prefix of the files are at most those of all of them. */
  lemma {:induction false} PagesOfPrefix(files: seq<InputEntry>, i: nat, disk: map<string, nat>)
    requires i <= |files|
    ensures PagesOf(files[..i], disk) <= PagesOf(files, disk)
    decreases i
  {
    if i > 0 {
      PrefixSums(files, i, disk);
      PagesOfPrefix(files[1..], i - 1, disk);
    }
  }

  /** After a completed loop over entries as the builder made them, every entry's
    * internalPageNumber is -1 or a start index no greater than the page count: this is what
    * lets --extract treat the start pages as indices of the merged document. */
  lemma StartsWithinPages(base: seq<Page>, files: seq<InputEntry>, disk: map<string, nat>, ignoreMissing: bool, firstPage: int, firstExhibit: int)
    requires forall i | 0 <= i < |files| :: Unassigned(files[i])
    requires RunEntries(files, JoinRun(base, [], |base|, firstExhibit), disk, ignoreMissing, firstPage).Ok?
    ensures var out := RunEntries(files, JoinRun(base, [], |base|, firstExhibit), disk, ignoreMissing, firstPage).value;
      && |out.entries| == |files|
      && forall k | 0 <= k < |out.entries| :: -1 <= out.entries[k].internalPageNumber <= |out.pages|
  {
    var run := JoinRun(base, [], |base|, firstExhibit);
    var out := RunEntries(files, run, disk, ignoreMissing, firstPage).value;
    RunEntriesTotals(files, run, disk, ignoreMissing, firstPage);
    forall k | 0 <= k < |out.entries|
      ensures -1 <= out.entries[k].internalPageNumber <= |out.pages|
    {
      RunEntriesEntry(files, run, disk, ignoreMissing, firstPage, k);
      PagesOfPrefix(files, k, disk);
    }
  }

  /** The internalPageNumber of every entry, as the exhibit-first selection reads them. */
  function Starts(entries: seq<InputEntry>): (r: seq<int>)
    ensures |r| == |entries| && forall k | 0 <= k < |r| :: r[k] == entries[k].internalPageNumber
  {
    seq(|entries|, k requires 0 <= k < |entries| => entries[k].internalPageNumber)
  }

  /** What execute produces: the output's pages and the entries as the loop left them. */
  datatype Joined = Joined(pages: seq<Page>, entries: seq<InputEntry>)

  /** execute from the loaded base document to the saved output: the counters are set up from
    * -a and -e (the exhibit counter starts at 0 without -e), the files are merged, the links on
    * base pages are retargeted, and --extract is applied. Any failure of a step is the failure
    * of the whole command. */
  method Execute(base: seq<Page>, files: seq<InputEntry>, disk: map<string, nat>, ignoreMissing: bool,
                 firstPage: Option<int>, firstExhibit: Option<int>, extract: seq<ExtractCommand>)
    returns (r: Result<Joined>)
    requires forall i | 0 <= i < |files| :: Unassigned(files[i])
    requires firstPage.Some? ==> INT_MIN <= firstPage.value <= INT_MAX
    ensures var loop := RunEntries(files, JoinRun(base, [], |base|, firstExhibit.GetOr(0)), disk, ignoreMissing, StartPage(firstPage, |base|));
      && (loop.Err? ==> r == Err(loop.error))
      && (loop.Ok? && UrlPages(loop.value.entries).Err? ==> r == Err(UrlPages(loop.value.entries).error))
      && (loop.Ok? && UrlPages(loop.value.entries).Ok? ==>
            (r.Ok? <==> LinksResolve(loop.value.pages, |base|, UrlPages(loop.value.entries).value)))
    ensures var loop := RunEntries(files, JoinRun(base, [], |base|, firstExhibit.GetOr(0)), disk, ignoreMissing, StartPage(firstPage, |base|));
      r.Ok? ==>
        && loop.Ok? && UrlPages(loop.value.entries).Ok? && r.value.entries == loop.value.entries
        && var retargeted := RetargetedPages(loop.value.pages, |base|, UrlPages(loop.value.entries).value);
        && |retargeted| == |base| + PagesOf(files, disk)
        && (|extract| == 0 ==> r.value.pages == retargeted)
        && (|extract| > 0 ==> r.value.pages == KeepFrom(retargeted, 0, KeepSet(extract, |base|, Starts(loop.value.entries), |retargeted|)))
  {
    var start := StartPage(firstPage, |base|);
    var loop := AssembleInputs(base, files, disk, ignoreMissing, start, firstExhibit.GetOr(0));
    if loop.Err? {
      return Err(loop.error);
    }
    var run := loop.value;
    RunEntriesTotals(files, JoinRun(base, [], |base|, firstExhibit.GetOr(0)), disk, ignoreMissing, start);
    StartsWithinPages(base, files, disk, ignoreMissing, start, firstExhibit.GetOr(0));
    var urls := UrlPages(run.entries);
    if urls.Err? {
      return Err(urls.error);
    }
    var pages := RetargetLinks(run.pages, |base|, urls.value);
    if pages.Err? {
      return Err(pages.error);
    }
    var doc := pages.value;
    if |extract| > 0 {
      doc := ExtractPages(doc, extract, |base|, Starts(run.entries));
    }
    return Ok(Joined(doc, run.entries));
  }

  // ---------------------------------------------------------------- updateListFile

  /** The two values written for an entry under a key: "K Pg" gets pageNumber in decimal and
    * "K Exh" the exhibitId, or "-" for a file that got no label. */
  function KeyWrites(entry: InputEntry, key: string): (r: seq<DocIndexModel.CellWrite>)
    ensures |r| == 2 && r[0].id == entry.filename && r[1].id == entry.filename
    ensures r[0].column == key + " Pg" && r[1].column == ExhColumn(key)
  {
    [DocIndexModel.CellWrite(entry.filename, key + " Pg", IntToString(entry.pageNumber)),
     DocIndexModel.CellWrite(entry.filename, ExhColumn(key), entry.exhibitId.GetOr("-"))]
  }

  /** The written values read back: the page cell parses to pageNumber, an int, and the exhibit
    * cell is the exhibitId when there is one. */
  lemma KeyWritesReadBack(entry: InputEntry, key: string)
    requires INT_MIN <= entry.pageNumber <= INT_MAX
    ensures ParseInt(KeyWrites(entry, key)[0].value) == Ok(entry.pageNumber)
    ensures entry.exhibitId.Some? ==> KeyWrites(entry, key)[1].value == entry.exhibitId.value
    ensures entry.exhibitId.None? ==> KeyWrites(entry, key)[1].value == "-"
  {
    ParseIntOfIntToString(entry.pageNumber);
  }

  /** A file that was skipped (or has no pages and no label) keeps the builder's values: it is
    * written back as page "-1" and exhibit "-". */
  lemma UnassignedWriteBack(entry: InputEntry, key: string)
    requires Unassigned(entry)
    ensures KeyWrites(entry, key) == [DocIndexModel.CellWrite(entry.filename, key + " Pg", "-1"), DocIndexModel.CellWrite(entry.filename, key + " Exh", "-")]
  {
    assert DigitChar(1) == '1';
    assert NatToString(1) == "1";
    assert IntToString(-1) == "-1";
  }

  /** `w` is one of the writes for the entry under a key the entry is included for. */
  predicate WrittenFor(entry: InputEntry, keys: seq<string>, w: DocIndexModel.CellWrite) {
    exists k | 0 <= k < |keys| :: IsExhibitIncluded(entry.row, keys[k]) && w in KeyWrites(entry, keys[k])
  }

  /** The writes for one entry, key by key. */
  function EntryWrites(entry: InputEntry, keys: seq<string>): (r: seq<DocIndexModel.CellWrite>)
    ensures forall w :: w in r <==> WrittenFor(entry, keys, w)
  {
    if |keys| == 0 then []
    else
      var rest := EntryWrites(entry, keys[1..]);
      assert forall w :: WrittenFor(entry, keys[1..], w) ==> WrittenFor(entry, keys, w) by {
        forall w | WrittenFor(entry, keys[1..], w) ensures WrittenFor(entry, keys, w) {
          var k :| 0 <= k < |keys[1..]| && IsExhibitIncluded(entry.row, keys[1..][k]) && w in KeyWrites(entry, keys[1..][k]);
          assert keys[k + 1] == keys[1..][k];
        }
      }
      assert forall w :: WrittenFor(entry, keys, w) ==>
        (IsExhibitIncluded(entry.row, keys[0]) && w in KeyWrites(entry, keys[0])) || WrittenFor(entry, keys[1..], w) by {
        forall w | WrittenFor(entry, keys, w)
          ensures (IsExhibitIncluded(entry.row, keys[0]) && w in KeyWrites(entry, keys[0])) || WrittenFor(entry, keys[1..], w)
        {
          var k :| 0 <= k < |keys| && IsExhibitIncluded(entry.row, keys[k]) && w in KeyWrites(entry, keys[k]);
          if k > 0 {
            assert keys[1..][k - 1] == keys[k];
          }
        }
      }
      (if IsExhibitIncluded(entry.row, keys[0]) then KeyWrites(entry, keys[0]) else []) + rest
  }

  /** updateListFile: every entry, placed or skipped, is written back under every key it is
    * included for, and nothing else is written. */
  function WriteBack(files: seq<InputEntry>, keys: seq<string>): (r: seq<DocIndexModel.CellWrite>)
    ensures forall w :: w in r <==> exists i | 0 <= i < |files| :: WrittenFor(files[i], keys, w)
  {
    if |files| == 0 then []
    else
      var rest := WriteBack(files[1..], keys);
      assert forall w :: (exists i | 0 <= i < |files| :: WrittenFor(files[i], keys, w)) <==>
        WrittenFor(files[0], keys, w) || exists i | 0 <= i < |files[1..]| :: WrittenFor(files[1..][i], keys, w) by {
        forall w ensures (exists i | 0 <= i < |files| :: WrittenFor(files[i], keys, w)) <==>
          WrittenFor(files[0], keys, w) || exists i | 0 <= i < |files[1..]| :: WrittenFor(files[1..][i], keys, w)
        {
          if i :| 0 <= i < |files| && WrittenFor(files[i], keys, w) {
            if i > 0 {
              assert files[1..][i - 1] == files[i];
            }
          }
          if i :| 0 <= i < |files[1..]| && WrittenFor(files[1..][i], keys, w) {
            assert files[i + 1] == files[1..][i];
          }
        }
      }
      EntryWrites(files[0], keys) + rest
  }

  /** A file that is missing under -i is written back as page "-1" and exhibit "-" under every
    * key it is included for. */
  lemma MissingWrittenBack(base: seq<Page>, files: seq<InputEntry>, disk: map<string, nat>, firstPage: int, firstExhibit: int, i: nat, key: string)
    requires forall j | 0 <= j < |files| :: Unassigned(files[j])
    requires RunEntries(files, JoinRun(base, [], |base|, firstExhibit), disk, true, firstPage).Ok?
    requires i < |files| && FindPdfFile(files[i].filename, disk).Err?
    requires IsExhibitIncluded(files[i].row, key)
    ensures var out := RunEntries(files, JoinRun(base, [], |base|, firstExhibit), disk, true, firstPage).value;
      && DocIndexModel.CellWrite(files[i].filename, key + " Pg", "-1") in WriteBack(out.entries, [key])
      && DocIndexModel.CellWrite(files[i].filename, key + " Exh", "-") in WriteBack(out.entries, [key])
  {
    var run := JoinRun(base, [], |base|, firstExhibit);
    var out := RunEntries(files, run, disk, true, firstPage).value;
    RunEntriesEntry(files, run, disk, true, firstPage, i);
    var e := out.entries[i];
    assert Unassigned(e.(error := None));
    UnassignedWriteBack(e.(error := None), key);
    assert KeyWrites(e, key) == KeyWrites(e.(error := None), key);
    assert WrittenFor(e, [key], KeyWrites(e, key)[0]);
    assert WrittenFor(e, [key], KeyWrites(e, key)[1]);
  }
}
