/** command/PdfJoinCommand: the inputs are appended, in order, to a new document or (with
  * --append) to the existing output. With -a the appended pages are stamped with page numbers,
  * and with --align each input is padded with blank pages to a multiple of the alignment. The
  * command then prints, per input name, where its pages start (1-based) and how many there are.
  * Loading and saving the PDF files, the rendering of the number and --decompress are not part
  * of this model: an input is its name and its page count. */
module PdfJoinModel {
  import opened Wrappers
  import opened JavaText
  import TsvUtil

  const POSITION_FORMAT_MESSAGE: string := "-p parameter requires x,y format (both from interval 0 - 1"

  // ---------------------------------------------------------------------------------------------
  // Options

  const DEFAULT_PATTERN: string := "Pg %03d"

  /** --align: a Java int, not negative. */
  function ParseAlign(s: string): (r: Result<int>)
    ensures r.Ok? <==> ParseInt(s).Ok? && ParseInt(s).value >= 0
    ensures r.Ok? ==> Ok(r.value) == ParseInt(s)
    ensures ParseInt(s).Ok? && ParseInt(s).value < 0
      ==> r == Fail(IllegalArgument, "align must not be negative")
  {
    var align :- ParseInt(s);
    if align < 0 then Fail(IllegalArgument, "align must not be negative") else Ok(align)
  }

  /** -p: the text split once at the first ',' into the x and the y coordinate; the coordinates'
    * float parsing is not part of this model. */
  function ParsePosition(s: string): (r: Result<(string, string)>)
    ensures r.Ok? <==> ',' in s
    ensures r.Ok? ==> s == r.value.0 + "," + r.value.1 && ',' !in r.value.0
    ensures r.Err? ==> r == Fail(IllegalArgument, POSITION_FORMAT_MESSAGE)
  {
    var pos := SplitOnce(s, ',');
    if |pos| != 2 then Fail(IllegalArgument, POSITION_FORMAT_MESSAGE)
    else Ok((pos[0], pos[1]))
  }

  /** validateOptions: the output and at least one input are mandatory. */
  function ValidateJoin(output: Option<string>, inputs: seq<string>): (r: Validation)
    ensures r == Continue <==> output.Some? && |inputs| > 0
    ensures output.None? ==> r == Usage("-o output option is mandatory")
    ensures output.Some? && |inputs| == 0 ==> r == Usage("inputs are mandatory")
  {
    if output.None? then Usage("-o output option is mandatory")
    else if |inputs| == 0 then Usage("inputs are mandatory")
    else Continue
  }

  /** The page number pattern: -f, or "Pg %03d". */
  function PatternOf(pattern: Option<string>): (r: string)
    ensures pattern.None? ==> r == DEFAULT_PATTERN
    ensures pattern.Some? ==> r == pattern.value
  {
    pattern.GetOr(DEFAULT_PATTERN)
  }

  // ---------------------------------------------------------------------------------------------
  // The joined document

  /** Where an output page comes from: a page of the existing output (--append), a page of an
    * input, or a blank alignment page. */
  datatype Content = Existing(index: nat) | FromInput(input: nat, page: nat) | Blank

  /** An output page and the page number stamped on it, if any. */
  datatype OutPage = OutPage(content: Content, stamp: Option<int>)

  predicate Aligned(n: int, align: int)
    requires align > 1
  {
    n % align == 0
  }

  lemma MulMonotone(x: int, a: int)
    requires x >= 1 && a > 0
    ensures x * a >= a
  {
    assert x * a == (x - 1) * a + a;
    assert (x - 1) * a >= 0;
  }

  /** Euclidean division is determined by the quotient and the remainder. */
  lemma DivModUnique(k: int, a: int, t: int)
    requires a > 0 && 0 <= t < a
    ensures (k * a + t) / a == k && (k * a + t) % a == t
  {
    var m := k * a + t;
    var q := m / a;
    var r := m % a;
    assert (k - q) * a == r - t;
    if k > q {
      MulMonotone(k - q, a);
    } else if k < q {
      MulMonotone(q - k, a);
    }
  }

  lemma NextMultiple(n: nat, align: int)
    requires align > 1 && n % align != 0
    ensures var r := (n / align + 1) * align;
      && n < r && r - n < align && Aligned(r, align)
      && forall m | n <= m < r :: !Aligned(m, align)
  {
    var q := n / align;
    var rem := n % align;
    var r := (q + 1) * align;
    assert n == q * align + rem;
    assert r == q * align + align;
    DivModUnique(q + 1, align, 0);
    forall m | n <= m < r
      ensures !Aligned(m, align)
    {
      DivModUnique(q, align, rem + (m - n));
    }
  }

  /** The page count after the alignment padding: the next multiple of `align` when align > 1. */
  function Pad(n: nat, align: int): (r: nat)
    ensures n <= r
    ensures align > 1 ==> Aligned(r, align) && r - n < align
    ensures align > 1 ==> forall m | n <= m < r :: !Aligned(m, align)
    ensures align <= 1 ==> r == n
  {
    if align > 1 && n % align != 0 then
      NextMultiple(n, align);
      (n / align + 1) * align
    else n
  }

  /** The first output page of input k: after the existing pages, every earlier input and its
    * padding. */
  function StartOf(initial: nat, counts: seq<nat>, align: int, k: nat): nat
    requires k <= |counts|
  {
    if k == 0 then initial else Pad(StartOf(initial, counts, align, k - 1) + counts[k - 1], align)
  }

  /** The page count right after input k's pages were appended, before its padding. */
  function AppendEnd(initial: nat, counts: seq<nat>, align: int, k: nat): nat
    requires k < |counts|
  {
    StartOf(initial, counts, align, k) + counts[k]
  }

  /** After the first `done` inputs: the page stamping has reached the end of the last input's
    * own pages, except for the first input's pages under --skip-first. */
  predicate StampedAfter(initial: nat, counts: seq<nat>, align: int, skipFirst: bool, done: nat, j: int)
    requires done <= |counts|
  {
    && 0 < done
    && initial <= j < AppendEnd(initial, counts, align, done - 1)
    && !(skipFirst && j < AppendEnd(initial, counts, align, 0))
  }

  /** The stamp page j carries after the first `done` inputs. */
  function StampAfter(initial: nat, counts: seq<nat>, align: int, firstPage: Option<int>,
                      skipFirst: bool, done: nat, j: int): Option<int>
    requires done <= |counts|
  {
    if firstPage.Some? && StampedAfter(initial, counts, align, skipFirst, done, j)
    then Some(Wrap32(firstPage.value + j)) else None
  }

  /** The existing pages come first, in their order. */
  predicate ExistingLaid(pages: seq<OutPage>, initial: nat) {
    forall j | 0 <= j < initial && j < |pages| :: pages[j].content == Existing(j)
  }

  /** Each of the first `done` inputs' pages sit, in order, from the input's first page on. */
  predicate InputsLaid(pages: seq<OutPage>, initial: nat, counts: seq<nat>, align: int, done: nat)
    requires done <= |counts|
  {
    forall k, j | 0 <= k < done && StartOf(initial, counts, align, k) <= j < AppendEnd(initial, counts, align, k) && j < |pages|
      :: pages[j].content == FromInput(k, j - StartOf(initial, counts, align, k))
  }

  /** Between an input's own pages and the next input's first page there are only blanks. */
  predicate PaddingLaid(pages: seq<OutPage>, initial: nat, counts: seq<nat>, align: int, done: nat)
    requires done <= |counts|
  {
    forall k, j | 0 <= k < done && AppendEnd(initial, counts, align, k) <= j < StartOf(initial, counts, align, k + 1) && j < |pages|
      :: pages[j].content == Blank
  }

  /** The pages of the first `done` inputs and their padding are in place. */
  predicate Laid(pages: seq<OutPage>, initial: nat, counts: seq<nat>, align: int, done: nat)
    requires done <= |counts|
  {
    && |pages| == StartOf(initial, counts, align, done)
    && ExistingLaid(pages, initial)
    && InputsLaid(pages, initial, counts, align, done)
    && PaddingLaid(pages, initial, counts, align, done)
  }

  lemma {:induction false} StartOfMonotone(initial: nat, counts: seq<nat>, align: int, k: nat, m: nat)
    requires k <= m <= |counts|
    ensures StartOf(initial, counts, align, k) <= StartOf(initial, counts, align, m)
    ensures k < m ==> AppendEnd(initial, counts, align, k) <= StartOf(initial, counts, align, m)
    decreases m - k
  {
    if k < m {
      StartOfMonotone(initial, counts, align, k + 1, m);
    }
  }

  /** With --align above 1 every input's range ends on a multiple of the alignment, and the
    * padding is less than one alignment unit. */
  lemma AlignedRanges(initial: nat, counts: seq<nat>, align: int, k: nat)
    requires align > 1 && k < |counts|
    ensures Aligned(StartOf(initial, counts, align, k + 1), align)
    ensures StartOf(initial, counts, align, k + 1) - AppendEnd(initial, counts, align, k) < align
  {
  }

  // ---------------------------------------------------------------------------------------------
  // The report: a LinkedHashMap from input name to (start, size)

  datatype Range = Range(start: int, size: int)

  /** A LinkedHashMap: the keys in insertion order and the current value of each. */
  datatype Linked = Linked(keys: seq<string>, values: map<string, Range>)

  predicate Distinct(s: seq<string>) {
    forall i, j | 0 <= i < j < |s| :: s[i] != s[j]
  }

  ghost predicate LinkedValid(m: Linked) {
    Distinct(m.keys) && (forall key :: key in m.values <==> key in m.keys)
  }

  /** LinkedHashMap.put: a new key goes last; an existing key keeps its place and gets the new
    * value. */
  function Put(m: Linked, key: string, value: Range): (r: Linked)
    requires LinkedValid(m)
    ensures LinkedValid(r)
    ensures r.values == m.values[key := value]
    ensures key in m.values ==> r.keys == m.keys
    ensures key !in m.values ==> r.keys == m.keys + [key]
  {
    if key in m.values then Linked(m.keys, m.values[key := value])
    else Linked(m.keys + [key], m.values[key := value])
  }

  /** The names in order of their first appearance. */
  function FirstAppearances(names: seq<string>): (r: seq<string>)
    ensures Distinct(r)
    ensures forall n :: n in r <==> n in names
  {
    if |names| == 0 then []
    else
      var earlier := FirstAppearances(names[..|names| - 1]);
      var last := names[|names| - 1];
      assert forall n :: n in names <==> n in names[..|names| - 1] || n == last;
      if last in earlier then earlier else earlier + [last]
  }

  /** Position of the first appearance of a name. */
  function FirstIndex(names: seq<string>, n: string): (i: nat)
    requires n in names
    ensures i < |names| && names[i] == n
    ensures forall j | 0 <= j < i :: names[j] != n
  {
    if names[0] == n then 0 else 1 + FirstIndex(names[1..], n)
  }

  /** The order of FirstAppearances is the order of the first appearances in the input list. */
  lemma {:induction false} FirstAppearancesOrdered(names: seq<string>, a: nat, b: nat)
    requires a < b < |FirstAppearances(names)|
    ensures var order := FirstAppearances(names);
      FirstIndex(names, order[a]) < FirstIndex(names, order[b])
    decreases |names|
  {
    var order := FirstAppearances(names);
    var init := names[..|names| - 1];
    var earlier := FirstAppearances(init);
    var last := names[|names| - 1];
    FirstIndexPrefix(names, order[a]);
    if b < |earlier| {
      FirstIndexPrefix(names, order[b]);
      FirstAppearancesOrdered(init, a, b);
    } else {
      assert order[b] == last && last !in init;
      assert FirstIndex(names, order[b]) == |names| - 1;
    }
  }

  lemma FirstIndexPrefix(names: seq<string>, n: string)
    requires |names| > 0 && n in names[..|names| - 1]
    ensures FirstIndex(names, n) == FirstIndex(names[..|names| - 1], n)
  {
    var init := names[..|names| - 1];
    var i := FirstIndex(init, n);
    assert names[i] == n;
    assert forall j | 0 <= j < i :: names[j] == init[j] && names[j] != n;
  }

  /** Input k is the last input with its name. */
  predicate LastWithName(names: seq<string>, k: nat)
    requires k < |names|
  {
    forall j | k < j < |names| :: names[j] != names[k]
  }

  /** The report after the first `done` inputs: every name seen so far in order of first
    * appearance, each with the range of its last appearance. */
  ghost predicate Reported(report: Linked, names: seq<string>, initial: nat, counts: seq<nat>, align: int, done: nat)
    requires done <= |names| == |counts|
  {
    && LinkedValid(report)
    && report.keys == FirstAppearances(names[..done])
    && (forall k | 0 <= k < done && LastWithName(names[..done], k) ::
          names[k] in report.values
          && report.values[names[k]] == RangeOf(initial, counts, align, k))
  }

  /** The range reported for input k: its first page and its page count with padding. */
  function RangeOf(initial: nat, counts: seq<nat>, align: int, k: nat): (r: Range)
    requires k < |counts|
    ensures r.start == StartOf(initial, counts, align, k)
    ensures r.start + r.size == StartOf(initial, counts, align, k + 1)
    ensures counts[k] <= r.size
  {
    var start := StartOf(initial, counts, align, k);
    Range(start, StartOf(initial, counts, align, k + 1) - start)
  }

  lemma ReportedKeysStep(report: Linked, names: seq<string>, done: nat)
    requires done < |names|
    requires LinkedValid(report) && report.keys == FirstAppearances(names[..done])
    ensures FirstAppearances(names[..done + 1]) == (if names[done] in report.values then report.keys
                                                    else report.keys + [names[done]])
  {
    var seen := names[..done + 1];
    assert seen[..|seen| - 1] == names[..done];
    assert seen[|seen| - 1] == names[done];
  }

  lemma ReportedValuesStep(report: Linked, names: seq<string>, initial: nat, counts: seq<nat>,
                           align: int, done: nat)
    requires done < |names| == |counts|
    requires Reported(report, names, initial, counts, align, done)
    ensures var next := report.values[names[done] := RangeOf(initial, counts, align, done)];
      forall k | 0 <= k < done + 1 && LastWithName(names[..done + 1], k) ::
        names[k] in next && next[names[k]] == RangeOf(initial, counts, align, k)
  {
    var next := report.values[names[done] := RangeOf(initial, counts, align, done)];
    var seen := names[..done + 1];
    forall k | 0 <= k < done && LastWithName(seen, k)
      ensures names[k] in next && next[names[k]] == RangeOf(initial, counts, align, k)
    {
      assert seen[done] != seen[k];
      assert LastWithName(names[..done], k) by {
        forall j | k < j < done
          ensures names[..done][j] != names[..done][k]
        {
          assert seen[j] != seen[k];
        }
      }
    }
  }

  lemma ReportedStep(report: Linked, names: seq<string>, initial: nat, counts: seq<nat>, align: int, done: nat)
    requires done < |names| == |counts|
    requires Reported(report, names, initial, counts, align, done)
    ensures Reported(Put(report, names[done], RangeOf(initial, counts, align, done)),
                     names, initial, counts, align, done + 1)
  {
    ReportedKeysStep(report, names, done);
    ReportedValuesStep(report, names, initial, counts, align, done);
  }

  /** The printed report: per name, a TSV line with the name, the 1-based first page and the page
    * count. */
  function ReportLines(report: Linked): (lines: seq<string>)
    requires LinkedValid(report)
    ensures |lines| == |report.keys|
    ensures forall i | 0 <= i < |report.keys| ::
      var range := report.values[report.keys[i]];
      lines[i] == TsvUtil.FormatTsv([Some(report.keys[i]), Some(IntToString(range.start + 1)),
                                     Some(IntToString(range.size))])
  {
    seq(|report.keys|, i requires 0 <= i < |report.keys| =>
      var range := report.values[report.keys[i]];
      TsvUtil.FormatTsv([Some(report.keys[i]), Some(IntToString(range.start + 1)),
                         Some(IntToString(range.size))]))
  }

  // ---------------------------------------------------------------------------------------------
  // execute

  /** The page-number loop for one input: from the counter up to the current page count, each
    * page is stamped with firstPage + its index, unless the loop skips (the first input under
    * --skip-first); the counter advances either way. */
  method StampPages(pages: seq<OutPage>, counter: nat, firstPage: int, skip: bool)
    returns (out: seq<OutPage>, next: nat)
    requires counter <= |pages|
    ensures next == |pages| == |out|
    ensures forall j | 0 <= j < |pages| :: out[j].content == pages[j].content
    ensures forall j | 0 <= j < |pages| ::
      out[j].stamp == if counter <= j && !skip then Some(Wrap32(firstPage + j)) else pages[j].stamp
  {
    out := pages;
    next := counter;
    while next < |out|
      invariant counter <= next <= |out| == |pages|
      invariant forall j | 0 <= j < |pages| :: out[j].content == pages[j].content
      invariant forall j | 0 <= j < |pages| ::
        out[j].stamp == if counter <= j < next && !skip then Some(Wrap32(firstPage + j)) else pages[j].stamp
    {
      if !skip {
        out := out[next := out[next].(stamp := Some(Wrap32(firstPage + next)))];
      }
      next := next + 1;
    }
  }

  /** The alignment loop: blank pages are inserted at the end until the count is a multiple of
    * `align` (only when align > 1). */
  method PadPages(pages: seq<OutPage>, align: int) returns (out: seq<OutPage>)
    ensures |out| == Pad(|pages|, align)
    ensures out[..|pages|] == pages
    ensures forall j | |pages| <= j < |out| :: out[j] == OutPage(Blank, None)
  {
    out := pages;
    if align > 1 {
      while |out| % align != 0
        invariant |pages| <= |out| <= Pad(|pages|, align)
        invariant out[..|pages|] == pages
        invariant forall j | |pages| <= j < |out| :: out[j] == OutPage(Blank, None)
        decreases Pad(|pages|, align) - |out|
      {
        assert |out| != Pad(|pages|, align);
        out := out + [OutPage(Blank, None)];
      }
      assert Aligned(|out|, align);
    }
  }

  /** Everything the loop over the inputs keeps after the first `done` inputs. */
  predicate Joined(pages: seq<OutPage>, counter: nat, initial: nat, counts: seq<nat>,
                   firstPage: Option<int>, skipFirst: bool, align: int, done: nat)
    requires done <= |counts|
  {
    && Laid(pages, initial, counts, align, done)
    && (forall j | 0 <= j < |pages| ::
          pages[j].stamp == StampAfter(initial, counts, align, firstPage, skipFirst, done, j))
    && counter == (if firstPage.Some? && done > 0 then AppendEnd(initial, counts, align, done - 1)
                   else initial)
    && counter <= |pages|
  }

  /** One pass of the loop over the inputs: append input `done`, stamp from the counter on, pad. */
  method JoinInput(pages: seq<OutPage>, counter: nat, initial: nat, counts: seq<nat>,
                   firstPage: Option<int>, skipFirst: bool, align: int, done: nat)
    returns (out: seq<OutPage>, next: nat)
    requires done < |counts| && align >= 0
    requires Joined(pages, counter, initial, counts, firstPage, skipFirst, align, done)
    ensures Joined(out, next, initial, counts, firstPage, skipFirst, align, done + 1)
    ensures |pages| == StartOf(initial, counts, align, done)
    ensures |out| == StartOf(initial, counts, align, done + 1)
  {
    ghost var before := pages;
    var appended := pages + seq(counts[done], p requires 0 <= p => OutPage(FromInput(done, p), None));
    ghost var grown := appended;
    assert forall j | 0 <= j < |grown| ::
      grown[j].stamp == if j < |before| then before[j].stamp else None;
    assert forall j | 0 <= j < |grown| ::
      grown[j].content == if j < |before| then before[j].content else FromInput(done, j - |before|);
    var skip := done == 0 && skipFirst;
    next := counter;
    if firstPage.Some? {
      appended, next := StampPages(appended, counter, firstPage.value, skip);
    }
    forall j | 0 <= j < |appended|
      ensures appended[j].stamp == StampOnAppend(before, firstPage, counter, skip, j)
    {
    }
    out := PadPages(appended, align);
    LaidStep(before, appended, out, initial, counts, align, done);
    StampStep(before, appended, out, initial, counts, align, firstPage, skipFirst, done, counter);
    assert |appended| == AppendEnd(initial, counts, align, done);
    assert next == if firstPage.Some? then |appended| else initial;
  }

  /** One pass of the loop over the inputs, with its report entry: the input's range is put
    * under its name. */
  method JoinNext(pages: seq<OutPage>, counter: nat, report: Linked, names: seq<string>, initial: nat,
                  counts: seq<nat>, firstPage: Option<int>, skipFirst: bool, align: int, done: nat)
    returns (out: seq<OutPage>, next: nat, nextReport: Linked)
    requires done < |names| == |counts| && align >= 0
    requires Joined(pages, counter, initial, counts, firstPage, skipFirst, align, done)
    requires Reported(report, names, initial, counts, align, done)
    ensures Joined(out, next, initial, counts, firstPage, skipFirst, align, done + 1)
    ensures Reported(nextReport, names, initial, counts, align, done + 1)
  {
    var start := |pages|;
    out, next := JoinInput(pages, counter, initial, counts, firstPage, skipFirst, align, done);
    var range := Range(start, |out| - start);
    assert range == RangeOf(initial, counts, align, done);
    ReportedStep(report, names, initial, counts, align, done);
    nextReport := Put(report, names[done], range);
  }

  lemma JoinedAtStart(initial: nat, names: seq<string>, counts: seq<nat>, firstPage: Option<int>,
                      skipFirst: bool, align: int)
    requires |names| == |counts|
    ensures Joined(seq(initial, j requires 0 <= j => OutPage(Existing(j), None)), initial,
                   initial, counts, firstPage, skipFirst, align, 0)
    ensures Reported(Linked([], map[]), names, initial, counts, align, 0)
  {
  }

  /** execute: the inputs (names and page counts) appended in order after `initial` existing
    * pages, stamped, padded, and reported. */
  method Join(initial: nat, names: seq<string>, counts: seq<nat>, firstPage: Option<int>,
              skipFirst: bool, align: int)
    returns (pages: seq<OutPage>, report: Linked)
    requires |names| == |counts| && align >= 0
    ensures Laid(pages, initial, counts, align, |counts|)
    ensures forall j | 0 <= j < |pages| ::
      pages[j].stamp == StampAfter(initial, counts, align, firstPage, skipFirst, |counts|, j)
    ensures Reported(report, names, initial, counts, align, |names|)
  {
    pages := seq(initial, j requires 0 <= j => OutPage(Existing(j), None));
    report := Linked([], map[]);
    var counter := initial;
    var done := 0;
    JoinedAtStart(initial, names, counts, firstPage, skipFirst, align);
    while done < |counts|
      invariant 0 <= done <= |counts|
      invariant Joined(pages, counter, initial, counts, firstPage, skipFirst, align, done)
      invariant Reported(report, names, initial, counts, align, done)
    {
      pages, counter, report := JoinNext(pages, counter, report, names, initial, counts, firstPage,
                                         skipFirst, align, done);
      done := done + 1;
    }
  }

  /** A page's stamp after the append and the stamping loop of one input. */
  function StampOnAppend(before: seq<OutPage>, firstPage: Option<int>, counter: int, skip: bool,
                         j: int): Option<int>
  {
    if firstPage.Some? && counter <= j && !skip then Some(Wrap32(firstPage.value + j))
    else if 0 <= j < |before| then before[j].stamp else None
  }

  lemma InputsStep(before: seq<OutPage>, appended: seq<OutPage>, after: seq<OutPage>,
                   initial: nat, counts: seq<nat>, align: int, done: nat)
    requires done < |counts|
    requires |before| == StartOf(initial, counts, align, done)
    requires InputsLaid(before, initial, counts, align, done)
    requires |appended| == |before| + counts[done]
    requires forall j | 0 <= j < |appended| ::
      appended[j].content == if j < |before| then before[j].content else FromInput(done, j - |before|)
    requires |appended| <= |after| && after[..|appended|] == appended
    ensures InputsLaid(after, initial, counts, align, done + 1)
  {
    forall k, j | 0 <= k < done + 1 && StartOf(initial, counts, align, k) <= j < AppendEnd(initial, counts, align, k) && j < |after|
      ensures after[j].content == FromInput(k, j - StartOf(initial, counts, align, k))
    {
      if k < done {
        StartOfMonotone(initial, counts, align, k, done);
      }
      assert after[j] == after[..|appended|][j];
    }
  }

  lemma PaddingStep(before: seq<OutPage>, appended: seq<OutPage>, after: seq<OutPage>,
                    initial: nat, counts: seq<nat>, align: int, done: nat)
    requires done < |counts|
    requires |before| == StartOf(initial, counts, align, done)
    requires PaddingLaid(before, initial, counts, align, done)
    requires |appended| == |before| + counts[done]
    requires forall j | 0 <= j < |before| :: appended[j].content == before[j].content
    requires |appended| <= |after| && after[..|appended|] == appended
    requires forall j | |appended| <= j < |after| :: after[j] == OutPage(Blank, None)
    ensures PaddingLaid(after, initial, counts, align, done + 1)
  {
    forall k, j | 0 <= k < done + 1 && AppendEnd(initial, counts, align, k) <= j < StartOf(initial, counts, align, k + 1) && j < |after|
      ensures after[j].content == Blank
    {
      if k < done {
        StartOfMonotone(initial, counts, align, k + 1, done);
        assert after[j] == after[..|appended|][j];
      }
    }
  }

  lemma LaidStep(before: seq<OutPage>, appended: seq<OutPage>, after: seq<OutPage>,
                 initial: nat, counts: seq<nat>, align: int, done: nat)
    requires done < |counts|
    requires Laid(before, initial, counts, align, done)
    requires |appended| == |before| + counts[done]
    requires forall j | 0 <= j < |appended| ::
      appended[j].content == if j < |before| then before[j].content else FromInput(done, j - |before|)
    requires |after| == Pad(|appended|, align) && after[..|appended|] == appended
    requires forall j | |appended| <= j < |after| :: after[j] == OutPage(Blank, None)
    ensures Laid(after, initial, counts, align, done + 1)
  {
    InputsStep(before, appended, after, initial, counts, align, done);
    PaddingStep(before, appended, after, initial, counts, align, done);
    StartOfMonotone(initial, counts, align, 0, done);
    forall j | 0 <= j < initial && j < |after|
      ensures after[j].content == Existing(j)
    {
      assert after[j] == after[..|appended|][j];
    }
  }

  lemma StampStep(before: seq<OutPage>, appended: seq<OutPage>, after: seq<OutPage>,
                  initial: nat, counts: seq<nat>, align: int, firstPage: Option<int>,
                  skipFirst: bool, done: nat, counter: nat)
    requires done < |counts|
    requires |before| == StartOf(initial, counts, align, done)
    requires forall j | 0 <= j < |before| ::
      before[j].stamp == StampAfter(initial, counts, align, firstPage, skipFirst, done, j)
    requires |appended| == |before| + counts[done]
    requires counter == if firstPage.Some? && done > 0
      then AppendEnd(initial, counts, align, done - 1) else initial
    requires counter <= |before|
    requires forall j | 0 <= j < |appended| ::
      appended[j].stamp == StampOnAppend(before, firstPage, counter, done == 0 && skipFirst, j)
    requires |appended| <= |after| && after[..|appended|] == appended
    requires forall j | |appended| <= j < |after| :: after[j] == OutPage(Blank, None)
    ensures forall j | 0 <= j < |after| ::
      after[j].stamp == StampAfter(initial, counts, align, firstPage, skipFirst, done + 1, j)
  {
    forall j | 0 <= j < |after|
      ensures after[j].stamp == StampAfter(initial, counts, align, firstPage, skipFirst, done + 1, j)
    {
      if j < |appended| {
        assert after[j] == after[..|appended|][j];
        StampAgrees(initial, counts, align, firstPage, skipFirst, done, counter,
                    if j < |before| then before[j].stamp else None, |before|, j);
      }
    }
  }

  /** One page's stamp after input `done` is what StampAfter gives for done + 1. */
  lemma StampAgrees(initial: nat, counts: seq<nat>, align: int, firstPage: Option<int>,
                    skipFirst: bool, done: nat, counter: nat, oldStamp: Option<int>,
                    beforeLen: nat, j: int)
    requires done < |counts| && 0 <= j < AppendEnd(initial, counts, align, done)
    requires beforeLen == StartOf(initial, counts, align, done)
    requires counter == if firstPage.Some? && done > 0
      then AppendEnd(initial, counts, align, done - 1) else initial
    requires j < beforeLen ==> oldStamp == StampAfter(initial, counts, align, firstPage, skipFirst, done, j)
    requires beforeLen <= j ==> oldStamp == None
    ensures (if firstPage.Some? && counter <= j && !(done == 0 && skipFirst) then Some(Wrap32(firstPage.value + j))
             else oldStamp)
      == StampAfter(initial, counts, align, firstPage, skipFirst, done + 1, j)
  {
    if done > 0 {
      StartOfMonotone(initial, counts, align, 0, done - 1);
      assert AppendEnd(initial, counts, align, 0) <= AppendEnd(initial, counts, align, done - 1);
      StartOfMonotone(initial, counts, align, done - 1, done);
    }
  }

  /** --skip-first: the first input's own pages carry no stamp, and the second input's first
    * page still shows firstPage plus its index, as if the first input had been counted. */
  lemma SkipFirstStillCounts(initial: nat, counts: seq<nat>, align: int, firstPage: int, j: int)
    requires |counts| > 1 && counts[1] > 0
    ensures initial <= j < initial + counts[0]
      ==> StampAfter(initial, counts, align, Some(firstPage), true, |counts|, j) == None
    ensures var second := StartOf(initial, counts, align, 1);
      StampAfter(initial, counts, align, Some(firstPage), true, |counts|, second)
        == Some(Wrap32(firstPage + second))
  {
    StartOfMonotone(initial, counts, align, 1, |counts| - 1);
  }

  /** The padding after the last input is never stamped. */
  lemma LastPaddingUnstamped(initial: nat, counts: seq<nat>, align: int, firstPage: Option<int>,
                             skipFirst: bool, j: int)
    requires |counts| > 0
    requires AppendEnd(initial, counts, align, |counts| - 1) <= j
    ensures StampAfter(initial, counts, align, firstPage, skipFirst, |counts|, j) == None
  {
  }

  /** The padding after any input but the last is stamped, because the next input's loop reaches
    * it; this holds for the first input's padding under --skip-first too. */
  lemma EarlierPaddingStamped(initial: nat, counts: seq<nat>, align: int, firstPage: int,
                              skipFirst: bool, k: nat, j: int)
    requires k + 1 < |counts|
    requires AppendEnd(initial, counts, align, k) <= j < StartOf(initial, counts, align, k + 1)
    ensures StampAfter(initial, counts, align, Some(firstPage), skipFirst, |counts|, j)
      == Some(Wrap32(firstPage + j))
  {
    StartOfMonotone(initial, counts, align, 0, k);
    assert AppendEnd(initial, counts, align, 0) <= AppendEnd(initial, counts, align, k);
    StartOfMonotone(initial, counts, align, k + 1, |counts| - 1);
    assert j < AppendEnd(initial, counts, align, |counts| - 1);
    assert StampedAfter(initial, counts, align, skipFirst, |counts|, j);
  }
}
