/** command/AddPageNumbersCommand: the inputs' pages are numbered with a running counter and
  * joined into one output. -p and -f restrict the stamping to the listed counter values and
  * file numbers; landscape pages are turned upright. Loading and saving the files and rendering
  * the number are not part of this model: a page is its rotation and its media box size. */
module AddPageNumbersModel {
  import opened Wrappers
  import opened JavaText

  const NO_SOURCES_MESSAGE: string := "Need one or more parameters as source files"

  // ---------------------------------------------------------------------------------------------
  // -p and -f

  /** IntStream.rangeClosed: the numbers from low to high, none when low > high. */
  function Interval(low: int, high: int): (r: set<int>)
    ensures forall x :: x in r <==> low <= x <= high
    decreases high - low
  {
    if low > high then {} else {low} + Interval(low + 1, high)
  }

  /** One comma-separated item of -p or -f: an inclusive range "a-b" (split at the first '-'),
    * or a single number. A range with a > b contains nothing. */
  function ParseMarkItem(s: string): (r: Result<set<int>>)
    ensures '-' !in s ==> (r.Ok? <==> ParseInt(s).Ok?)
    ensures '-' !in s && r.Ok? ==> r.value == {ParseInt(s).value}
    ensures '-' in s ==> var range := SplitOnce(s, '-');
      r.Ok? <==> ParseInt(range[0]).Ok? && ParseInt(range[1]).Ok?
    ensures '-' in s && r.Ok? ==> var range := SplitOnce(s, '-');
      forall x :: x in r.value <==> ParseInt(range[0]).value <= x <= ParseInt(range[1]).value
  {
    if '-' in s then
      var range := SplitOnce(s, '-');
      var low :- ParseInt(range[0]);
      var high :- ParseInt(range[1]);
      Ok(Interval(low, high))
    else
      var v :- ParseInt(s);
      Ok({v})
  }

  /** A negative number cannot be given: an item starting with '-' has an empty lower bound,
    * which does not parse. */
  lemma LeadingDashFails(s: string)
    requires |s| > 0 && s[0] == '-'
    ensures ParseMarkItem(s).Err?
  {
    assert s[0] in s;
    assert SplitOnce(s, '-')[0] == [];
  }

  /** "a-b" with a > b adds nothing. */
  lemma DescendingRangeIsEmpty(a: nat, b: nat)
    requires b < a <= INT_MAX
    ensures ParseMarkItem(NatToString(a) + "-" + NatToString(b)) == Ok({})
  {
    var x := NatToString(a);
    var y := NatToString(b);
    var s := x + "-" + y;
    assert '-' !in x by {
      assert AllAsciiDigits(x);
    }
    IndexOfAfter(x, '-', y);
    assert s[..|x|] == x && s[|x| + 1..] == y;
    assert SplitOnce(s, '-') == [x, y];
    ParseIntOfIntToString(a);
    ParseIntOfIntToString(b);
  }

  /** Some item lists x. */
  predicate ListedBy(items: seq<string>, x: int) {
    exists k | 0 <= k < |items| :: ParseMarkItem(items[k]).Ok? && x in ParseMarkItem(items[k]).value
  }

  /** The items in order: the first that does not parse is the error, otherwise their union. */
  function ParseMarkItems(items: seq<string>): (r: Result<set<int>>)
    ensures r.Ok? <==> forall k | 0 <= k < |items| :: ParseMarkItem(items[k]).Ok?
  {
    if |items| == 0 then Ok({})
    else
      var first :- ParseMarkItem(items[0]);
      var rest :- ParseMarkItems(items[1..]);
      assert forall k | 1 <= k < |items| :: items[k] == items[1..][k - 1];
      Ok(first + rest)
  }

  /** The parsed set holds exactly the numbers some item lists. */
  lemma {:induction false} ParseMarkItemsUnion(items: seq<string>, x: int)
    requires ParseMarkItems(items).Ok?
    ensures x in ParseMarkItems(items).value <==> ListedBy(items, x)
  {
    if |items| > 0 {
      var tail := items[1..];
      ParseMarkItemsUnion(tail, x);
      if ListedBy(tail, x) {
        var k :| 0 <= k < |tail| && ParseMarkItem(tail[k]).Ok? && x in ParseMarkItem(tail[k]).value;
        assert items[k + 1] == tail[k];
      }
      if ListedBy(items, x) {
        var k :| 0 <= k < |items| && ParseMarkItem(items[k]).Ok? && x in ParseMarkItem(items[k]).value;
        if k > 0 {
          assert tail[k - 1] == items[k];
        }
      }
    }
  }

  /** -p / -f: the argument split at ',' with Java's split (trailing empty items are dropped). */
  function ParseMarks(text: string): Result<set<int>> {
    ParseMarkItems(Split(text, ','))
  }

  /** The options' validation: inputs first (parseNonOptions), then the output. */
  function ValidateAddPageNumbers(output: Option<string>, inputs: seq<string>): (r: Validation)
    ensures r == Continue <==> output.Some? && |inputs| > 0
    ensures |inputs| == 0 ==> r == Usage(NO_SOURCES_MESSAGE)
    ensures |inputs| > 0 && output.None? ==> r == Usage("-o output option is mandatory")
  {
    if |inputs| == 0 then Usage(NO_SOURCES_MESSAGE)
    else if output.None? then Usage("-o output option is mandatory")
    else Continue
  }

  const DEFAULT_FIRST_NUMBER: int := 1

  // ---------------------------------------------------------------------------------------------
  // Pages

  /** An input page: its rotation in degrees and its media box size. */
  datatype InPage = InPage(rotation: int, width: real, height: real)

  /** An input page with the 1-based number of its file and its index in the file. */
  datatype Placed = Placed(file: int, index: nat, page: InPage)

  /** An output page: where it comes from, its rotation after the upright rule, and the number
    * stamped on it, if any. */
  datatype OutPage = OutPage(file: int, index: nat, rotation: int, stamp: Option<int>)

  /** The filters: the counter values of -p and the file numbers of -f. */
  datatype Marks = Marks(pages: set<int>, files: set<int>)

  /** A page of a portrait rotation (0 or 180) that is wider than tall is turned by 90 degrees. */
  function Upright(p: InPage): (rotation: int)
    ensures (p.rotation == 0 || p.rotation == 180) && p.width > p.height ==> rotation == p.rotation + 90
    ensures !((p.rotation == 0 || p.rotation == 180) && p.width > p.height) ==> rotation == p.rotation
  {
    if (p.rotation == 0 || p.rotation == 180) && p.width > p.height then p.rotation + 90 else p.rotation
  }

  /** The stamping rule: no filter at all, or the page's file is listed by -f, or the current
    * counter is listed by -p. */
  predicate Marked(marks: Marks, file: int, counter: int) {
    (|marks.files| == 0 && |marks.pages| == 0) || file in marks.files || counter in marks.pages
  }

  /** The pages of input f (0-based), with the file number f + 1. */
  function PlacedFile(f: nat, pages: seq<InPage>): (r: seq<Placed>)
    ensures |r| == |pages|
    ensures forall i | 0 <= i < |pages| :: r[i] == Placed(f + 1, i, pages[i])
  {
    seq(|pages|, i requires 0 <= i < |pages| => Placed(f + 1, i, pages[i]))
  }

  /** All pages of all inputs, in input order. */
  function Flat(inputs: seq<seq<InPage>>): (r: seq<Placed>)
    ensures forall k | 0 <= k < |r| ::
      && 1 <= r[k].file <= |inputs|
      && r[k].index < |inputs[r[k].file - 1]|
      && r[k].page == inputs[r[k].file - 1][r[k].index]
  {
    if |inputs| == 0 then []
    else Flat(inputs[..|inputs| - 1]) + PlacedFile(|inputs| - 1, inputs[|inputs| - 1])
  }

  /** The counter after numbering `placed` from `counter` on. */
  function CounterAfter(placed: seq<Placed>, counter: int, marks: Marks): int {
    if |placed| == 0 then counter
    else
      var before := CounterAfter(placed[..|placed| - 1], counter, marks);
      if Marked(marks, placed[|placed| - 1].file, before) then before + 2 else before + 1
  }

  /** The pages numbered from `counter` on. */
  function Numbered(placed: seq<Placed>, counter: int, marks: Marks): (r: seq<OutPage>)
    ensures |r| == |placed|
  {
    if |placed| == 0 then []
    else
      var before := CounterAfter(placed[..|placed| - 1], counter, marks);
      var p := placed[|placed| - 1];
      Numbered(placed[..|placed| - 1], counter, marks)
        + [OutPage(p.file, p.index, Upright(p.page),
                   if Marked(marks, p.file, before) then Some(before) else None)]
  }

  /** Page k of the output: it is page k of the inputs, turned upright, and stamped exactly when
    * the rule holds for the counter reached after the pages before it; the stamp shows that
    * counter. */
  lemma {:induction false} NumberedPage(placed: seq<Placed>, counter: int, marks: Marks, k: nat)
    requires k < |placed|
    ensures var r := Numbered(placed, counter, marks);
      var before := CounterAfter(placed[..k], counter, marks);
      && r[k].file == placed[k].file && r[k].index == placed[k].index
      && r[k].rotation == Upright(placed[k].page)
      && (r[k].stamp.Some? <==> Marked(marks, placed[k].file, before))
      && (r[k].stamp.Some? ==> r[k].stamp.value == before)
    decreases |placed|
  {
    var init := placed[..|placed| - 1];
    if k < |placed| - 1 {
      NumberedPage(init, counter, marks, k);
      assert init[..k] == placed[..k];
    } else {
      assert placed[..k] == init;
    }
  }

  /** The counter grows by one per page and by one more per stamped page. */
  lemma {:induction false} CounterCounts(placed: seq<Placed>, counter: int, marks: Marks)
    ensures CounterAfter(placed, counter, marks)
      == counter + |placed| + StampedCount(Numbered(placed, counter, marks))
    decreases |placed|
  {
    if |placed| > 0 {
      var init := placed[..|placed| - 1];
      CounterCounts(init, counter, marks);
      var r := Numbered(placed, counter, marks);
      assert r[..|r| - 1] == Numbered(init, counter, marks);
    }
  }

  function StampedCount(pages: seq<OutPage>): nat {
    if |pages| == 0 then 0
    else StampedCount(pages[..|pages| - 1]) + if pages[|pages| - 1].stamp.Some? then 1 else 0
  }

  /** Without -p and -f every page is stamped, and page i shows the first number plus 2i. */
  lemma {:induction false} UnfilteredNumbers(placed: seq<Placed>, counter: int, k: nat)
    requires k < |placed|
    ensures Numbered(placed, counter, Marks({}, {}))[k].stamp == Some(counter + 2 * k)
  {
    NumberedPage(placed, counter, Marks({}, {}), k);
    UnfilteredCounter(placed[..k], counter);
  }

  lemma {:induction false} UnfilteredCounter(placed: seq<Placed>, counter: int)
    ensures CounterAfter(placed, counter, Marks({}, {})) == counter + 2 * |placed|
    decreases |placed|
  {
    if |placed| > 0 {
      UnfilteredCounter(placed[..|placed| - 1], counter);
    }
  }

  lemma NumberedAppend(placed: seq<Placed>, p: Placed, counter: int, marks: Marks)
    ensures var before := CounterAfter(placed, counter, marks);
      && Numbered(placed + [p], counter, marks)
        == Numbered(placed, counter, marks)
           + [OutPage(p.file, p.index, Upright(p.page),
                      if Marked(marks, p.file, before) then Some(before) else None)]
      && CounterAfter(placed + [p], counter, marks)
        == if Marked(marks, p.file, before) then before + 2 else before + 1
  {
    assert (placed + [p])[..|placed|] == placed;
  }

  // ---------------------------------------------------------------------------------------------
  // execute

  /** One page of the loop: it is turned upright and stamped by the rule, and the counter
    * advances by two after a stamp and by one otherwise. */
  method NumberPage(page: InPage, fileCounter: int, index: nat, ghost placed: seq<Placed>, counter: int,
                    firstNumber: int, marks: Marks)
    returns (outPage: OutPage, next: int)
    requires counter == CounterAfter(placed, firstNumber, marks)
    ensures Numbered(placed + [Placed(fileCounter, index, page)], firstNumber, marks)
      == Numbered(placed, firstNumber, marks) + [outPage]
    ensures next == CounterAfter(placed + [Placed(fileCounter, index, page)], firstNumber, marks)
  {
    var rotation := page.rotation;
    if (page.rotation == 0 || page.rotation == 180) && page.width > page.height {
      rotation := page.rotation + 90;
    }
    var stamp := None;
    next := counter;
    if (|marks.files| == 0 && |marks.pages| == 0) || fileCounter in marks.files || next in marks.pages {
      stamp := Some(next);
      next := next + 1;
    }
    next := next + 1;
    outPage := OutPage(fileCounter, index, rotation, stamp);
    NumberedAppend(placed, Placed(fileCounter, index, page), firstNumber, marks);
  }

  /** The loop over one input's pages, numbering them in order. */
  method NumberInput(pages: seq<InPage>, f: nat, done: seq<Placed>, counter: int, firstNumber: int,
                     marks: Marks)
    returns (processed: seq<OutPage>, next: int)
    requires counter == CounterAfter(done, firstNumber, marks)
    ensures Numbered(done, firstNumber, marks) + processed
      == Numbered(done + PlacedFile(f, pages), firstNumber, marks)
    ensures next == CounterAfter(done + PlacedFile(f, pages), firstNumber, marks)
  {
    var fileCounter := f + 1;
    processed := [];
    next := counter;
    var i := 0;
    ghost var numbered := Numbered(done, firstNumber, marks);
    ghost var placed := done;
    assert done + PlacedFile(f, pages[..0]) == done;
    while i < |pages|
      invariant 0 <= i <= |pages|
      invariant placed == done + PlacedFile(f, pages[..i])
      invariant numbered + processed == Numbered(placed, firstNumber, marks)
      invariant next == CounterAfter(placed, firstNumber, marks)
    {
      var outPage;
      outPage, next := NumberPage(pages[i], fileCounter, i, placed, next, firstNumber, marks);
      assert numbered + (processed + [outPage]) == (numbered + processed) + [outPage];
      processed := processed + [outPage];
      assert PlacedFile(f, pages[..i + 1]) == PlacedFile(f, pages[..i]) + [Placed(f + 1, i, pages[i])];
      placed := placed + [Placed(fileCounter, i, pages[i])];
      i := i + 1;
    }
    assert pages[..i] == pages;
  }

  /** execute: for each input, in order, its pages are numbered and the input is then appended
    * to the output. */
  method AddPageNumbers(inputs: seq<seq<InPage>>, firstNumber: int, marks: Marks)
    returns (out: seq<OutPage>, counter: int)
    ensures out == Numbered(Flat(inputs), firstNumber, marks)
    ensures counter == CounterAfter(Flat(inputs), firstNumber, marks)
  {
    out := [];
    counter := firstNumber;
    var f := 0;
    while f < |inputs|
      invariant 0 <= f <= |inputs|
      invariant out == Numbered(Flat(inputs[..f]), firstNumber, marks)
      invariant counter == CounterAfter(Flat(inputs[..f]), firstNumber, marks)
    {
      var processed;
      processed, counter := NumberInput(inputs[f], f, Flat(inputs[..f]), counter, firstNumber, marks);
      out := out + processed;
      assert inputs[..f + 1][..f] == inputs[..f];
      f := f + 1;
    }
    assert inputs[..f] == inputs;
  }
}
