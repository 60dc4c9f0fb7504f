/** command/PdfSplitCommand: the inputs are concatenated into one page sequence, which is cut
  * into consecutive parts, each saved as its own numbered file. A part's end is found by a
  * search between a low and a high end: a part whose saved size exceeds the limit is shrunk by
  * the pairing step, a part that fits is grown towards the high end. The size of a saved part
  * is a parameter here: `sizeOf(start, end)` is the byte count of the document holding pages
  * [start, end). */
module PdfSplitModel {
  import opened Wrappers
  import opened JavaText
  import SizeFormat
  import FileNames

  /** The pages [from, to) of the concatenated inputs, saved as one output file. */
  datatype Part = Part(from: int, to: int)

  /** The resolved options of one run. */
  datatype Settings = Settings(maxSize: int, maxPages: int, pairing: int)

  const DEFAULT_PAIRING: int := 2

  function Min(a: int, b: int): int {
    if a <= b then a else b
  }

  // ---------------------------------------------------------------------------------------------
  // Options

  /** The options as given: -s as text, -p and -g as text, and the output. */
  datatype SplitArgs = SplitArgs(maxSize: Option<string>, maxPages: Option<string>,
                                 pairing: Option<string>, output: Option<string>,
                                 inputs: seq<string>)

  /** Option parsing and validation: -s through the size format, -p and -g as Java ints, at least
    * one input and an output; unset options take the defaults pairing 2, no size limit
    * (Long.MAX_VALUE) and no page limit (Integer.MAX_VALUE). A usage message is an Ok(Usage). */
  function ResolveSettings(args: SplitArgs): (r: Result<Validation>)
    ensures r.Ok? && r.value.Usage? ==> |args.inputs| == 0 || args.output.None?
    ensures r.Ok? && r.value.Usage? && |args.inputs| == 0
      ==> r.value.message == "Need one or more parameters as source files"
    ensures r.Ok? && r.value.Usage? && |args.inputs| > 0
      ==> r.value.message == "-o output option is mandatory"
    ensures (args.maxSize.Some? && SizeFormat.ParseSize(args.maxSize.value).Err?)
      || (args.maxPages.Some? && ParseInt(args.maxPages.value).Err?)
      || (args.pairing.Some? && ParseInt(args.pairing.value).Err?)
      <==> r.Err?
  {
    var _ :- if args.maxSize.Some? then SizeFormat.ParseSize(args.maxSize.value) else Ok(0);
    var _ :- if args.maxPages.Some? then ParseInt(args.maxPages.value) else Ok(0);
    var _ :- if args.pairing.Some? then ParseInt(args.pairing.value) else Ok(0);
    if |args.inputs| == 0 then Ok(Usage("Need one or more parameters as source files"))
    else if args.output.None? then Ok(Usage("-o output option is mandatory"))
    else Ok(Continue)
  }

  /** The settings of a run whose options parsed. */
  function SettingsOf(args: SplitArgs): (s: Settings)
    requires ResolveSettings(args).Ok?
    ensures args.maxSize.None? ==> s.maxSize == LONG_MAX
    ensures args.maxPages.None? ==> s.maxPages == INT_MAX
    ensures args.pairing.None? ==> s.pairing == DEFAULT_PAIRING
    ensures args.maxPages.Some? ==> Ok(s.maxPages) == ParseInt(args.maxPages.value)
    ensures args.pairing.Some? ==> Ok(s.pairing) == ParseInt(args.pairing.value)
    ensures args.maxSize.Some? ==> Ok(s.maxSize) == SizeFormat.ParseSize(args.maxSize.value)
  {
    Settings(
      if args.maxSize.Some? then SizeFormat.ParseSize(args.maxSize.value).value else LONG_MAX,
      if args.maxPages.Some? then ParseInt(args.maxPages.value).value else INT_MAX,
      if args.pairing.Some? then ParseInt(args.pairing.value).value else DEFAULT_PAIRING)
  }

  // ---------------------------------------------------------------------------------------------
  // The offset map

  /** The offset of input i in the concatenation: the page counts of the inputs before it. */
  function Offset(counts: seq<nat>, i: nat): nat
    requires i <= |counts|
  {
    if i == 0 then 0 else Offset(counts, i - 1) + counts[i - 1]
  }

  lemma {:induction false} OffsetMonotone(counts: seq<nat>, i: nat, j: nat)
    requires i <= j <= |counts|
    ensures Offset(counts, i) <= Offset(counts, j)
    ensures i < j ==> Offset(counts, i + 1) <= Offset(counts, j)
    decreases j - i
  {
    if i < j {
      OffsetMonotone(counts, i + 1, j);
    }
  }

  /** The pages of the inputs before i and input i's own pages are disjoint, consecutive ranges:
    * input i holds exactly the pages [Offset(i), Offset(i + 1)). */
  lemma OffsetRanges(counts: seq<nat>, i: nat, p: int)
    requires i < |counts|
    ensures Offset(counts, i) <= p < Offset(counts, i + 1)
      <==> Offset(counts, i) <= p < Offset(counts, i) + counts[i]
  {
  }

  /** The inputs' offsets, in input order. */
  function Starts(counts: seq<nat>): (r: seq<int>)
    ensures |r| == |counts| && forall j | 0 <= j < |counts| :: r[j] == Offset(counts, j)
  {
    seq(|counts|, j requires 0 <= j < |counts| => Offset(counts, j))
  }

  /** Every key of the map is the start stored under it, and no later one among the first
    * `upTo` has that start: the last put under a key is the one kept. */
  predicate KeyedBy(starts: seq<int>, pageToFile: map<int, nat>, upTo: nat)
    requires upTo <= |starts|
  {
    forall k | k in pageToFile ::
      && pageToFile[k] < upTo
      && starts[pageToFile[k]] == k
      && forall j | pageToFile[k] < j < upTo :: starts[j] != k
  }

  /** Every key of the map is the offset of the input stored under it, and no later input among
    * the first `upTo` starts at that offset: the last input put under a key is the one kept. */
  predicate KeyedByOffset(counts: seq<nat>, pageToFile: map<int, nat>, upTo: nat)
    requires upTo <= |counts|
  {
    KeyedBy(Starts(counts), pageToFile, upTo)
  }

  /** Each of the first `upTo` inputs has its offset among the keys. */
  predicate OffsetsPresent(counts: seq<nat>, pageToFile: map<int, nat>, upTo: nat)
    requires upTo <= |counts|
  {
    forall m | 0 <= m < upTo :: Offset(counts, m) in pageToFile
  }

  lemma KeyedStep(starts: seq<int>, pageToFile: map<int, nat>, i: nat)
    requires i < |starts| && KeyedBy(starts, pageToFile, i)
    ensures KeyedBy(starts, pageToFile[starts[i] := i], i + 1)
  {
    var key := starts[i];
    var next := pageToFile[key := i];
    forall k | k in next
      ensures next[k] < i + 1 && starts[next[k]] == k
      ensures forall j | next[k] < j < i + 1 :: starts[j] != k
    {
      if k == key {
        assert next[k] == i;
      } else {
        var m := pageToFile[k];
        assert next[k] == m && m < i && starts[m] == k;
        forall j | m < j < i + 1
          ensures starts[j] != k
        {
          if j < i {
            assert m < j < i;
          }
        }
      }
    }
  }

  /** The loop at the head of execute: each input is put into the map under the running page
    * total, which then grows by the input's page count. A later input put under the same key
    * (after an input without pages) replaces the earlier one. */
  method BuildPageMap(counts: seq<nat>) returns (pageToFile: map<int, nat>, total: nat)
    ensures total == Offset(counts, |counts|)
    ensures OffsetsPresent(counts, pageToFile, |counts|)
    ensures KeyedByOffset(counts, pageToFile, |counts|)
  {
    pageToFile := map[];
    total := 0;
    var i := 0;
    while i < |counts|
      invariant 0 <= i <= |counts|
      invariant total == Offset(counts, i)
      invariant OffsetsPresent(counts, pageToFile, i)
      invariant KeyedByOffset(counts, pageToFile, i)
    {
      assert Starts(counts)[i] == total;
      KeyedStep(Starts(counts), pageToFile, i);
      pageToFile := pageToFile[total := i];
      total := total + counts[i];
      i := i + 1;
    }
  }

  /** What the map means: every input with at least one page is found under its own offset, so
    * the floor lookup of a page finds the input holding it. */
  lemma PageMapFindsInput(counts: seq<nat>, pageToFile: map<int, nat>, i: nat)
    requires i < |counts| && counts[i] > 0
    requires OffsetsPresent(counts, pageToFile, |counts|)
    requires KeyedByOffset(counts, pageToFile, |counts|)
    ensures pageToFile[Offset(counts, i)] == i
  {
    var m := pageToFile[Offset(counts, i)];
    if m > i {
      OffsetMonotone(counts, i, m);
    }
  }

  // ---------------------------------------------------------------------------------------------
  // The search for one part's end

  /** The search's window: the part starts at `start`, its end lies in (start, total], and both
    * the low and the high end stay above the start. */
  predicate Window(start: int, low: int, high: int, total: int) {
    0 <= start < low <= total && start < high <= total
  }

  /** The first low end: one pairing group past the start, or the total. */
  function LowEnd(start: int, pairing: int, total: int): int {
    Min(start + pairing, total)
  }

  /** The first high end: maxPages past the start, or the total; when the int sum wraps to a
    * negative value, Integer.MAX_VALUE stands in for it. */
  function HighEnd(start: int, maxPages: int, total: int): int {
    var reach := Wrap32(start + maxPages);
    Min(if reach >= 0 then reach else INT_MAX, total)
  }

  /** The probe: the window's midpoint rounded down to a multiple of the pairing, or the high end
    * when that is not above the low end. */
  function Middle(low: int, high: int, pairing: int): (m: int)
    requires pairing >= 1 && 0 <= low && 0 <= high
    ensures m == high || low < m <= high
  {
    var probe := ((low + high) / 2) / pairing * pairing;
    if probe <= low then high else probe
  }

  /** The end the search settles on for a part starting at `start`, from the window (low, high). */
  function PartEnd(sizeOf: (int, int) -> int, maxSize: int, pairing: int, total: int,
                   start: int, low: int, high: int): (r: int)
    requires pairing >= 1 && Window(start, low, high, total)
    decreases high + (total - low)
  {
    var middle := Middle(low, high, pairing);
    if sizeOf(start, middle) > maxSize && middle - pairing > start then
      PartEnd(sizeOf, maxSize, pairing, total, start, low, middle - pairing)
    else if middle < high && middle > low then
      PartEnd(sizeOf, maxSize, pairing, total, start, middle, high)
    else
      middle
  }

  /** The part found is non-empty, within the high end, and over the size limit only when it
    * cannot shrink by another pairing group. */
  lemma {:induction false} PartEndBounds(sizeOf: (int, int) -> int, maxSize: int, pairing: int,
                                         total: int, start: int, low: int, high: int)
    requires pairing >= 1 && Window(start, low, high, total)
    ensures var r := PartEnd(sizeOf, maxSize, pairing, total, start, low, high);
      && start < r <= high
      && (sizeOf(start, r) <= maxSize || r - pairing <= start)
    decreases high + (total - low)
  {
    var middle := Middle(low, high, pairing);
    if sizeOf(start, middle) > maxSize && middle - pairing > start {
      PartEndBounds(sizeOf, maxSize, pairing, total, start, low, middle - pairing);
    } else if middle < high && middle > low {
      PartEndBounds(sizeOf, maxSize, pairing, total, start, middle, high);
    }
  }

  /** When nothing is over the size limit, the search never shrinks the window and ends at the
    * high end. */
  lemma {:induction false} PartEndFits(sizeOf: (int, int) -> int, maxSize: int, pairing: int,
                                       total: int, start: int, low: int, high: int)
    requires pairing >= 1 && Window(start, low, high, total)
    requires forall a, b :: sizeOf(a, b) <= maxSize
    ensures PartEnd(sizeOf, maxSize, pairing, total, start, low, high) == high
    decreases high + (total - low)
  {
    var middle := Middle(low, high, pairing);
    assert sizeOf(start, middle) <= maxSize;
    if middle < high && middle > low {
      PartEndFits(sizeOf, maxSize, pairing, total, start, middle, high);
    }
  }

  /** A run's preconditions on the numbers: -p and -g positive, and the page arithmetic within
    * the range of a Java int (the sums start + pairing and low + high do not wrap). */
  predicate InRange(total: int, maxPages: int, pairing: int) {
    1 <= pairing && 1 <= maxPages <= INT_MAX && 0 <= total && 2 * total <= INT_MAX
      && total + pairing <= INT_MAX
  }

  lemma WindowAtStart(start: int, total: int, maxPages: int, pairing: int)
    requires InRange(total, maxPages, pairing) && 0 <= start < total
    ensures Window(start, LowEnd(start, pairing, total), HighEnd(start, maxPages, total), total)
    ensures HighEnd(start, maxPages, total) == Min(start + maxPages, total)
  {
    if start + maxPages > INT_MAX {
      assert Wrap32(start + maxPages) == start + maxPages - 0x1_0000_0000;
    }
  }

  /** The parts from `start` on, as the outer loop produces them. */
  function PartsFrom(sizeOf: (int, int) -> int, s: Settings, total: int, start: int): seq<Part>
    requires InRange(total, s.maxPages, s.pairing) && 0 <= start <= total
    decreases total - start
  {
    if start >= total then []
    else
      WindowAtStart(start, total, s.maxPages, s.pairing);
      var end := PartEnd(sizeOf, s.maxSize, s.pairing, total, start,
                         LowEnd(start, s.pairing, total), HighEnd(start, s.maxPages, total));
      PartEndBounds(sizeOf, s.maxSize, s.pairing, total, start,
                    LowEnd(start, s.pairing, total), HighEnd(start, s.maxPages, total));
      [Part(start, end)] + PartsFrom(sizeOf, s, total, end)
  }

  // ---------------------------------------------------------------------------------------------
  // Properties of the parts

  /** The parts cover [from, to) contiguously: each starts where the previous ended, none is
    * empty, and none has more than maxPages pages. */
  predicate Tiles(parts: seq<Part>, from: int, to: int, maxPages: int) {
    && (|parts| == 0 <==> from == to)
    && (|parts| > 0 ==> parts[0].from == from && parts[|parts| - 1].to == to)
    && (forall k | 0 <= k < |parts| - 1 :: parts[k].to == parts[k + 1].from)
    && (forall k | 0 <= k < |parts| :: parts[k].from < parts[k].to <= parts[k].from + maxPages)
  }

  /** Every part is within the size limit unless it could not shrink by one more pairing group. */
  predicate BestEffort(parts: seq<Part>, sizeOf: (int, int) -> int, maxSize: int, pairing: int) {
    forall k | 0 <= k < |parts| ::
      sizeOf(parts[k].from, parts[k].to) <= maxSize || parts[k].to - pairing <= parts[k].from
  }

  lemma {:induction false} PartsTile(sizeOf: (int, int) -> int, s: Settings, total: int, start: int)
    requires InRange(total, s.maxPages, s.pairing) && 0 <= start <= total
    ensures Tiles(PartsFrom(sizeOf, s, total, start), start, total, s.maxPages)
    ensures BestEffort(PartsFrom(sizeOf, s, total, start), sizeOf, s.maxSize, s.pairing)
    decreases total - start
  {
    if start < total {
      var low := LowEnd(start, s.pairing, total);
      var high := HighEnd(start, s.maxPages, total);
      WindowAtStart(start, total, s.maxPages, s.pairing);
      PartEndBounds(sizeOf, s.maxSize, s.pairing, total, start, low, high);
      var end := PartEnd(sizeOf, s.maxSize, s.pairing, total, start, low, high);
      PartsFromStep(sizeOf, s, total, start, end);
      var rest := PartsFrom(sizeOf, s, total, end);
      PartsTile(sizeOf, s, total, end);
      var parts := PartsFrom(sizeOf, s, total, start);
      assert forall k | 1 <= k < |parts| :: parts[k] == rest[k - 1];
    }
  }

  /** When no part is over the size limit, every part ends maxPages past its start, or at the
    * total. */
  lemma {:induction false} PartsFit(sizeOf: (int, int) -> int, s: Settings, total: int, start: int)
    requires InRange(total, s.maxPages, s.pairing) && 0 <= start <= total
    requires forall a, b :: sizeOf(a, b) <= s.maxSize
    ensures var parts := PartsFrom(sizeOf, s, total, start);
      forall k | 0 <= k < |parts| :: parts[k].to == Min(parts[k].from + s.maxPages, total)
    decreases total - start
  {
    if start < total {
      var low := LowEnd(start, s.pairing, total);
      var high := HighEnd(start, s.maxPages, total);
      WindowAtStart(start, total, s.maxPages, s.pairing);
      PartEndFits(sizeOf, s.maxSize, s.pairing, total, start, low, high);
      PartsFromStep(sizeOf, s, total, start, high);
      PartsFit(sizeOf, s, total, high);
      var parts := PartsFrom(sizeOf, s, total, start);
      assert forall k | 1 <= k < |parts| :: parts[k] == PartsFrom(sizeOf, s, total, high)[k - 1];
    }
  }

  /** With the default options and sizes that fit a long, the whole concatenation is one part. */
  lemma DefaultsGiveOnePart(sizeOf: (int, int) -> int, total: int)
    requires 0 < total && 2 * total <= INT_MAX - 2
    requires forall a, b :: sizeOf(a, b) <= LONG_MAX
    ensures PartsFrom(sizeOf, Settings(LONG_MAX, INT_MAX, DEFAULT_PAIRING), total, 0)
      == [Part(0, total)]
  {
    var s := Settings(LONG_MAX, INT_MAX, DEFAULT_PAIRING);
    PartsFit(sizeOf, s, total, 0);
    PartsTile(sizeOf, s, total, 0);
  }

  /** Ten pages, at most four per part, pairing two, everything fits: parts of 4, 4 and 2. */
  lemma TenPagesByFour(sizeOf: (int, int) -> int)
    requires forall a, b :: sizeOf(a, b) <= 0
    ensures PartsFrom(sizeOf, Settings(0, 4, 2), 10, 0) == [Part(0, 4), Part(4, 8), Part(8, 10)]
  {
    var s := Settings(0, 4, 2);
    PartsFit(sizeOf, s, 10, 0);
    PartsTile(sizeOf, s, 10, 0);
    var parts := PartsFrom(sizeOf, s, 10, 0);
    assert parts[0] == Part(0, 4);
    assert parts[1] == Part(4, 8);
    assert parts[2] == Part(8, 10);
  }

  /** Five pages, pairing two, no page limit, and every probe over the size limit: the search
    * splits pairing groups and gives [0,1), [1,2), [2,3), [3,5). */
  lemma FivePagesAllOversize(sizeOf: (int, int) -> int)
    requires forall a, b :: sizeOf(a, b) > 0
    ensures PartsFrom(sizeOf, Settings(0, INT_MAX, 2), 5, 0)
      == [Part(0, 1), Part(1, 2), Part(2, 3), Part(3, 5)]
  {
    var s := Settings(0, INT_MAX, 2);
    WindowAtStart(0, 5, INT_MAX, 2);
    WindowAtStart(1, 5, INT_MAX, 2);
    WindowAtStart(2, 5, INT_MAX, 2);
    WindowAtStart(3, 5, INT_MAX, 2);
    // start 0: window (2, 5), probes 5, 3, 1
    assert PartEnd(sizeOf, 0, 2, 5, 0, 2, 1) == 1;
    assert PartEnd(sizeOf, 0, 2, 5, 0, 2, 3) == 1;
    assert PartEnd(sizeOf, 0, 2, 5, 0, 2, 5) == 1;
    // start 1: window (3, 5), probes 4, 2
    assert PartEnd(sizeOf, 0, 2, 5, 1, 3, 2) == 2;
    assert PartEnd(sizeOf, 0, 2, 5, 1, 3, 5) == 2;
    // start 2: window (4, 5), probes 5, 3
    assert PartEnd(sizeOf, 0, 2, 5, 2, 4, 3) == 3;
    assert PartEnd(sizeOf, 0, 2, 5, 2, 4, 5) == 3;
    // start 3: window (5, 5), probe 5
    assert PartEnd(sizeOf, 0, 2, 5, 3, 5, 5) == 5;
    assert PartsFrom(sizeOf, s, 5, 5) == [];
    assert PartsFrom(sizeOf, s, 5, 3) == [Part(3, 5)];
    assert PartsFrom(sizeOf, s, 5, 2) == [Part(2, 3), Part(3, 5)];
    assert PartsFrom(sizeOf, s, 5, 1) == [Part(1, 2), Part(2, 3), Part(3, 5)];
  }

  // ---------------------------------------------------------------------------------------------
  // The run

  /** The search loop of execute for the part starting at `start`. */
  method FindEnd(sizeOf: (int, int) -> int, s: Settings, total: int, start: int)
    returns (end: int)
    requires InRange(total, s.maxPages, s.pairing) && 0 <= start < total
    ensures end == PartEnd(sizeOf, s.maxSize, s.pairing, total, start,
                           LowEnd(start, s.pairing, total), HighEnd(start, s.maxPages, total))
  {
    var lowEnd := Min(start + s.pairing, total);
    var highEnd := Min(if Wrap32(start + s.maxPages) >= 0 then Wrap32(start + s.maxPages)
                       else INT_MAX, total);
    WindowAtStart(start, total, s.maxPages, s.pairing);
    ghost var found := PartEnd(sizeOf, s.maxSize, s.pairing, total, start, lowEnd, highEnd);
    while true
      invariant Window(start, lowEnd, highEnd, total)
      invariant PartEnd(sizeOf, s.maxSize, s.pairing, total, start, lowEnd, highEnd) == found
      decreases highEnd + (total - lowEnd)
    {
      var middle := ((lowEnd + highEnd) / 2) / s.pairing * s.pairing;
      if middle <= lowEnd {
        middle := highEnd;
      }
      if sizeOf(start, middle) > s.maxSize && middle - s.pairing > start {
        highEnd := middle - s.pairing;
      } else if middle < highEnd && middle > lowEnd {
        lowEnd := middle;
      } else {
        return middle;
      }
    }
  }

  lemma PartsFromStep(sizeOf: (int, int) -> int, s: Settings, total: int, start: int, end: int)
    requires InRange(total, s.maxPages, s.pairing) && 0 <= start < total
    requires end == PartEnd(sizeOf, s.maxSize, s.pairing, total, start,
                            LowEnd(start, s.pairing, total), HighEnd(start, s.maxPages, total))
    ensures start < end <= total
    ensures PartsFrom(sizeOf, s, total, start) == [Part(start, end)] + PartsFrom(sizeOf, s, total, end)
  {
    WindowAtStart(start, total, s.maxPages, s.pairing);
    PartEndBounds(sizeOf, s.maxSize, s.pairing, total, start,
                  LowEnd(start, s.pairing, total), HighEnd(start, s.maxPages, total));
  }

  lemma Regroup<T>(a: seq<T>, b: seq<T>, c: seq<T>)
    ensures a + (b + c) == (a + b) + c
  {
  }

  /** The outer loop of execute: parts are cut one after another until the total is reached. */
  method SplitParts(sizeOf: (int, int) -> int, s: Settings, total: int)
    returns (parts: seq<Part>)
    requires InRange(total, s.maxPages, s.pairing)
    ensures parts == PartsFrom(sizeOf, s, total, 0)
    ensures Tiles(parts, 0, total, s.maxPages)
    ensures BestEffort(parts, sizeOf, s.maxSize, s.pairing)
  {
    PartsTile(sizeOf, s, total, 0);
    parts := [];
    var start := 0;
    while start < total
      invariant 0 <= start <= total
      invariant PartsFrom(sizeOf, s, total, 0) == parts + PartsFrom(sizeOf, s, total, start)
      decreases total - start
    {
      var end := FindEnd(sizeOf, s, total, start);
      PartsFromStep(sizeOf, s, total, start, end);
      Regroup(parts, [Part(start, end)], PartsFrom(sizeOf, s, total, end));
      parts := parts + [Part(start, end)];
      start := end;
    }
  }

  /** execute: the page map and total over the inputs' page counts, then the parts. With -g 0
    * and at least one page the first probe divides by zero. */
  method Split(sizeOf: (int, int) -> int, counts: seq<nat>, s: Settings) returns (r: Result<seq<Part>>)
    requires 0 <= s.pairing && 1 <= s.maxPages <= INT_MAX
    requires 2 * Offset(counts, |counts|) + s.pairing + 1 <= INT_MAX
    ensures var total := Offset(counts, |counts|);
      s.pairing == 0 && total > 0 <==> r == Fail(Arithmetic, "/ by zero")
    ensures var total := Offset(counts, |counts|);
      r.Ok? ==> Tiles(r.value, 0, total, s.maxPages)
    ensures var total := Offset(counts, |counts|);
      r.Ok? && total > 0 ==> r.value == PartsFrom(sizeOf, s, total, 0)
  {
    var pageToFile, total := BuildPageMap(counts);
    if total == 0 {
      return Ok([]);
    }
    if s.pairing == 0 {
      return Fail(Arithmetic, "/ by zero");
    }
    var parts := SplitParts(sizeOf, s, total);
    return Ok(parts);
  }
}
