/** The --extract step of command/JoinExhibitCommand: which page indices the commands select, and
  * how the merged document's pages are then removed from the highest index down, in the
  * "pair-even" mode (the default) and in the "single" mode. The document is any sequence of
  * pages, and removePage(i) drops its element i. */
module JoinExhibitExtract {
  import opened Wrappers

  const INVALID_EXTRACT_MESSAGE: string := "Invalid value, allowed: first last exhibit-first single pair-even"

  // ---------------------------------------------------------------- the commands

  /** A value of --extract. */
  datatype ExtractCommand = First | Last | ExhibitFirst | Single | PairEven

  /** The option text of each command. */
  function CommandName(c: ExtractCommand): string {
    match c
    case First => "first"
    case Last => "last"
    case ExhibitFirst => "exhibit-first"
    case Single => "single"
    case PairEven => "pair-even"
  }

  /** parseOption's check of an --extract value: one of the five names, else
    * IllegalArgumentException. */
  function ParseExtract(s: string): (r: Result<ExtractCommand>)
    ensures r.Ok? <==> s in {"first", "last", "exhibit-first", "single", "pair-even"}
    ensures r.Ok? ==> CommandName(r.value) == s
    ensures r.Err? ==> r == Fail(IllegalArgument, INVALID_EXTRACT_MESSAGE)
  {
    if s == "first" then Ok(First)
    else if s == "last" then Ok(Last)
    else if s == "exhibit-first" then Ok(ExhibitFirst)
    else if s == "single" then Ok(Single)
    else if s == "pair-even" then Ok(PairEven)
    else Fail(IllegalArgument, INVALID_EXTRACT_MESSAGE)
  }

  /** Every command is accepted back from its own name. */
  lemma ParseExtractName(c: ExtractCommand)
    ensures ParseExtract(CommandName(c)) == Ok(c)
  {
  }

  /** The page indices the commands select: "first" selects 0 and "last" selects basePages - 1,
    * both only when the base document has pages; "exhibit-first" selects every start page of an
    * entry that was placed (internalPageNumber >= 0). */
  predicate Selected(commands: seq<ExtractCommand>, basePages: int, starts: seq<int>, x: int) {
    || (First in commands && basePages > 0 && x == 0)
    || (Last in commands && basePages > 0 && x == basePages - 1)
    || (ExhibitFirst in commands && x in starts && x >= 0)
  }

  /** Some "pair-even" comes after position i. */
  predicate PairEvenAfter(commands: seq<ExtractCommand>, i: nat) {
    exists j | i < j < |commands| :: commands[j] == PairEven
  }

  /** The pair mode is in force: every "single" is overridden by a later "pair-even". */
  predicate PairMode(commands: seq<ExtractCommand>) {
    forall i | 0 <= i < |commands| && commands[i] == Single :: PairEvenAfter(commands, i)
  }

  /** Strictly decreasing: the order in which the reverse-ordered TreeSet is visited. */
  predicate Descending(s: seq<int>) {
    forall i, j | 0 <= i < j < |s| :: s[i] > s[j]
  }

  /** TreeSet.add on the reverse-ordered set, kept as its descending sequence. */
  function Insert(s: seq<int>, x: int): (r: seq<int>)
    requires Descending(s)
    ensures Descending(r)
    ensures forall y :: y in r <==> y in s || y == x
  {
    if |s| == 0 then [x]
    else if x > s[0] then [x] + s
    else if x == s[0] then s
    else
      var tail := Insert(s[1..], x);
      assert forall k | 0 <= k < |tail| :: tail[k] < s[0] by {
        forall k | 0 <= k < |tail| ensures tail[k] < s[0] {
          assert tail[k] in tail;
        }
      }
      [s[0]] + tail
  }

  /** The loop over the --extract values: the selected pages as a descending set, and whether
    * the pair mode is in force at the end. */
  method PlanExtract(commands: seq<ExtractCommand>, basePages: int, starts: seq<int>) returns (pages: seq<int>, even: bool)
    ensures Descending(pages)
    ensures forall x :: x in pages <==> Selected(commands, basePages, starts, x)
    ensures even <==> PairMode(commands)
  {
    even := true;
    pages := [];
    for k := 0 to |commands|
      invariant Descending(pages)
      invariant forall x :: x in pages <==> Selected(commands[..k], basePages, starts, x)
      invariant even <==> PairMode(commands[..k])
    {
      assert commands[..k + 1] == commands[..k] + [commands[k]];
      match commands[k]
      case First =>
        if basePages > 0 {
          pages := Insert(pages, 0);
        }
      case Last =>
        if basePages > 0 {
          pages := Insert(pages, basePages - 1);
        }
      case ExhibitFirst =>
        ghost var before := pages;
        for m := 0 to |starts|
          invariant Descending(pages)
          invariant forall x :: x in pages <==> x in before || (x in starts[..m] && x >= 0)
        {
          assert starts[..m + 1] == starts[..m] + [starts[m]];
          if starts[m] >= 0 {
            pages := Insert(pages, starts[m]);
          }
        }
        assert starts[..|starts|] == starts;
      case Single =>
        even := false;
        assert !PairEvenAfter(commands[..k + 1], k);
      case PairEven =>
        even := true;
        var upTo := commands[..k + 1];
        forall i | 0 <= i < |upTo| && upTo[i] == Single
          ensures PairEvenAfter(upTo, i)
        {
          assert upTo[k] == PairEven;
        }
    }
    assert commands[..|commands|] == commands;
  }

  // ---------------------------------------------------------------- removal

  /** x & ~1: x rounded down to an even number (the low bit of the two's complement cleared). */
  function ClearLowBit(x: int): (r: int)
    ensures r % 2 == 0 && r <= x < r + 2
  {
    x - x % 2
  }

  lemma ClearLowBitMonotone(a: int, b: int)
    requires a <= b
    ensures ClearLowBit(a) <= ClearLowBit(b)
  {
  }

  /** The elements of doc at index lo and above whose index is in `keep`, in order. */
  function KeepFrom<T>(doc: seq<T>, lo: nat, keep: set<int>): seq<T>
    decreases |doc| - lo
  {
    if lo >= |doc| then [] else (if lo in keep then [doc[lo]] else []) + KeepFrom(doc, lo + 1, keep)
  }

  lemma {:induction false} KeepFromSkip<T>(doc: seq<T>, lo: nat, hi: nat, keep: set<int>)
    requires lo <= hi <= |doc|
    requires forall i | lo <= i < hi :: i !in keep
    ensures KeepFrom(doc, lo, keep) == KeepFrom(doc, hi, keep)
    decreases hi - lo
  {
    if lo < hi {
      KeepFromSkip(doc, lo + 1, hi, keep);
    }
  }

  lemma {:induction false} KeepFromTake<T>(doc: seq<T>, lo: nat, hi: nat, keep: set<int>)
    requires lo <= hi <= |doc|
    requires forall i | lo <= i < hi :: i in keep
    ensures KeepFrom(doc, lo, keep) == doc[lo..hi] + KeepFrom(doc, hi, keep)
    decreases hi - lo
  {
    if lo < hi {
      assert lo in keep;
      assert KeepFrom(doc, lo, keep) == [doc[lo]] + KeepFrom(doc, lo + 1, keep);
      KeepFromTake(doc, lo + 1, hi, keep);
      SliceCons(doc, lo, hi);
      Associate([doc[lo]], doc[lo + 1..hi], KeepFrom(doc, hi, keep));
    }
  }

  /** Removing the pages m .. top-1 from `cur`, a document whose pages below top are untouched
    * and whose pages from top up are decided: when none of m .. top-1 is kept and all of
    * low .. m-1 are, the pages from low up are decided. */
  lemma Regroup<T>(doc: seq<T>, keep: set<int>, low: nat, m: nat, top: nat, cur: seq<T>)
    requires low <= m <= top <= |doc|
    requires forall i | m <= i < top :: i !in keep
    requires forall i | low <= i < m :: i in keep
    requires cur == doc[..top] + KeepFrom(doc, top, keep)
    ensures cur[..m] + cur[top..] == doc[..low] + KeepFrom(doc, low, keep)
  {
    KeepFromSkip(doc, m, top, keep);
    KeepFromTake(doc, low, m, keep);
    ConcatSlices(doc[..top], KeepFrom(doc, top, keep), m);
    PrefixSplit(doc, low, m, top);
    Associate(doc[..low], doc[low..m], KeepFrom(doc, top, keep));
  }

  lemma SliceCons<T>(doc: seq<T>, lo: nat, hi: nat)
    requires lo < hi <= |doc|
    ensures doc[lo..hi] == [doc[lo]] + doc[lo + 1..hi]
  {
  }

  lemma ConcatSlices<T>(a: seq<T>, b: seq<T>, m: nat)
    requires m <= |a|
    ensures (a + b)[..m] == a[..m]
    ensures (a + b)[|a|..] == b
  {
  }

  lemma PrefixSplit<T>(doc: seq<T>, low: nat, m: nat, top: nat)
    requires low <= m <= top <= |doc|
    ensures doc[..top][..m] == doc[..low] + doc[low..m]
  {
  }

  lemma Associate<T>(a: seq<T>, b: seq<T>, c: seq<T>)
    ensures (a + b) + c == a + (b + c)
  {
  }

  /** `for (--lastIncluded; lastIncluded >= bound; --lastIncluded) doc.removePage(lastIncluded)`
    * entered with lastIncluded == top: the pages bound .. top-1 are removed, and lastIncluded
    * ends one below min(top, bound). */
  method RemoveDown<T>(doc: seq<T>, top: int, bound: nat) returns (r: seq<T>, last: int)
    requires -1 <= top <= |doc|
    ensures last == (if top < bound then top else bound) - 1
    ensures top >= 0 ==> r == doc[..last + 1] + doc[top..]
    ensures top < 0 ==> r == doc
  {
    r := doc;
    last := top - 1;
    while last >= bound
      invariant last < top && (bound - 1 <= last || last == top - 1)
      invariant top >= 0 ==> r == doc[..last + 1] + doc[top..]
      invariant top < 0 ==> r == doc
    {
      r := r[..last] + r[last + 1..];
      last := last - 1;
    }
  }

  /** The selection as the extract loops see it: the reverse-ordered TreeSet, all of whose
    * members are page indices from 0 up to the page count n (a placed entry may start at n
    * when it and everything after it has no pages). */
  predicate Selection(pages: seq<int>, n: nat) {
    Descending(pages) && forall k | 0 <= k < |pages| :: 0 <= pages[k] <= n
  }

  /** Some selected page rounds down to the same even index as i. */
  predicate PairedWith(pages: seq<int>, i: int) {
    exists k | 0 <= k < |pages| :: ClearLowBit(pages[k]) == ClearLowBit(i)
  }

  /** Pair-even mode's pages: every index whose even-rounded value is that of a selected page. */
  function PairSet(pages: seq<int>, n: nat): set<int> {
    set i | 0 <= i < n && PairedWith(pages, i)
  }

  /** Single mode's pages: exactly the selected indices that exist. */
  function SingleSet(pages: seq<int>, n: nat): set<int> {
    set i | 0 <= i < n && i in pages
  }

  /** One pass of the pair-even loop with page < lastIncluded == top, which removes from top - 1
    * down to (page + 2) & ~1 and so leaves lastIncluded at last = min(top, (page + 2) & ~1) - 1:
    * the pages last+1 .. top-1 are outside the kept set, and those from last rounded down to even
    * up to last are inside it. */
  lemma PairBlock(pages: seq<int>, n: nat, j: nat, top: int, last: int)
    requires Selection(pages, n) && j < |pages|
    requires 0 <= top <= n && pages[j] < top
    requires forall k | 0 <= k < j :: ClearLowBit(pages[k]) >= top
    requires last + 1 == if top < ClearLowBit(pages[j] + 2) then top else ClearLowBit(pages[j] + 2)
    ensures 0 <= ClearLowBit(last) == ClearLowBit(pages[j]) <= last < top
    ensures forall i | last + 1 <= i < top :: i !in PairSet(pages, n)
    ensures forall i | ClearLowBit(last) <= i < last + 1 :: i in PairSet(pages, n)
  {
    var p := pages[j];
    forall i | last + 1 <= i < top
      ensures i !in PairSet(pages, n)
    {
      forall k | 0 <= k < |pages|
        ensures ClearLowBit(pages[k]) != ClearLowBit(i)
      {
        if k >= j {
          ClearLowBitMonotone(pages[k], p);
        }
      }
    }
    forall i | ClearLowBit(last) <= i < last + 1
      ensures i in PairSet(pages, n)
    {
      assert ClearLowBit(pages[j]) == ClearLowBit(i);
    }
  }

  /** A pass of the pair-even loop with page >= lastIncluded only rounds lastIncluded down, and
    * the page that rounding uncovers is kept. */
  lemma PairTail(pages: seq<int>, n: nat, j: nat, top: int)
    requires Selection(pages, n) && j < |pages|
    requires 0 <= top <= n && pages[j] >= top && (top % 2 == 0 || top == n)
    ensures ClearLowBit(pages[j]) >= ClearLowBit(top)
    ensures forall i | ClearLowBit(top) <= i < top :: i in PairSet(pages, n)
  {
    ClearLowBitMonotone(top, pages[j]);
    forall i | ClearLowBit(top) <= i < top
      ensures i in PairSet(pages, n)
    {
      assert ClearLowBit(pages[j]) == ClearLowBit(i);
    }
  }

  /** No index below every selected page's even-rounded value is in the pair set. */
  lemma PairsAbove(pages: seq<int>, n: nat, low: int)
    requires forall k | 0 <= k < |pages| :: ClearLowBit(pages[k]) >= low
    ensures forall i | 0 <= i < low :: i !in PairSet(pages, n)
  {
    forall i | 0 <= i < low
      ensures !PairedWith(pages, i)
    {
    }
  }

  /** One pass of the pair-even loop for the selected page pages[j]. */
  method PairPass<T>(doc: seq<T>, pages: seq<int>, ghost keep: set<int>, j: nat, r: seq<T>, last: int)
    returns (r': seq<T>, last': int)
    requires Selection(pages, |doc|) && j < |pages| && keep == PairSet(pages, |doc|)
    requires 0 <= last <= |doc| && (last % 2 == 0 || last == |doc|)
    requires r == doc[..last] + KeepFrom(doc, last, keep)
    requires forall k | 0 <= k < j :: ClearLowBit(pages[k]) >= last
    ensures 0 <= last' <= |doc| && last' % 2 == 0
    ensures r' == doc[..last'] + KeepFrom(doc, last', keep)
    ensures forall k | 0 <= k < j + 1 :: ClearLowBit(pages[k]) >= last'
  {
    var page := pages[j];
    r', last' := r, last;
    if last > page {
      r', last' := RemoveDown(r, last, ClearLowBit(page + 2));
      PairBlock(pages, |doc|, j, last, last');
      Regroup(doc, keep, ClearLowBit(last'), last' + 1, last, r);
    } else {
      PairTail(pages, |doc|, j, last);
      Regroup(doc, keep, ClearLowBit(last), last, last, r);
      assert r == r[..last] + r[last..];
    }
    last' := ClearLowBit(last');
  }

  /** The pair-even removal: for each selected page, from the highest down, the pages above its
    * pair are removed, and finally everything below the lowest pair. The result keeps exactly
    * the pages whose even-rounded index is that of a selected page. */
  method ExtractPairs<T>(doc: seq<T>, pages: seq<int>) returns (r: seq<T>)
    requires Selection(pages, |doc|)
    ensures r == KeepFrom(doc, 0, PairSet(pages, |doc|))
  {
    ghost var keep := PairSet(pages, |doc|);
    var last := |doc|;
    r := doc;
    for j := 0 to |pages|
      invariant 0 <= last <= |doc| && (last % 2 == 0 || last == |doc|)
      invariant r == doc[..last] + KeepFrom(doc, last, keep)
      invariant forall k | 0 <= k < j :: ClearLowBit(pages[k]) >= last
    {
      r, last := PairPass(doc, pages, keep, j, r, last);
    }
    ghost var top := last;
    r, last := RemoveDown(r, last, 0);
    PairsAbove(pages, |doc|, top);
    KeepFromSkip(doc, 0, top, keep);
  }

  /** The single-mode removal corrected: a selected page at or above lastIncluded removes
    * nothing and leaves lastIncluded alone. The result keeps exactly the selected pages. */
  method ExtractSingles<T>(doc: seq<T>, pages: seq<int>) returns (r: seq<T>)
    requires Selection(pages, |doc|)
    ensures r == KeepFrom(doc, 0, SingleSet(pages, |doc|))
  {
    ghost var keep := SingleSet(pages, |doc|);
    var last := |doc|;
    r := doc;
    for j := 0 to |pages|
      invariant 0 <= last <= |doc|
      invariant r == doc[..last] + KeepFrom(doc, last, keep)
      invariant forall k | 0 <= k < j :: pages[k] >= last
    {
      var page := pages[j];
      if page < last {
        ghost var top := last;
        assert page in keep;
        ghost var cur := r;
        r, last := RemoveDown(r, last, page + 1);
        Regroup(doc, keep, page, page + 1, top, cur);
      }
    }
    ghost var top := last;
    r, last := RemoveDown(r, last, 0);
    KeepFromSkip(doc, 0, top, keep);
  }

  /** The indices the single-mode loop as written keeps, entered with lastIncluded == top: each
    * selected page ends its removal run at min(top, page + 1) - 1, and that index survives. */
  function SingleKeptAsWritten(top: int, pages: seq<int>): (r: set<int>)
    ensures forall x | x in r :: x < top
    decreases |pages|
  {
    if |pages| == 0 then {}
    else
      var next := (if top < pages[0] + 1 then top else pages[0] + 1) - 1;
      {next} + SingleKeptAsWritten(next, pages[1..])
  }

  /** One pass of the single-mode loop as written, entered with lastIncluded == top and leaving
    * it at last: the index last joins the kept indices, and none between it and top does. */
  lemma AsWrittenStep(pages: seq<int>, j: nat, top: int, kept: set<int>, keep: set<int>, last: int)
    requires j < |pages|
    requires keep == kept + SingleKeptAsWritten(top, pages[j..])
    requires forall x | x in kept :: x >= top
    requires last == (if top < pages[j] + 1 then top else pages[j] + 1) - 1
    ensures keep == (kept + {last}) + SingleKeptAsWritten(last, pages[j + 1..])
    ensures last in keep
    ensures forall i | last + 1 <= i < top :: i !in keep
    ensures forall x | x in kept + {last} :: x >= last
  {
    assert pages[j..][1..] == pages[j + 1..];
  }

  /** The single-mode removal as written: no guard, so a selected page at or above lastIncluded
    * still lowers lastIncluded by one and the page below it survives. */
  method ExtractSinglesAsWritten<T>(doc: seq<T>, pages: seq<int>) returns (r: seq<T>)
    requires Selection(pages, |doc|)
    ensures r == KeepFrom(doc, 0, SingleKeptAsWritten(|doc|, pages))
  {
    ghost var keep := SingleKeptAsWritten(|doc|, pages);
    ghost var kept: set<int> := {};
    var last := |doc|;
    r := doc;
    for j := 0 to |pages|
      invariant -1 <= last <= |doc|
      invariant last == -1 ==> j == |pages|
      invariant forall k | j <= k < |pages| :: pages[k] <= last
      invariant keep == kept + SingleKeptAsWritten(last, pages[j..])
      invariant forall x | x in kept :: x >= last
      invariant last >= 0 ==> r == doc[..last] + KeepFrom(doc, last, keep)
      invariant last < 0 ==> r == KeepFrom(doc, 0, keep)
    {
      var page := pages[j];
      ghost var top := last;
      ghost var cur := r;
      r, last := RemoveDown(r, last, page + 1);
      AsWrittenStep(pages, j, top, kept, keep, last);
      kept := kept + {last};
      if last >= 0 {
        Regroup(doc, keep, last, last + 1, top, cur);
      } else {
        Regroup(doc, keep, 0, 0, top, cur);
      }
    }
    ghost var top := last;
    r, last := RemoveDown(r, last, 0);
    if top >= 0 {
      KeepFromSkip(doc, 0, top, keep);
    }
  }

  /** Some selected page rounds down to the same even index as i. */
  ghost predicate PairedWithSelected(commands: seq<ExtractCommand>, basePages: int, starts: seq<int>, i: int) {
    exists p :: Selected(commands, basePages, starts, p) && ClearLowBit(p) == ClearLowBit(i)
  }

  /** The pages of an n-page document that --extract keeps: in pair mode every page paired with a
    * selected one, in single mode the selected pages. */
  ghost function KeepSet(commands: seq<ExtractCommand>, basePages: int, starts: seq<int>, n: nat): set<int> {
    if PairMode(commands) then set i | 0 <= i < n && PairedWithSelected(commands, basePages, starts, i)
    else set i | 0 <= i < n && Selected(commands, basePages, starts, i)
  }

  /** The planned selection, read through either mode, is the kept set of the commands. */
  lemma PlannedSets(pages: seq<int>, commands: seq<ExtractCommand>, basePages: int, starts: seq<int>, n: nat)
    requires forall x :: x in pages <==> Selected(commands, basePages, starts, x)
    ensures PairMode(commands) ==> PairSet(pages, n) == KeepSet(commands, basePages, starts, n)
    ensures !PairMode(commands) ==> SingleSet(pages, n) == KeepSet(commands, basePages, starts, n)
  {
    if PairMode(commands) {
      forall i | 0 <= i < n
        ensures PairedWith(pages, i) <==> PairedWithSelected(commands, basePages, starts, i)
      {
        if PairedWith(pages, i) {
          var k :| 0 <= k < |pages| && ClearLowBit(pages[k]) == ClearLowBit(i);
          assert pages[k] in pages;
        }
        if PairedWithSelected(commands, basePages, starts, i) {
          var p :| Selected(commands, basePages, starts, p) && ClearLowBit(p) == ClearLowBit(i);
          var k :| 0 <= k < |pages| && pages[k] == p;
        }
      }
    }
  }

  /** The --extract block: nothing happens without --extract values; otherwise the selection is
    * planned and the pages are removed in the mode in force (single mode with the guard that
    * keeps it to the selected pages). Every selected page lies between 0 and the page count,
    * since the base pages and the entries' start pages do. */
  method ExtractPages<T>(doc: seq<T>, commands: seq<ExtractCommand>, basePages: int, starts: seq<int>) returns (r: seq<T>)
    requires 0 <= basePages <= |doc|
    requires forall k | 0 <= k < |starts| :: starts[k] <= |doc|
    ensures |commands| == 0 ==> r == doc
    ensures |commands| > 0 ==> r == KeepFrom(doc, 0, KeepSet(commands, basePages, starts, |doc|))
  {
    if |commands| == 0 {
      return doc;
    }
    var pages, even := PlanExtract(commands, basePages, starts);
    forall k | 0 <= k < |pages|
      ensures 0 <= pages[k] <= |doc|
    {
      assert pages[k] in pages;
    }
    PlannedSets(pages, commands, basePages, starts, |doc|);
    if even {
      r := ExtractPairs(doc, pages);
    } else {
      r := ExtractSingles(doc, pages);
    }
  }

  // ---------------------------------------------------------------- properties

  /** Both modes remove every page when nothing is selected. */
  lemma {:induction false} NothingSelected<T>(doc: seq<T>, lo: nat)
    requires lo <= |doc|
    ensures KeepFrom(doc, lo, PairSet([], |doc|)) == []
    ensures KeepFrom(doc, lo, SingleSet([], |doc|)) == []
    decreases |doc| - lo
  {
    if lo < |doc| {
      NothingSelected(doc, lo + 1);
    }
  }

  /** Pair-even mode keeps pages in pairs: from an even-length document it keeps an even number
    * of pages. */
  lemma {:induction false} PairsComeInPairs<T>(doc: seq<T>, pages: seq<int>, lo: nat)
    requires |doc| % 2 == 0 && lo % 2 == 0 && lo <= |doc|
    ensures |KeepFrom(doc, lo, PairSet(pages, |doc|))| % 2 == 0
    decreases |doc| - lo
  {
    var keep := PairSet(pages, |doc|);
    if lo < |doc| {
      PairsComeInPairs(doc, pages, lo + 2);
      assert ClearLowBit(lo) == ClearLowBit(lo + 1);
      assert lo in keep <==> lo + 1 in keep by {
        if lo in keep {
          var k :| 0 <= k < |pages| && ClearLowBit(pages[k]) == ClearLowBit(lo);
          assert ClearLowBit(pages[k]) == ClearLowBit(lo + 1);
        }
        if lo + 1 in keep {
          var k :| 0 <= k < |pages| && ClearLowBit(pages[k]) == ClearLowBit(lo + 1);
          assert ClearLowBit(pages[k]) == ClearLowBit(lo);
        }
      }
    }
  }

  /** Pair-even mode keeps every page single mode keeps. */
  lemma SinglesArePaired(pages: seq<int>, n: nat)
    ensures SingleSet(pages, n) <= PairSet(pages, n)
  {
    forall i | i in SingleSet(pages, n)
      ensures i in PairSet(pages, n)
    {
      var k :| 0 <= k < |pages| && pages[k] == i;
      assert ClearLowBit(pages[k]) == ClearLowBit(i);
    }
  }

  /** With every selected page below the page count, the loop as written keeps exactly the
    * selected pages. */
  lemma {:induction false} SingleKeptExact(top: int, pages: seq<int>)
    requires Descending(pages)
    requires forall k | 0 <= k < |pages| :: pages[k] < top
    ensures forall x :: x in SingleKeptAsWritten(top, pages) <==> x in pages
    decreases |pages|
  {
    if |pages| > 0 {
      assert forall k | 0 <= k < |pages[1..]| :: pages[1..][k] < pages[0] by {
        forall k | 0 <= k < |pages[1..]| ensures pages[1..][k] < pages[0] {
          assert pages[1..][k] == pages[k + 1];
        }
      }
      SingleKeptExact(pages[0], pages[1..]);
      assert pages == [pages[0]] + pages[1..];
    }
  }

  /** So the two single-mode loops agree unless the page count itself is selected. */
  lemma SinglesAgree<T>(doc: seq<T>, pages: seq<int>)
    requires Selection(pages, |doc|) && |doc| !in pages
    ensures KeepFrom(doc, 0, SingleKeptAsWritten(|doc|, pages)) == KeepFrom(doc, 0, SingleSet(pages, |doc|))
  {
    forall k | 0 <= k < |pages|
      ensures pages[k] < |doc|
    {
      assert pages[k] in pages;
    }
    SingleKeptExact(|doc|, pages);
    assert SingleKeptAsWritten(|doc|, pages) == SingleSet(pages, |doc|);
  }

  /** The discrepancy: a two-page document where the selection is the page count 2 (an exhibit
    * with no pages placed last). Single mode as written keeps page 1; nothing was selected that
    * exists, so nothing should be kept. */
  lemma SingleKeepsUnselectedPage()
    ensures Selection([2], 2)
    ensures KeepFrom([10, 11], 0, SingleKeptAsWritten(2, [2])) == [11]
    ensures KeepFrom([10, 11], 0, SingleSet([2], 2)) == []
  {
    assert SingleKeptAsWritten(2, [2]) == {1};
    assert SingleSet([2], 2) == {} by {
      forall i | i in SingleSet([2], 2) ensures false {
      }
    }
  }
}
