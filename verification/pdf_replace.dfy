/** command/PdfReplaceCommand: the output document is rebuilt from itself, with blank pages
  * inserted and pages replaced by pages of -i as -a and -m say, and its document information
  * replaced by entries merged from the document itself, --meta-from and the explicit options.
  * Loading and saving the files are not part of this model: a document is its page count and
  * its metadata, and the renderer's page operations are list operations on the page sequence. */
module PdfReplaceModel {
  import opened Wrappers
  import opened JavaText

  const INPUT_FOR_OPERATIONS_MESSAGE: string := "-i input option is mandatory if operations are specified"

  const INPUT_OR_META_MESSAGE: string := "-i input option or meta setting options are mandatory"

  // ---------------------------------------------------------------------------------------------
  // Options

  /** An operation: the destination page and, for -m, the source page; -a has no source. */
  datatype Operation = Operation(dest: int, source: Option<int>)

  /** -m "d" or "d=s", split at the first '='; "d" alone means the same page number twice. */
  function ParseMove(text: string): (r: Result<Operation>)
    ensures '=' !in text ==> (r.Ok? <==> ParseInt(text).Ok?)
    ensures '=' !in text && r.Ok? ==> r.value == Operation(ParseInt(text).value, Some(ParseInt(text).value))
    ensures '=' in text ==> var parts := SplitOnce(text, '=');
      && (r.Ok? <==> ParseInt(parts[0]).Ok? && ParseInt(parts[1]).Ok?)
      && (r.Ok? ==> r.value == Operation(ParseInt(parts[0]).value, Some(ParseInt(parts[1]).value)))
  {
    var parts := SplitOnce(text, '=');
    if |parts| == 1 then
      var d :- ParseInt(parts[0]);
      Ok(Operation(d, Some(d)))
    else
      var d :- ParseInt(parts[0]);
      var s :- ParseInt(parts[1]);
      Ok(Operation(d, Some(s)))
  }

  /** -a "d": a blank page at d. */
  function ParseAdd(text: string): (r: Result<Operation>)
    ensures r.Ok? <==> ParseInt(text).Ok?
    ensures r.Ok? ==> r.value == Operation(ParseInt(text).value, None)
  {
    var d :- ParseInt(text);
    Ok(Operation(d, None))
  }

  lemma NoEqualsInIntToString(n: int)
    ensures '=' !in IntToString(n)
  {
    var digits := NatToString(if n < 0 then -n else n);
    assert AllAsciiDigits(digits);
    assert IntToString(n) == (if n < 0 then "-" else "") + digits;
  }

  /** Writing "d=s" or "d" with Integer.toString reads back as the operation it names. */
  lemma ParseMoveOfText(d: int, s: int)
    requires INT_MIN <= d <= INT_MAX && INT_MIN <= s <= INT_MAX
    ensures ParseMove(IntToString(d) + "=" + IntToString(s)) == Ok(Operation(d, Some(s)))
    ensures ParseMove(IntToString(d)) == Ok(Operation(d, Some(d)))
  {
    var x := IntToString(d);
    var y := IntToString(s);
    NoEqualsInIntToString(d);
    IndexOfAfter(x, '=', y);
    var text := x + "=" + y;
    assert text[..|x|] == x && text[|x| + 1..] == y;
    assert SplitOnce(text, '=') == [x, y];
    ParseIntOfIntToString(d);
    ParseIntOfIntToString(s);
  }

  /** The document information keys of --title, --author and --subject. */
  const TITLE: string := "Title"
  const AUTHOR: string := "Author"
  const SUBJECT: string := "Subject"

  /** The command's own options, in command-line order. */
  datatype ReplaceArg =
    | InputArg(path: string)          // -i
    | MoveArg(text: string)           // -m
    | AddArg(text: string)            // -a
    | ReplaceMetaArg                  // --replace-meta
    | MetaFromArg(path: string)       // --meta-from
    | TitleArg(value: string)         // --title
    | AuthorArg(value: string)        // --author
    | SubjectArg(value: string)       // --subject
    | DeleteAllMetaArg                // --delete-all-meta
    | DeleteMetaArg(key: string)      // --delete-meta

  /** The parsed options; an explicit metadata entry of None is a deletion (a Java null). */
  datatype ReplaceOptions = ReplaceOptions(
    inputFile: Option<string>,
    deleteAllMeta: bool,
    replaceMeta: bool,
    metaFrom: Option<string>,
    meta: map<string, Option<string>>,
    operations: seq<Operation>)

  const NO_OPTIONS := ReplaceOptions(None, false, false, None, map[], [])

  /** parseOption for one option. */
  function ApplyArg(o: ReplaceOptions, arg: ReplaceArg): (r: Result<ReplaceOptions>)
    ensures (arg.MoveArg? || arg.AddArg?) ==> (r.Ok? <==> ParseOperation(arg).Ok?)
    ensures (arg.MoveArg? || arg.AddArg?) && r.Ok?
      ==> r.value == o.(operations := o.operations + [ParseOperation(arg).value])
    ensures !(arg.MoveArg? || arg.AddArg?) ==> r.Ok? && r.value.operations == o.operations
  {
    match arg
    case InputArg(path) => Ok(o.(inputFile := Some(path)))
    case MoveArg(text) =>
      var op :- ParseMove(text);
      Ok(o.(operations := o.operations + [op]))
    case AddArg(text) =>
      var op :- ParseAdd(text);
      Ok(o.(operations := o.operations + [op]))
    case ReplaceMetaArg => Ok(o.(replaceMeta := true))
    case MetaFromArg(path) => Ok(o.(metaFrom := Some(path)))
    case TitleArg(value) => Ok(o.(meta := o.meta[TITLE := Some(value)]))
    case AuthorArg(value) => Ok(o.(meta := o.meta[AUTHOR := Some(value)]))
    case SubjectArg(value) => Ok(o.(meta := o.meta[SUBJECT := Some(value)]))
    case DeleteAllMetaArg => Ok(o.(deleteAllMeta := true, replaceMeta := true))
    case DeleteMetaArg(key) => Ok(o.(meta := o.meta[key := None]))
  }

  /** The operation an -m or -a option describes. */
  function ParseOperation(arg: ReplaceArg): Result<Operation>
    requires arg.MoveArg? || arg.AddArg?
  {
    if arg.MoveArg? then ParseMove(arg.text) else ParseAdd(arg.text)
  }

  /** The options applied in order; the first one that does not parse is the error. */
  function ParseArgsFrom(o: ReplaceOptions, args: seq<ReplaceArg>): Result<ReplaceOptions>
    decreases |args|
  {
    if |args| == 0 then Ok(o)
    else
      var next :- ApplyArg(o, args[0]);
      ParseArgsFrom(next, args[1..])
  }

  function ParseArgs(args: seq<ReplaceArg>): Result<ReplaceOptions> {
    ParseArgsFrom(NO_OPTIONS, args)
  }

  /** The -m and -a options alone, parsed in command-line order. */
  function OperationsOf(args: seq<ReplaceArg>): Result<seq<Operation>>
    decreases |args|
  {
    if |args| == 0 then Ok([]) else WithOperation(args[0], OperationsOf(args[1..]))
  }

  /** The operations of one option in front of those of the options after it: a -m or -a option
    * fails first with its own parse error, then with the later options' error. */
  function WithOperation(arg: ReplaceArg, rest: Result<seq<Operation>>): Result<seq<Operation>> {
    if arg.MoveArg? || arg.AddArg? then
      var first :- ParseOperation(arg);
      var tail :- rest;
      Ok([first] + tail)
    else rest
  }

  /** The other options neither fail nor touch the operations: the options parse exactly when
    * the -m and -a options do, and the operations are then appended in command-line order. */
  lemma {:induction false} OperationsInOrder(o: ReplaceOptions, args: seq<ReplaceArg>)
    ensures OperationsAgree(ParseArgsFrom(o, args), o.operations, OperationsOf(args))
    decreases |args|
  {
    if |args| > 0 {
      var step := ApplyArg(o, args[0]);
      if step.Ok? {
        OperationsInOrder(step.value, args[1..]);
        assert ParseArgsFrom(o, args) == ParseArgsFrom(step.value, args[1..]);
        OperationsAgreeStep(o, args[0], ParseArgsFrom(step.value, args[1..]), OperationsOf(args[1..]));
      } else {
        assert ParseArgsFrom(o, args).Err?;
      }
    }
  }

  /** The options parse exactly when their operations do, and then hold `base` followed by them. */
  predicate OperationsAgree(parsed: Result<ReplaceOptions>, base: seq<Operation>, ops: Result<seq<Operation>>) {
    && (parsed.Ok? <==> ops.Ok?)
    && (parsed.Ok? ==> parsed.value.operations == base + ops.value)
  }

  /** One option in front: agreement after it gives agreement before it. */
  lemma OperationsAgreeStep(o: ReplaceOptions, arg: ReplaceArg, parsed: Result<ReplaceOptions>,
                            ops: Result<seq<Operation>>)
    requires ApplyArg(o, arg).Ok?
    requires OperationsAgree(parsed, ApplyArg(o, arg).value.operations, ops)
    ensures OperationsAgree(parsed, o.operations, WithOperation(arg, ops))
  {
    if arg.MoveArg? || arg.AddArg? {
      var first := ParseOperation(arg).value;
      assert ApplyArg(o, arg).value.operations == o.operations + [first];
      assert WithOperation(arg, ops) == if ops.Ok? then Ok([first] + ops.value) else Err(ops.error);
      AgreePrepend(o.operations, first, parsed, ops);
    } else {
      assert WithOperation(arg, ops) == ops;
    }
  }

  lemma AgreePrepend(base: seq<Operation>, first: Operation, parsed: Result<ReplaceOptions>,
                     ops: Result<seq<Operation>>)
    requires OperationsAgree(parsed, base + [first], ops)
    ensures OperationsAgree(parsed, base, if ops.Ok? then Ok([first] + ops.value) else Err(ops.error))
  {
    if parsed.Ok? {
      assert (base + [first]) + ops.value == base + ([first] + ops.value);
    }
  }

  /** Splitting the command line splits the operations. */
  lemma {:induction false} OperationsOfAppend(a: seq<ReplaceArg>, b: seq<ReplaceArg>)
    ensures OperationsOf(a + b).Ok? <==> OperationsOf(a).Ok? && OperationsOf(b).Ok?
    ensures OperationsOf(a + b).Ok? ==> OperationsOf(a + b).value == OperationsOf(a).value + OperationsOf(b).value
    decreases |a|
  {
    if |a| == 0 {
      assert a + b == b;
    } else {
      assert (a + b)[1..] == a[1..] + b;
      OperationsOfAppend(a[1..], b);
      WithOperationAppend(a[0], OperationsOf(a[1..] + b), OperationsOf(a[1..]), OperationsOf(b));
    }
  }

  /** Putting one option's operations in front commutes with appending later ones. */
  lemma WithOperationAppend(arg: ReplaceArg, joined: Result<seq<Operation>>, left: Result<seq<Operation>>,
                            right: Result<seq<Operation>>)
    requires joined.Ok? <==> left.Ok? && right.Ok?
    requires joined.Ok? ==> joined.value == left.value + right.value
    ensures WithOperation(arg, joined).Ok? <==> WithOperation(arg, left).Ok? && right.Ok?
    ensures WithOperation(arg, joined).Ok? ==>
      WithOperation(arg, joined).value == WithOperation(arg, left).value + right.value
  {
    if WithOperation(arg, joined).Ok? && (arg.MoveArg? || arg.AddArg?) {
      var first := ParseOperation(arg).value;
      assert [first] + (left.value + right.value) == ([first] + left.value) + right.value;
    }
  }

  /** The entry an explicit metadata option puts: --title, --author and --subject their value,
    * --delete-meta a null. */
  function MetaEntry(arg: ReplaceArg): Option<(string, Option<string>)> {
    match arg
    case TitleArg(value) => Some((TITLE, Some(value)))
    case AuthorArg(value) => Some((AUTHOR, Some(value)))
    case SubjectArg(value) => Some((SUBJECT, Some(value)))
    case DeleteMetaArg(key) => Some((key, None))
    case _ => None
  }

  predicate Names(arg: ReplaceArg, key: string) {
    MetaEntry(arg).Some? && MetaEntry(arg).value.0 == key
  }

  /** Options that do not name a key leave its explicit entry alone. */
  lemma {:induction false} MetaKept(o: ReplaceOptions, args: seq<ReplaceArg>, key: string)
    requires key in o.meta && ParseArgsFrom(o, args).Ok?
    requires forall j | 0 <= j < |args| :: !Names(args[j], key)
    ensures key in ParseArgsFrom(o, args).value.meta
    ensures ParseArgsFrom(o, args).value.meta[key] == o.meta[key]
    decreases |args|
  {
    if |args| > 0 {
      assert !Names(args[0], key);
      ApplyArgKeeps(o, args[0], key);
      assert forall j | 0 <= j < |args[1..]| :: args[1..][j] == args[j + 1];
      MetaKept(ApplyArg(o, args[0]).value, args[1..], key);
    }
  }

  /** An option that does not name a key leaves its explicit entry alone. */
  lemma ApplyArgKeeps(o: ReplaceOptions, arg: ReplaceArg, key: string)
    requires key in o.meta && !Names(arg, key) && ApplyArg(o, arg).Ok?
    ensures key in ApplyArg(o, arg).value.meta
    ensures ApplyArg(o, arg).value.meta[key] == o.meta[key]
  {
  }

  /** The explicit metadata options: the last option naming a key decides its entry, and
    * --delete-meta stores null. */
  lemma {:induction false} ExplicitMetaLastWins(o: ReplaceOptions, args: seq<ReplaceArg>, i: nat, key: string)
    requires i < |args| && Names(args[i], key)
    requires forall j | i < j < |args| :: !Names(args[j], key)
    requires ParseArgsFrom(o, args).Ok?
    ensures key in ParseArgsFrom(o, args).value.meta
    ensures ParseArgsFrom(o, args).value.meta[key] == MetaEntry(args[i]).value.1
    decreases |args|
  {
    var step := ApplyArg(o, args[0]);
    if i == 0 {
      MetaKept(step.value, args[1..], key);
    } else {
      ExplicitMetaLastWins(step.value, args[1..], i - 1, key);
    }
  }

  /** validateOptions: -o is mandatory; -i or a metadata source (--title, --author, --subject,
    * --delete-meta, --meta-from) is required; an -m operation needs -i. */
  function ValidateReplace(output: Option<string>, o: ReplaceOptions): (r: Validation)
    ensures r == Continue <==>
      && output.Some?
      && (o.inputFile.Some? || |o.meta| > 0 || o.metaFrom.Some?)
      && (o.inputFile.Some? || forall k | 0 <= k < |o.operations| :: o.operations[k].source.None?)
    ensures output.None? ==> r == Usage("-o output option is mandatory")
    ensures output.Some? && o.inputFile.None? && |o.meta| == 0 && o.metaFrom.None?
      ==> r == Usage(INPUT_OR_META_MESSAGE)
    ensures r == Usage(INPUT_FOR_OPERATIONS_MESSAGE) ==>
      && o.inputFile.None?
      && exists k | 0 <= k < |o.operations| :: o.operations[k].source.Some?
  {
    if output.None? then Usage("-o output option is mandatory")
    else if o.inputFile.None? && (|o.meta| == 0 && o.metaFrom.None?) then
      Usage(INPUT_OR_META_MESSAGE)
    else if HasReplace(o.operations) && o.inputFile.None? then
      Usage(INPUT_FOR_OPERATIONS_MESSAGE)
    else Continue
  }

  predicate HasReplace(ops: seq<Operation>) {
    exists k | 0 <= k < |ops| :: ops[k].source.Some?
  }

  // ---------------------------------------------------------------------------------------------
  // Pages

  /** An output page: a page of the document itself, a page of -i, or a blank page. */
  datatype Page = BasePage(index: nat) | InputPage(index: nat) | Blank

  function BasePages(count: nat): (r: seq<Page>)
    ensures |r| == count && forall i | 0 <= i < count :: r[i] == BasePage(i)
  {
    seq(count, i requires 0 <= i => BasePage(i))
  }

  function OutOfBounds<T>(index: int, length: nat): Result<T> {
    Fail(IndexOutOfBounds, "Index " + IntToString(index) + " out of bounds for length " + IntToString(length))
  }

  /** The renderer's insertBlankPage: a blank page at index d. */
  function InsertBlank(pages: seq<Page>, d: int): (r: Result<seq<Page>>)
    ensures r.Ok? <==> 0 <= d <= |pages|
    ensures r.Ok? ==>
      && |r.value| == |pages| + 1 && r.value[d] == Blank
      && r.value[..d] == pages[..d] && r.value[d + 1..] == pages[d..]
  {
    if 0 <= d <= |pages| then Ok(pages[..d] + [Blank] + pages[d..]) else OutOfBounds(d, |pages|)
  }

  /** The renderer's replacePage: page at index i becomes `page`. */
  function ReplaceAt(pages: seq<Page>, i: int, page: Page): (r: Result<seq<Page>>)
    ensures r.Ok? <==> 0 <= i < |pages|
    ensures r.Ok? ==>
      && |r.value| == |pages| && r.value[i] == page
      && forall j | 0 <= j < |pages| && j != i :: r.value[j] == pages[j]
  {
    if 0 <= i < |pages| then Ok(pages[i := page]) else OutOfBounds(i, |pages|)
  }

  /** One operation with -i of `inputCount` pages: (d, none) inserts a blank page at d, and
    * (d, s) replaces page d-1 by input page s-1 (List.get throws first for a bad s). */
  function RunOperation(pages: seq<Page>, inputCount: nat, op: Operation): Result<seq<Page>> {
    if op.source.None? then InsertBlank(pages, op.dest)
    else if !(0 <= op.source.value - 1 < inputCount) then OutOfBounds(op.source.value - 1, inputCount)
    else ReplaceAt(pages, op.dest - 1, InputPage(op.source.value - 1))
  }

  /** Without -i, only the blank insertions run. */
  function RunInsertion(pages: seq<Page>, op: Operation): Result<seq<Page>> {
    if op.source.None? then InsertBlank(pages, op.dest) else Ok(pages)
  }

  /** The operations in order, stopping at the first that throws; `input` is the page count of
    * -i when it is given. */
  function Applied(pages: seq<Page>, input: Option<nat>, ops: seq<Operation>): Result<seq<Page>>
    decreases |ops|
  {
    if |ops| == 0 then Ok(pages)
    else
      var before :- Applied(pages, input, ops[..|ops| - 1]);
      if input.Some? then RunOperation(before, input.value, ops[|ops| - 1])
      else RunInsertion(before, ops[|ops| - 1])
  }

  /** The blank insertions among the operations, in order. */
  function Insertions(ops: seq<Operation>): (r: seq<Operation>)
    ensures forall k | 0 <= k < |r| :: r[k].source.None?
  {
    if |ops| == 0 then []
    else Insertions(ops[..|ops| - 1]) + if ops[|ops| - 1].source.None? then [ops[|ops| - 1]] else []
  }

  /** Without -i the replace operations are skipped: the result is that of running only the
    * insertions, with any -i. */
  lemma {:induction false} WithoutInputOnlyInsertions(pages: seq<Page>, ops: seq<Operation>, n: nat)
    ensures Applied(pages, None, ops) == Applied(pages, Some(n), Insertions(ops))
    decreases |ops|
  {
    if |ops| > 0 {
      var init := ops[..|ops| - 1];
      WithoutInputOnlyInsertions(pages, init, n);
      var last := ops[|ops| - 1];
      if last.source.None? {
        var ins := Insertions(ops);
        assert ins[..|ins| - 1] == Insertions(init);
      } else {
        assert Insertions(ops) == Insertions(init);
      }
    }
  }

  /** Each insertion adds one page and a replacement keeps the count. */
  lemma {:induction false} AppliedCount(pages: seq<Page>, input: Option<nat>, ops: seq<Operation>)
    requires Applied(pages, input, ops).Ok?
    ensures |Applied(pages, input, ops).value| == |pages| + |Insertions(ops)|
    decreases |ops|
  {
    if |ops| > 0 {
      AppliedCount(pages, input, ops[..|ops| - 1]);
    }
  }

  /** The body of the loop over the operations: with -i an insertion or a replacement, without
    * it only an insertion. */
  method RunOne(current: seq<Page>, input: Option<nat>, op: Operation) returns (step: Result<seq<Page>>)
    ensures step == if input.Some? then RunOperation(current, input.value, op) else RunInsertion(current, op)
  {
    if input.Some? {
      if op.source.None? {
        step := InsertBlank(current, op.dest);
      } else if !(0 <= op.source.value - 1 < input.value) {
        step := OutOfBounds(op.source.value - 1, input.value);
      } else {
        step := ReplaceAt(current, op.dest - 1, InputPage(op.source.value - 1));
      }
    } else {
      step := if op.source.None? then InsertBlank(current, op.dest) else Ok(current);
    }
  }

  /** The loop over the operations. */
  method ApplyOperations(pages: seq<Page>, input: Option<nat>, ops: seq<Operation>)
    returns (r: Result<seq<Page>>)
    ensures r == Applied(pages, input, ops)
  {
    var current := pages;
    for i := 0 to |ops|
      invariant Applied(pages, input, ops[..i]) == Ok(current)
    {
      var step := RunOne(current, input, ops[i]);
      AppliedNext(pages, input, ops, i, current);
      if step.Err? {
        AppliedStopsAtError(pages, input, ops, i + 1);
        assert ops[..|ops|] == ops;
        return step;
      }
      current := step.value;
    }
    assert ops[..|ops|] == ops;
    r := Ok(current);
  }

  /** The operations up to i + 1: operation i run on the result of those before it. */
  lemma AppliedNext(pages: seq<Page>, input: Option<nat>, ops: seq<Operation>, i: nat, current: seq<Page>)
    requires i < |ops| && Applied(pages, input, ops[..i]) == Ok(current)
    ensures Applied(pages, input, ops[..i + 1]) ==
      if input.Some? then RunOperation(current, input.value, ops[i]) else RunInsertion(current, ops[i])
  {
    assert ops[..i + 1][..i] == ops[..i];
  }

  /** Once an operation throws, the later ones do not run. */
  lemma {:induction false} AppliedStopsAtError(pages: seq<Page>, input: Option<nat>, ops: seq<Operation>, i: nat)
    requires i <= |ops| && Applied(pages, input, ops[..i]).Err?
    ensures Applied(pages, input, ops) == Applied(pages, input, ops[..i])
    decreases |ops| - i
  {
    if i < |ops| {
      assert ops[..i + 1][..i] == ops[..i];
      AppliedStopsAtError(pages, input, ops, i + 1);
    } else {
      assert ops[..i] == ops;
    }
  }

  // ---------------------------------------------------------------------------------------------
  // Metadata

  /** The document information entries; None is a value that is not a string (read as null). */
  type Meta = map<string, Option<string>>

  /** The merged entries of execute: the document's own unless --replace-meta (or
    * --delete-all-meta), cleared by --delete-all-meta, then --meta-from's, then the explicit
    * options'. */
  function MergedMeta(o: ReplaceOptions, base: Meta, metaFrom: Meta): (r: Meta)
    ensures forall k :: k in r <==>
      k in o.meta || (o.metaFrom.Some? && k in metaFrom) || (!o.replaceMeta && !o.deleteAllMeta && k in base)
    ensures forall k | k in o.meta :: r[k] == o.meta[k]
    ensures forall k | k !in o.meta && o.metaFrom.Some? && k in metaFrom :: r[k] == metaFrom[k]
    ensures forall k | k in r && k !in o.meta && !(o.metaFrom.Some? && k in metaFrom) :: r[k] == base[k]
  {
    var kept := if !o.replaceMeta then base else map[];
    var cleared := if o.deleteAllMeta then map[] else kept;
    var withFrom := if o.metaFrom.Some? then cleared + metaFrom else cleared;
    withFrom + o.meta
  }

  /** The document information after writing the merged entries: every key the output had is
    * first set to null, then each merged entry is set; setting null removes a key. */
  ghost predicate WrittenInfo(info: map<string, string>, meta: Meta) {
    && (forall k :: k in info <==> k in meta && meta[k].Some?)
    && (forall k | k in info :: info[k] == meta[k].value)
  }

  /** setCustomMetadataValue: a null value removes the key. */
  function SetValue(info: map<string, string>, key: string, value: Option<string>): (r: map<string, string>)
    ensures forall k | k != key :: (k in r <==> k in info) && (k in r ==> r[k] == info[k])
    ensures key in r <==> value.Some?
    ensures value.Some? ==> r[key] == value.value
  {
    if value.Some? then info[key := value.value] else info - {key}
  }

  /** The two loops at the end of execute. */
  method WriteInfo(info: map<string, string>, meta: Meta) returns (written: map<string, string>)
    ensures WrittenInfo(written, meta)
  {
    written := info;
    var existing := info.Keys;
    while existing != {}
      invariant existing <= written.Keys
      invariant forall k | k in written :: k in existing
      decreases existing
    {
      var key :| key in existing;
      written := SetValue(written, key, None);
      existing := existing - {key};
    }
    var pending := meta.Keys;
    while pending != {}
      invariant pending <= meta.Keys
      invariant forall k :: k in written <==> k in meta && k !in pending && meta[k].Some?
      invariant forall k | k in written :: written[k] == meta[k].value
      decreases pending
    {
      var key :| key in pending;
      written := SetValue(written, key, meta[key]);
      pending := pending - {key};
    }
  }

  // ---------------------------------------------------------------------------------------------
  // execute

  /** The rebuilt output document. */
  datatype Document = Document(pages: seq<Page>, info: map<string, string>)

  /** execute: the output's `basePages` pages are copied, the operations run (with -i when it is
    * given, of `inputPages` pages), and the information is replaced by the merged entries.
    * `base` is the output's own metadata, `infoKeys` the keys the copy starts with and
    * `metaFrom` the metadata of --meta-from's document. */
  method Execute(o: ReplaceOptions, basePages: nat, base: Meta, infoKeys: map<string, string>,
                 inputPages: nat, metaFrom: Meta)
    returns (r: Result<Document>)
    ensures var input := if o.inputFile.Some? then Some(inputPages) else None;
      r.Ok? <==> Applied(BasePages(basePages), input, o.operations).Ok?
    ensures var input := if o.inputFile.Some? then Some(inputPages) else None;
      r.Ok? ==>
        && r.value.pages == Applied(BasePages(basePages), input, o.operations).value
        && WrittenInfo(r.value.info, MergedMeta(o, base, metaFrom))
  {
    var input := if o.inputFile.Some? then Some(inputPages) else None;
    var pages := ApplyOperations(BasePages(basePages), input, o.operations);
    if pages.Err? {
      return Err(pages.error);
    }
    var meta := MergedMeta(o, base, metaFrom);
    var info := WriteInfo(infoKeys, meta);
    r := Ok(Document(pages.value, info));
  }

  /** With -i, "-m 2=5" makes page 2 of the output page 5 of the input. */
  lemma ReplaceExample(pages: seq<Page>)
    requires |pages| >= 2
    ensures Applied(pages, Some(5), [Operation(2, Some(5))]) == Ok(pages[1 := InputPage(4)])
  {
    assert [Operation(2, Some(5))][..0] == [];
  }
}
