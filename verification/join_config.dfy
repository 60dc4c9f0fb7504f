/** command/JoinExhibitCommand.readIndexConfig: the "config" sheet of the index, keyed by its
  * "key" column, may choose the sworn text of the exhibit stamp. The sheet's entries are given in
  * row order, as readSheet yields them, or as readSheet's failure. */
module JoinExhibitConfig {
  import opened Wrappers
  import opened TableRows

  const VALUE_COLUMN: string := "value"
  const TEMPLATE_NAME: string := "exhibitTemplateName"
  const TEMPLATE_TEXT: string := "exhibitTemplateText"
  const MISSING_VALUE_MESSAGE: string := "Cannot find column: column=value"

  /** options.swornText: one of the two built-in templates, or a text of the index's own. */
  datatype Sworn = Swear | Affirm | SwornText(text: string)

  /** A config entry that names a known option and has a "value" cell. */
  predicate KnownEntry(e: Entry) {
    VALUE_COLUMN in e.row && (e.id == TEMPLATE_NAME || e.id == TEMPLATE_TEXT)
  }

  /** A known entry that can set the sworn text: a template text, or the name "swear" or "affirm". */
  predicate Settable(e: Entry) {
    KnownEntry(e) && (e.id == TEMPLATE_TEXT || e.row[VALUE_COLUMN] == "swear" || e.row[VALUE_COLUMN] == "affirm")
  }

  /** The sworn text a settable entry chooses. */
  function Chosen(e: Entry): (s: Sworn)
    requires Settable(e)
    ensures e.id == TEMPLATE_TEXT ==> s == SwornText(e.row[VALUE_COLUMN])
    ensures e.id == TEMPLATE_NAME ==> (s == Swear <==> e.row[VALUE_COLUMN] == "swear")
    ensures e.id == TEMPLATE_NAME ==> (s == Affirm <==> e.row[VALUE_COLUMN] == "affirm")
  {
    if e.id == TEMPLATE_TEXT then SwornText(e.row[VALUE_COLUMN])
    else if e.row[VALUE_COLUMN] == "swear" then Swear
    else Affirm
  }

  /** One iteration of the loop over the config entries. A sworn text already set (by the
    * command line or an earlier entry) is kept, and then a template name is not checked. */
  function ConfigStep(sworn: Option<Sworn>, e: Entry): Result<Option<Sworn>> {
    if VALUE_COLUMN !in e.row then Fail(IO, MISSING_VALUE_MESSAGE)
    else
      var value := e.row[VALUE_COLUMN];
      if e.id == TEMPLATE_NAME then
        if sworn.Some? then Ok(sworn)
        else if value == "swear" then Ok(Some(Swear))
        else if value == "affirm" then Ok(Some(Affirm))
        else Fail(IO, "Value for exhibitTemplate unsupported: got=" + value + " supported=swear,affirm")
      else if e.id == TEMPLATE_TEXT then
        if sworn.Some? then Ok(sworn) else Ok(Some(SwornText(value)))
      else Fail(IO, "Unknown config option=" + e.id + " supported=exhibitTemplateName")
  }

  /** The loop over the entries from the first on: the first failing entry ends it. */
  function ConfigFrom(sworn: Option<Sworn>, entries: seq<Entry>): Result<Option<Sworn>>
    decreases |entries|
  {
    if |entries| == 0 then Ok(sworn)
    else
      var next :- ConfigStep(sworn, entries[0]);
      ConfigFrom(next, entries[1..])
  }

  /** readIndexConfig: a missing config sheet (FileNotFoundException, which is also what a TSV
    * index gives) leaves the sworn text as it is; any other failure of readSheet propagates;
    * otherwise the entries are applied in row order. */
  method ReadIndexConfig(read: Result<seq<Entry>>, sworn: Option<Sworn>) returns (r: Result<Option<Sworn>>)
    ensures read.Err? && read.error.kind == FileNotFound ==> r == Ok(sworn)
    ensures read.Err? && read.error.kind != FileNotFound ==> r == Err(read.error)
    ensures read.Ok? ==> r == ConfigFrom(sworn, read.value)
  {
    if read.Err? {
      if read.error.kind == FileNotFound {
        return Ok(sworn);
      }
      return Err(read.error);
    }
    var entries := read.value;
    var current := sworn;
    var i := 0;
    while i < |entries|
      invariant 0 <= i <= |entries|
      invariant ConfigFrom(sworn, entries) == ConfigFrom(current, entries[i..])
    {
      assert entries[i..][1..] == entries[i + 1..];
      var step := ConfigStep(current, entries[i]);
      if step.Err? {
        return Err(step.error);
      }
      current := step.value;
      i := i + 1;
    }
    assert entries[i..] == [];
    return Ok(current);
  }

  /** With a sworn text already set, the config succeeds exactly when every entry is known and
    * has a value, and the sworn text stays as it was. */
  lemma {:induction false} ConfigKeepsSet(sworn: Option<Sworn>, entries: seq<Entry>)
    requires sworn.Some?
    ensures ConfigFrom(sworn, entries).Ok? <==> forall k | 0 <= k < |entries| :: KnownEntry(entries[k])
    ensures ConfigFrom(sworn, entries).Ok? ==> ConfigFrom(sworn, entries).value == sworn
    decreases |entries|
  {
    if |entries| > 0 {
      ConfigKeepsSet(sworn, entries[1..]);
      assert forall k | 1 <= k < |entries| :: entries[k] == entries[1..][k - 1];
    }
  }

  /** The whole config: it succeeds exactly when every entry is known and has a value and, if
    * nothing was set before, the first entry can set the sworn text. The result is the sworn
    * text set before, or else the one the first entry chooses (none for an empty sheet). */
  lemma ConfigOutcome(sworn: Option<Sworn>, entries: seq<Entry>)
    ensures ConfigFrom(sworn, entries).Ok? <==>
      && (forall k | 0 <= k < |entries| :: KnownEntry(entries[k]))
      && (sworn.None? && |entries| > 0 ==> Settable(entries[0]))
    ensures ConfigFrom(sworn, entries).Ok? ==>
      ConfigFrom(sworn, entries).value == (if sworn.Some? then sworn else if |entries| == 0 then None else Some(Chosen(entries[0])))
  {
    if sworn.Some? {
      ConfigKeepsSet(sworn, entries);
    } else if |entries| > 0 {
      var step := ConfigStep(sworn, entries[0]);
      assert step.Ok? <==> Settable(entries[0]);
      if step.Ok? {
        assert step.value == Some(Chosen(entries[0]));
        ConfigKeepsSet(step.value, entries[1..]);
        assert forall k | 1 <= k < |entries| :: entries[k] == entries[1..][k - 1];
      }
    }
  }

  /** An entry of another key fails the run, even after the sworn text is set. */
  lemma UnknownKeyFails(sworn: Option<Sworn>, entries: seq<Entry>, k: nat)
    requires k < |entries| && entries[k].id != TEMPLATE_NAME && entries[k].id != TEMPLATE_TEXT
    ensures ConfigFrom(sworn, entries).Err?
  {
    ConfigOutcome(sworn, entries);
  }
}
