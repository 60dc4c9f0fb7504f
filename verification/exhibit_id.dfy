/** Exhibit labels: the two-character label drawn for an exhibit counter, and parseExhibitId,
  * which reads an upper-case letter sequence back as a base-26 number with A = 0. */
module ExhibitId {
  import opened Wrappers
  import opened JavaText

  const INVALID_CHARACTER_MESSAGE: string := "Invalid character in exhibitId, only uppercase letters allowed: "

  const EMPTY_ID_MESSAGE: string := "exhibitId must be non empty uppercase letter sequence"

  const LABEL_BASE: int := 26
  const MAX_CODE_POINT: int := 0x10_FFFF

  predicate IsUpper(c: char) {
    'A' <= c <= 'Z'
  }

  function LetterValue(c: char): int {
    c as int - 'A' as int
  }

  /** Character.isValidCodePoint: what `%c` accepts for an int argument. */
  predicate IsValidCodePoint(p: int) {
    0 <= p <= MAX_CODE_POINT
  }

  /** A valid code point a Dafny character can hold: anything but a surrogate. */
  predicate IsScalarValue(p: int) {
    IsValidCodePoint(p) && !(0xD800 <= p < 0xE000)
  }

  function HexDigit(d: nat): (c: char)
    requires d < 16
  {
    if d < 10 then ('0' as int + d) as char else ('a' as int + d - 10) as char
  }

  /** Integer.toHexString of a non-negative value: lower-case digits, no leading zeros. */
  function LowerHex(n: nat): (r: string)
    ensures |r| >= 1
  {
    if n < 16 then [HexDigit(n)] else LowerHex(n / 16) + [HexDigit(n % 16)]
  }

  /** The message of IllegalFormatCodePointException: the int formatted with `%#x`, so a
    * negative value shows as its 32-bit two's complement. */
  function CodePointMessage(p: int): string {
    "Code point = 0x" + LowerHex(p % 0x1_0000_0000)
  }

  /** String.format("%c%c", counter/26 + 'A', counter%26 + 'A') with Java's truncating division.
    * A first code point outside 0..U+10FFFF makes String.format throw
    * IllegalFormatCodePointException. A surrogate first code point, which Java prints as a lone
    * surrogate char, cannot be a Dafny character, and the model fails there too. The second code
    * point is always between '(' and 'Z'. */
  function Label(counter: int): (r: Result<string>)
    ensures 0 <= counter < LABEL_BASE * LABEL_BASE ==>
      r.Ok? && |r.value| == 2 && IsUpper(r.value[0]) && IsUpper(r.value[1])
      && (r.value[0] - 'A') as int == counter / LABEL_BASE && (r.value[1] - 'A') as int == counter % LABEL_BASE
    ensures r.Ok? ==> |r.value| == 2
    ensures !IsValidCodePoint(JavaDiv(counter, LABEL_BASE) + 'A' as int) ==>
      r == Fail(IllegalFormat, CodePointMessage(JavaDiv(counter, LABEL_BASE) + 'A' as int))
  {
    var high := JavaDiv(counter, LABEL_BASE) + 'A' as int;
    var low := JavaRem(counter, LABEL_BASE) + 'A' as int;
    if !IsValidCodePoint(high) then
      Fail(IllegalFormat, CodePointMessage(high))
    else if !IsScalarValue(high) then
      Fail(IllegalFormat, "Lone surrogate code point: " + IntToString(high))
    else
      Ok([high as char, low as char])
  }

  lemma HexOfCodePointLimit()
    ensures LowerHex(0x110000) == "110000"
  {
    assert LowerHex(0x11) == "11";
    assert LowerHex(0x110) == "110";
    assert LowerHex(0x1100) == "1100";
    assert LowerHex(0x11000) == "11000";
  }

  lemma HexOfAllOnes()
    ensures LowerHex(0xffff_ffff) == "ffffffff"
  {
    assert LowerHex(0xff) == "ff";
    assert LowerHex(0xfff) == "fff";
    assert LowerHex(0xffff) == "ffff";
    assert LowerHex(0xf_ffff) == "fffff";
    assert LowerHex(0xff_ffff) == "ffffff";
    assert LowerHex(0xfff_ffff) == "fffffff";
  }

  /** The first code point leaves the valid range at counter 28965222 (U+110000). */
  lemma LabelBeyondMaxCodePoint()
    ensures Label(28965222) == Fail(IllegalFormat, "Code point = 0x110000")
  {
    assert JavaDiv(28965222, LABEL_BASE) == 1114047;
    HexOfCodePointLimit();
  }

  /** Below 0 it leaves the range at counter -1716, which Java reports as 0xffffffff. */
  lemma LabelNegativeCodePoint()
    ensures Label(-1716) == Fail(IllegalFormat, "Code point = 0xffffffff")
  {
    assert JavaDiv(-1716, LABEL_BASE) == -66;
    HexOfAllOnes();
  }

  /** The value parseExhibitId accumulates, step by step in 32-bit int arithmetic, from `acc`. */
  function Accumulate(acc: int, s: string): int
    requires forall i | 0 <= i < |s| :: IsUpper(s[i])
    decreases |s|
  {
    if |s| == 0 then acc
    else Accumulate(Wrap32(acc * LABEL_BASE + LetterValue(s[0])), s[1..])
  }

  predicate IsExhibitId(s: string) {
    |s| > 0 && forall i | 0 <= i < |s| :: IsUpper(s[i])
  }

  function ExhibitValue(s: string): int
    requires IsExhibitId(s)
  {
    Accumulate(0, s)
  }

  /** parseExhibitId: an IllegalArgumentException for the empty string or for the first
    * character outside 'A'..'Z'; otherwise the base-26 value of the letters. */
  method ParseExhibitId(id: string) returns (r: Result<int>)
    ensures r.Ok? <==> IsExhibitId(id)
    ensures r.Ok? ==> r.value == ExhibitValue(id) && INT_MIN <= r.value <= INT_MAX
    ensures r.Err? ==> r.error.kind == IllegalArgument
  {
    var value := 0;
    if |id| == 0 {
      return Fail(IllegalArgument, EMPTY_ID_MESSAGE);
    }
    var i := 0;
    while i < |id|
      invariant 0 <= i <= |id|
      invariant forall j | 0 <= j < i :: IsUpper(id[j])
      invariant INT_MIN <= value <= INT_MAX
      invariant (forall j | i <= j < |id| :: IsUpper(id[j])) ==> Accumulate(value, id[i..]) == Accumulate(0, id)
    {
      var c := id[i];
      if c < 'A' || c > 'Z' {
        return Fail(IllegalArgument, INVALID_CHARACTER_MESSAGE + [c]);
      }
      assert id[i..][1..] == id[i + 1..];
      value := Wrap32(value * LABEL_BASE + LetterValue(c));
      i := i + 1;
    }
    assert id[i..] == [];
    return Ok(value);
  }

  /** Leading A's are worth nothing: "A", "AA" and "AAA" all read as 0. */
  lemma LeadingAIgnored(s: string)
    requires IsExhibitId(s)
    ensures ExhibitValue(['A'] + s) == ExhibitValue(s)
  {
    assert (['A'] + s)[1..] == s;
  }

  lemma LeadingAExamples()
    ensures ExhibitValue("A") == 0 && ExhibitValue("AA") == 0 && ExhibitValue("AAA") == 0
  {
    assert "AAA"[1..] == "AA";
    assert "AA"[1..] == "A";
  }

  /** Every label of a counter 0 <= c < 676 reads back as c. */
  lemma ExhibitValueOfLabel(counter: int)
    requires 0 <= counter < LABEL_BASE * LABEL_BASE
    ensures Label(counter).Ok? && IsExhibitId(Label(counter).value)
    ensures ExhibitValue(Label(counter).value) == counter
  {
    var s := Label(counter).value;
    assert s[1..][1..] == [];
    assert Accumulate(0, s) == Accumulate(Wrap32(LetterValue(s[0])), s[1..]);
  }

  /** Distinct counters in 0..675 get distinct labels. */
  lemma LabelInjective(c1: int, c2: int)
    requires 0 <= c1 < LABEL_BASE * LABEL_BASE && 0 <= c2 < LABEL_BASE * LABEL_BASE
    requires Label(c1) == Label(c2)
    ensures c1 == c2
  {
    ExhibitValueOfLabel(c1);
    ExhibitValueOfLabel(c2);
  }

  /** Counters outside 0..675 still get a label, but not one of two upper-case letters:
    * -1 gives "A@" and 676 gives "[A". */
  lemma LabelOutsideRange()
    ensures Label(-1) == Ok("A@")
    ensures Label(676) == Ok("[A")
  {
  }

  /** One letter of the accumulation, at position k. */
  lemma AccumulateAt(acc: int, s: string, k: nat)
    requires k < |s| && forall i | 0 <= i < |s| :: IsUpper(s[i])
    ensures Accumulate(acc, s[k..]) == Accumulate(Wrap32(acc * LABEL_BASE + LetterValue(s[k])), s[k + 1..])
  {
    assert s[k..][1..] == s[k + 1..];
  }

  /** The accumulation is not overflow checked: seven Z's wrap to a negative int. */
  lemma ExhibitValueWraps(s: string)
    requires |s| == 7 && forall i | 0 <= i < |s| :: s[i] == 'Z'
    ensures IsExhibitId(s) && ExhibitValue(s) == -558124417
  {
    assert s[0..] == s;
    AccumulateAt(0, s, 0);
    AccumulateAt(25, s, 1);
    AccumulateAt(675, s, 2);
    AccumulateAt(17575, s, 3);
    AccumulateAt(456975, s, 4);
    AccumulateAt(11881375, s, 5);
    AccumulateAt(308915775, s, 6);
    assert s[7..] == [];
    assert Wrap32(308915775 * LABEL_BASE + 25) == -558124417;
  }
}
