/** SizeFormat.parseSize: a byte count written as decimal digits and one unit letter. */
module SizeFormat {
  import opened Wrappers
  import opened JavaText

  const INVALID_SIZE_MESSAGE: string := "Invalid value for size, expected number followed by one of BKMGT, got: "

  predicate IsUnit(c: char) {
    c == 'B' || c == 'K' || c == 'M' || c == 'G' || c == 'T'
  }

  /** The whole input matches ^(\d+)([BKMGT])$ (Java's \d is the ASCII digits). */
  predicate MatchesSizePattern(s: string) {
    |s| >= 2 && AllAsciiDigits(s[..|s| - 1]) && IsUnit(s[|s| - 1])
  }

  /** The factor of a unit letter. The `requires` is why the switch's default branch cannot be reached. */
  function UnitFactor(c: char): (f: int)
    requires IsUnit(c)
    ensures f > 0
  {
    if c == 'B' then 1
    else if c == 'K' then 1024
    else if c == 'M' then 1024 * 1024
    else if c == 'G' then 1024 * 1024 * 1024
    else 1024 * 1024 * 1024 * 1024
  }

  /** parseSize: IllegalArgumentException when the pattern does not match, NumberFormatException
    * from Long.parseLong when the digits exceed the long range, and otherwise the number times
    * the unit factor in (wrapping) long arithmetic. */
  function ParseSize(s: string): (r: Result<int>)
    ensures !MatchesSizePattern(s) ==> r.Err? && r.error.kind == IllegalArgument
    ensures MatchesSizePattern(s) ==>
      (r.Ok? <==> DigitsValue(s[..|s| - 1]) <= LONG_MAX)
      && (r.Err? ==> r.error.kind == NumberFormat)
    ensures r.Ok? ==> LONG_MIN <= r.value <= LONG_MAX
  {
    if !MatchesSizePattern(s) then
      Fail(IllegalArgument, INVALID_SIZE_MESSAGE + s)
    else
      var digits := s[..|s| - 1];
      assert digits[0] != '-' && digits[0] != '+' by { assert IsAsciiDigit(digits[0]); }
      var size :- ParseLong(digits);
      Ok(Wrap64(size * UnitFactor(s[|s| - 1])))
  }

  /** Writing a size as digits and a unit and parsing it back gives n times the unit factor,
    * as long as that product fits in a long. */
  lemma ParseSizeOfFormatted(n: nat, unit: char)
    requires IsUnit(unit)
    requires n * UnitFactor(unit) <= LONG_MAX
    ensures ParseSize(NatToString(n) + [unit]) == Ok(n * UnitFactor(unit))
  {
    var s := NatToString(n) + [unit];
    var digits := NatToString(n);
    assert s[..|s| - 1] == digits;
    assert digits[0] != '-' && digits[0] != '+' by { assert IsAsciiDigit(digits[0]); }
    DigitsOfNatToString(n);
    var f := UnitFactor(unit);
    assert 0 <= n <= n * f by { NonNegativeProduct(n, f); }
    assert ParseLong(digits) == Ok(n);
  }

  /** For every input of the pattern whose digits fit a long, the value is the digits' value
    * times the unit factor, wrapped to 64 bits as the unchecked long multiplication does. Leading
    * zeros are allowed. */
  lemma ParseSizeValue(s: string)
    requires MatchesSizePattern(s) && DigitsValue(s[..|s| - 1]) <= LONG_MAX
    ensures ParseSize(s) == Ok(Wrap64(DigitsValue(s[..|s| - 1]) * UnitFactor(s[|s| - 1])))
  {
    var digits := s[..|s| - 1];
    ParseSignedUnsigned(digits, LONG_MIN, LONG_MAX);
  }

  /** When the product fits a long, the value is exactly the digits' value times the factor. */
  lemma ParseSizeExact(s: string)
    requires MatchesSizePattern(s)
    requires DigitsValue(s[..|s| - 1]) * UnitFactor(s[|s| - 1]) <= LONG_MAX
    ensures ParseSize(s) == Ok(DigitsValue(s[..|s| - 1]) * UnitFactor(s[|s| - 1]))
  {
    var n := DigitsValue(s[..|s| - 1]);
    NonNegativeProduct(n, UnitFactor(s[|s| - 1]));
    ParseSizeValue(s);
  }

  lemma NonNegativeProduct(n: nat, f: int)
    requires f > 0
    ensures 0 <= n <= n * f
  {
  }

  /** Appending a digit shifts the value one decimal place. */
  lemma DigitsValueSnoc(s: string, c: char)
    requires AllAsciiDigits(s) && IsAsciiDigit(c)
    ensures AllAsciiDigits(s + [c]) && DigitsValue(s + [c]) == DigitsValue(s) * 10 + DigitValue(c)
  {
    assert (s + [c])[..|s|] == s;
  }

  /** The digits of 2^23. */
  lemma DigitsOfTwoToTwentyThree()
    ensures AllAsciiDigits("8388608") && DigitsValue("8388608") == 8388608
  {
    DigitsValueSnoc("", '8');
    assert "" + ['8'] == "8";
    DigitsValueSnoc("8", '3');
    assert "8" + ['3'] == "83";
    DigitsValueSnoc("83", '8');
    assert "83" + ['8'] == "838";
    DigitsValueSnoc("838", '8');
    assert "838" + ['8'] == "8388";
    DigitsValueSnoc("8388", '6');
    assert "8388" + ['6'] == "83886";
    DigitsValueSnoc("83886", '0');
    assert "83886" + ['0'] == "838860";
    DigitsValueSnoc("838860", '8');
    assert "838860" + ['8'] == "8388608";
  }

  /** The multiplication is not overflow checked: 2^23 terabytes wrap to the smallest long. */
  lemma ParseSizeWraps()
    ensures ParseSize("8388608T") == Ok(LONG_MIN)
  {
    var s := "8388608T";
    assert s[..|s| - 1] == "8388608";
    DigitsOfTwoToTwentyThree();
    assert ParseLong("8388608") == Ok(8388608);
    assert UnitFactor('T') == 0x100_0000_0000;
  }

  /** A lower-case unit, a sign, an inner space or a missing unit are all rejected. */
  lemma ParseSizeRejects()
    ensures ParseSize("10k").Err? && ParseSize("10k").error.kind == IllegalArgument
    ensures ParseSize("+10K").Err? && ParseSize("+10K").error.kind == IllegalArgument
    ensures ParseSize("1 0K").Err? && ParseSize("1 0K").error.kind == IllegalArgument
    ensures ParseSize("10").Err? && ParseSize("10").error.kind == IllegalArgument
  {
    assert !IsAsciiDigit("+10K"[0]);
    assert !IsAsciiDigit("1 0K"[1]);
    assert !IsUnit("10"[1]);
  }
}
