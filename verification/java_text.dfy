/** The pieces of java.lang string and integer behaviour that the modelled code relies on:
  * String.split, String.isBlank, Integer.parseInt / Long.parseLong, Integer.toString,
  * String.format("%0Nd") and two's-complement wrap-around. */
module JavaText {
  import opened Wrappers

  const INT_MIN: int := -0x8000_0000
  const INT_MAX: int := 0x7fff_ffff
  const LONG_MIN: int := -0x8000_0000_0000_0000
  const LONG_MAX: int := 0x7fff_ffff_ffff_ffff

  /** Java `int` arithmetic: the result of an operation reduced to 32-bit two's complement. */
  function Wrap32(x: int): (r: int)
    ensures INT_MIN <= r <= INT_MAX
    ensures INT_MIN <= x <= INT_MAX ==> r == x
  {
    (x - INT_MIN) % 0x1_0000_0000 + INT_MIN
  }

  /** Wrapping an intermediate result changes nothing: `int` addition wraps the same either way. */
  lemma Wrap32Add(x: int, y: int)
    ensures Wrap32(Wrap32(x) + y) == Wrap32(x + y)
  {
    var q := (x - INT_MIN) / 0x1_0000_0000;
    assert Wrap32(x) == x - q * 0x1_0000_0000;
    assert (x + y - INT_MIN - q * 0x1_0000_0000) % 0x1_0000_0000 == (x + y - INT_MIN) % 0x1_0000_0000;
  }

  /** Java's `/` on a positive divisor: the quotient truncated toward zero. */
  function JavaDiv(a: int, b: int): (q: int)
    requires b > 0
    ensures a >= 0 ==> q == a / b
    ensures a < 0 ==> q == -((-a) / b)
  {
    if a >= 0 then a / b else -((-a) / b)
  }

  /** Java's `%` on a positive divisor: the remainder takes the sign of the dividend. */
  function JavaRem(a: int, b: int): (r: int)
    requires b > 0
    ensures a == JavaDiv(a, b) * b + r
    ensures a >= 0 ==> 0 <= r < b
    ensures a < 0 ==> -b < r <= 0
  {
    a - JavaDiv(a, b) * b
  }

  /** Java `long` arithmetic: the result of an operation reduced to 64-bit two's complement. */
  function Wrap64(x: int): (r: int)
    ensures LONG_MIN <= r <= LONG_MAX
    ensures LONG_MIN <= x <= LONG_MAX ==> r == x
  {
    (x - LONG_MIN) % 0x1_0000_0000_0000_0000 + LONG_MIN
  }

  /** Character.isWhitespace: Unicode space separators other than the no-break ones,
    * and the ASCII control characters U+0009..U+000D, U+001C..U+001F. */
  predicate IsWhitespace(c: char) {
    || c == ' ' || c == '\t' || c == '\n' || c == '\U{000B}' || c == '\U{000C}' || c == '\r'
    || ('\U{001C}' <= c <= '\U{001F}')
    || c == '\U{1680}' || ('\U{2000}' <= c <= '\U{2006}') || ('\U{2008}' <= c <= '\U{200A}')
    || c == '\U{2028}' || c == '\U{2029}' || c == '\U{205F}' || c == '\U{3000}'
  }

  /** String.isBlank: empty or whitespace only. */
  predicate IsBlank(s: string) {
    forall i | 0 <= i < |s| :: IsWhitespace(s[i])
  }

  predicate StartsWith(s: string, prefix: string) {
    |prefix| <= |s| && s[..|prefix|] == prefix
  }

  /** String.indexOf(char): the first position of `c`, or -1. */
  function IndexOf(s: string, c: char): (r: int)
    ensures -1 <= r < |s|
    ensures r == -1 <==> c !in s
    ensures r >= 0 ==> s[r] == c && c !in s[..r]
  {
    if |s| == 0 then -1
    else if s[0] == c then 0
    else
      var r := IndexOf(s[1..], c);
      assert s[1..][..if r < 0 then 0 else r] == s[1..1 + if r < 0 then 0 else r];
      assert r < 0 ==> s == [s[0]] + s[1..];
      if r < 0 then -1 else r + 1
  }

  /** Splitting at every `c`, keeping every piece (also the empty ones). */
  function RawSplit(s: string, c: char): (r: seq<string>)
    ensures |r| >= 1
    ensures forall k | 0 <= k < |r| :: c !in r[k]
    decreases |s|
  {
    var i := IndexOf(s, c);
    if i < 0 then [s] else [s[..i]] + RawSplit(s[i + 1..], c)
  }

  function DropTrailingEmpty(parts: seq<string>): (r: seq<string>)
    ensures |r| <= |parts| && r == parts[..|r|]
    ensures |r| > 0 ==> |r[|r| - 1]| > 0
    ensures forall k | |r| <= k < |parts| :: |parts[k]| == 0
  {
    if |parts| == 0 then []
    else if |parts[|parts| - 1]| == 0 then DropTrailingEmpty(parts[..|parts| - 1])
    else parts
  }

  /** String.split with a one-character literal separator and limit 0: when the separator
    * does not occur the string itself is the only piece; otherwise trailing empty pieces are dropped. */
  function Split(s: string, c: char): seq<string> {
    if c !in s then [s] else DropTrailingEmpty(RawSplit(s, c))
  }

  /** String.join / Collectors.joining with a one-character separator. */
  function Join(parts: seq<string>, sep: char): (r: string)
    ensures |parts| == 1 ==> r == parts[0]
  {
    if |parts| == 0 then ""
    else if |parts| == 1 then parts[0]
    else parts[0] + [sep] + Join(parts[1..], sep)
  }

  lemma IndexOfAfter(a: string, c: char, b: string)
    requires c !in a
    ensures IndexOf(a + [c] + b, c) == |a|
  {
    var s := a + [c] + b;
    assert s[..|a| + 1] == a + [c];
    var i := IndexOf(s, c);
    assert i <= |a| by {
      assert s[|a|] == c;
    }
    assert i >= |a| by {
      assert s[..|a|] == a;
    }
  }

  /** Splitting a joined list at the separator gives the list back, when no piece holds the separator. */
  lemma {:induction false} RawSplitOfJoin(parts: seq<string>, c: char)
    requires |parts| >= 1
    requires forall k | 0 <= k < |parts| :: c !in parts[k]
    ensures RawSplit(Join(parts, c), c) == parts
    decreases |parts|
  {
    if |parts| > 1 {
      var tail := parts[1..];
      assert forall k | 0 <= k < |tail| :: tail[k] == parts[k + 1];
      RawSplitOfJoin(tail, c);
      assert Join(parts, c) == parts[0] + [c] + Join(tail, c);
      RawSplitCons(parts[0], c, Join(tail, c));
      assert parts == [parts[0]] + tail;
    }
  }

  /** The first piece of a split ends at the first separator. */
  lemma RawSplitCons(a: string, c: char, b: string)
    requires c !in a
    ensures RawSplit(a + [c] + b, c) == [a] + RawSplit(b, c)
  {
    var s := a + [c] + b;
    IndexOfAfter(a, c, b);
    assert s[..|a|] == a;
    assert s[|a| + 1..] == b;
  }

  /** String.split with a one-character literal separator and limit 2: split at the first `c` only. */
  function SplitOnce(s: string, c: char): (r: seq<string>)
    ensures c !in s ==> r == [s]
    ensures c in s ==> |r| == 2 && c !in r[0] && s == r[0] + [c] + r[1]
  {
    var i := IndexOf(s, c);
    if i < 0 then [s]
    else
      assert s == s[..i] + [c] + s[i + 1..];
      [s[..i], s[i + 1..]]
  }

  /** Character.toUpperCase restricted to the ASCII letters; every other character is kept. */
  function AsciiUpper(c: char): (u: char)
    ensures 'a' <= c <= 'z' ==> 'A' <= u <= 'Z' && u as int == c as int - 32
    ensures !('a' <= c <= 'z') ==> u == c
  {
    if 'a' <= c <= 'z' then (c as int - 32) as char else c
  }

  /** String.equalsIgnoreCase with ASCII case folding: equal lengths and equal characters once
    * lower-case ASCII letters are taken as upper-case. */
  predicate EqualsIgnoreCase(a: string, b: string) {
    |a| == |b| && forall i | 0 <= i < |a| :: AsciiUpper(a[i]) == AsciiUpper(b[i])
  }

  predicate IsAsciiDigit(c: char) {
    '0' <= c <= '9'
  }

  predicate AllAsciiDigits(s: string) {
    forall i | 0 <= i < |s| :: IsAsciiDigit(s[i])
  }

  function DigitValue(c: char): nat
    requires IsAsciiDigit(c)
  {
    (c - '0') as nat
  }

  function DigitChar(d: nat): (c: char)
    requires d < 10
    ensures IsAsciiDigit(c) && DigitValue(c) == d
  {
    ('0' as int + d) as char
  }

  /** The value of a decimal digit string, most significant digit first. */
  function DigitsValue(s: string): nat
    requires AllAsciiDigits(s)
  {
    if |s| == 0 then 0 else DigitsValue(s[..|s| - 1]) * 10 + DigitValue(s[|s| - 1])
  }

  /** Integer.parseInt / Long.parseLong (radix 10) over ASCII digits, with the range [lo, hi]. */
  function ParseSigned(s: string, lo: int, hi: int): Result<int> {
    var negative := |s| > 0 && s[0] == '-';
    var digits := if |s| > 0 && (s[0] == '-' || s[0] == '+') then s[1..] else s;
    if |digits| == 0 || !AllAsciiDigits(digits) then
      Fail(NumberFormat, "For input string: \"" + s + "\"")
    else
      var magnitude: int := DigitsValue(digits);
      var v := if negative then -magnitude else magnitude;
      if lo <= v <= hi then Ok(v) else Fail(NumberFormat, "For input string: \"" + s + "\"")
  }

  function ParseInt(s: string): Result<int> {
    ParseSigned(s, INT_MIN, INT_MAX)
  }

  function ParseLong(s: string): Result<int> {
    ParseSigned(s, LONG_MIN, LONG_MAX)
  }

  /** Integer.toString of a non-negative value. */
  function NatToString(n: nat): (r: string)
    ensures |r| >= 1 && AllAsciiDigits(r)
  {
    if n < 10 then [DigitChar(n)] else NatToString(n / 10) + [DigitChar(n % 10)]
  }

  /** Integer.toString. */
  function IntToString(n: int): string {
    if n < 0 then "-" + NatToString(-n) else NatToString(n)
  }

  /** String.format("%0<width>d", n) for a non-negative n. */
  function ZeroPad(n: nat, width: nat): (r: string)
    ensures |r| >= width
  {
    var digits := NatToString(n);
    if |digits| < width then seq(width - |digits|, _ => '0') + digits else digits
  }

  lemma {:induction false} DigitsOfNatToString(n: nat)
    ensures DigitsValue(NatToString(n)) == n
    decreases n
  {
    if n >= 10 {
      var prefix := NatToString(n / 10);
      var s := prefix + [DigitChar(n % 10)];
      assert s[..|s| - 1] == prefix;
      DigitsOfNatToString(n / 10);
    }
  }

  lemma {:induction false} LeadingZeros(z: string, d: string)
    requires forall i | 0 <= i < |z| :: z[i] == '0'
    requires AllAsciiDigits(d)
    ensures AllAsciiDigits(z + d) && DigitsValue(z + d) == DigitsValue(d)
    decreases |z| + |d|
  {
    if |d| == 0 {
      assert z + d == z;
      if |z| > 0 {
        LeadingZeros(z[..|z| - 1], d);
        assert z[..|z| - 1] + d == z[..|z| - 1];
      }
    } else {
      LeadingZeros(z, d[..|d| - 1]);
      assert (z + d)[..|z + d| - 1] == z + d[..|d| - 1];
    }
  }

  /** A zero-padded number reads back as the number, so padding keeps numbers apart. */
  lemma ZeroPadValue(n: nat, width: nat)
    ensures AllAsciiDigits(ZeroPad(n, width)) && DigitsValue(ZeroPad(n, width)) == n
  {
    var digits := NatToString(n);
    DigitsOfNatToString(n);
    if |digits| < width {
      LeadingZeros(seq(width - |digits|, _ => '0'), digits);
    }
  }

  /** Integer.parseInt(Integer.toString(n)) == n: a decimal cell written back reads back. */
  lemma ParseIntOfIntToString(n: int)
    requires INT_MIN <= n <= INT_MAX
    ensures ParseInt(IntToString(n)) == Ok(n)
  {
    if n < 0 {
      DigitsOfNatToString(-n);
      ParseSignedNegative(NatToString(-n), INT_MIN, INT_MAX);
    } else {
      DigitsOfNatToString(n);
      ParseSignedUnsigned(NatToString(n), INT_MIN, INT_MAX);
    }
  }

  /** A '-' followed by digits parses as the negated digits' value when that is in range. */
  lemma ParseSignedNegative(digits: string, lo: int, hi: int)
    requires |digits| > 0 && AllAsciiDigits(digits) && lo <= -(DigitsValue(digits) as int) <= hi
    ensures ParseSigned(['-'] + digits, lo, hi) == Ok(-(DigitsValue(digits) as int))
  {
    var s := ['-'] + digits;
    assert s[0] == '-';
    assert s[1..] == digits;
    assert |s| > 0 && AllAsciiDigits(s[1..]) && DigitsValue(s[1..]) == DigitsValue(digits);
  }

  /** Digits without a sign parse as their value when that is in range. */
  lemma ParseSignedUnsigned(digits: string, lo: int, hi: int)
    requires |digits| > 0 && AllAsciiDigits(digits) && lo <= DigitsValue(digits) <= hi
    ensures ParseSigned(digits, lo, hi) == Ok(DigitsValue(digits))
  {
    assert IsAsciiDigit(digits[0]);
  }
}
