/**
 * Character and string primitives the Kotlin code takes from its standard library:
 * case folding (`lowercase(Locale.ROOT)`, `equals(ignoreCase = true)`,
 * `startsWith(prefix, ignoreCase = true)`), `isBlank`, `joinToString(" ")`,
 * `Int.toString()` and `String.toIntOrNull()`.
 */
module Text {
  import opened Wrappers

  /** Kotlin's `Int.MIN_VALUE` and `Int.MAX_VALUE`: the parsed integer range. */
  const INT_MIN: int := -0x8000_0000
  const INT_MAX: int := 0x7fff_ffff

  // ---------------------------------------------------------------- case

  /** Lower-case one character; only the ASCII letters A-Z have a lower-case form here. */
  function LowerChar(c: char): char {
    if 'A' <= c <= 'Z' then (c as int + 32) as char else c
  }

  /** `lowercase(Locale.ROOT)`, character by character. */
  function Lower(s: string): (r: string)
    ensures |r| == |s|
  {
    seq(|s|, i requires 0 <= i < |s| => LowerChar(s[i]))
  }

  /** `a.equals(b, ignoreCase = true)`: equal lengths, and the characters agree pairwise up to case. */
  predicate EqualsIgnoreCase(a: string, b: string)
    decreases |a|
  {
    |a| == |b| && (|a| == 0 || (LowerChar(a[0]) == LowerChar(b[0]) && EqualsIgnoreCase(a[1..], b[1..])))
  }

  /** Comparing ignoring case is comparing the lower-cased strings. */
  lemma {:induction false} EqualsIgnoreCaseIsLower(a: string, b: string)
    ensures EqualsIgnoreCase(a, b) <==> Lower(a) == Lower(b)
    decreases |a|
  {
    if |a| == |b| && |a| > 0 {
      EqualsIgnoreCaseIsLower(a[1..], b[1..]);
      assert Lower(a) == [LowerChar(a[0])] + Lower(a[1..]);
      assert Lower(b) == [LowerChar(b[0])] + Lower(b[1..]);
      if Lower(a) == Lower(b) {
        assert Lower(a)[1..] == Lower(a[1..]) && Lower(b)[1..] == Lower(b[1..]);
      }
    }
  }

  /** `s.startsWith(p)` (case-sensitive). */
  predicate IsPrefix(p: string, s: string) {
    |p| <= |s| && s[..|p|] == p
  }

  /** `s.startsWith(p, ignoreCase = true)`: the first `|p|` characters agree up to case. */
  predicate StartsWithIgnoreCase(s: string, p: string) {
    |p| <= |s| && EqualsIgnoreCase(s[..|p|], p)
  }

  /** The two spellings of a case-insensitive prefix test found in the code base agree:
      `s.startsWith(p, ignoreCase = true)` holds iff `s.lowercase().startsWith(p.lowercase())`. */
  lemma StartsWithIgnoreCaseIsLowerPrefix(s: string, p: string)
    ensures StartsWithIgnoreCase(s, p) <==> IsPrefix(Lower(p), Lower(s))
  {
    if |p| <= |s| {
      EqualsIgnoreCaseIsLower(s[..|p|], p);
      assert Lower(s)[..|p|] == Lower(s[..|p|]);
    }
  }

  /** The prefix test spelled `prefix.isEmpty() || value.lowercase().startsWith(prefix.lowercase())`. */
  predicate HasPrefixIgnoreCase(value: string, prefix: string) {
    |prefix| == 0 || IsPrefix(Lower(prefix), Lower(value))
  }

  /** The guarded spelling and `startsWith(prefix, ignoreCase = true)` accept the same values. */
  lemma HasPrefixIgnoreCaseIsStartsWith(value: string, prefix: string)
    ensures HasPrefixIgnoreCase(value, prefix) <==> StartsWithIgnoreCase(value, prefix)
  {
    StartsWithIgnoreCaseIsLowerPrefix(value, prefix);
    if |prefix| == 0 {
      assert value[..0] == prefix;
    }
  }

  /** Lower-casing twice is lower-casing once. */
  lemma LowerIdempotent(s: string)
    ensures Lower(Lower(s)) == Lower(s)
  {
  }

  /** A string without capital letters is its own lower case. */
  lemma LowerOfNoCapitals(s: string)
    requires forall i :: 0 <= i < |s| ==> !('A' <= s[i] <= 'Z')
    ensures Lower(s) == s
  {
  }

  // ---------------------------------------------------------------- blank

  /** Kotlin's `Char.isWhitespace()`: Java whitespace plus the Unicode space separators. */
  predicate IsWhitespace(c: char) {
    var k := c as int;
    || k == 0x20 || (0x09 <= k <= 0x0D) || (0x1C <= k <= 0x1F)
    || k == 0xA0 || k == 0x1680 || (0x2000 <= k <= 0x200A)
    || k == 0x2028 || k == 0x2029 || k == 0x202F || k == 0x205F || k == 0x3000
  }

  /** `isBlank()`: every character is whitespace (so the empty string is blank). */
  predicate IsBlank(s: string) {
    forall i :: 0 <= i < |s| ==> IsWhitespace(s[i])
  }

  // ---------------------------------------------------------------- join

  /** `joinToString(" ")`. */
  function JoinWithSpace(tokens: seq<string>): string
    decreases |tokens|
  {
    if |tokens| == 0 then ""
    else if |tokens| == 1 then tokens[0]
    else tokens[0] + " " + JoinWithSpace(tokens[1..])
  }

  // ---------------------------------------------------------------- integers

  predicate IsDigit(c: char) {
    '0' <= c <= '9'
  }

  predicate AllDigits(s: string) {
    forall i :: 0 <= i < |s| ==> IsDigit(s[i])
  }

  function DigitChar(d: nat): char
    requires d < 10
  {
    ('0' as int + d) as char
  }

  /** The decimal value of a digit string, read most significant digit first. */
  function DigitsValue(s: string): nat
    requires AllDigits(s)
    decreases |s|
  {
    if |s| == 0 then 0
    else DigitsValue(s[..|s| - 1]) * 10 + (s[|s| - 1] as int - '0' as int)
  }

  /** The shortest decimal spelling of `n` (no leading zeros). */
  function NatToDigits(n: nat): (r: string)
    ensures |r| > 0 && AllDigits(r)
    decreases n
  {
    if n < 10 then [DigitChar(n)] else NatToDigits(n / 10) + [DigitChar(n % 10)]
  }

  /** `Int.toString()`. */
  function IntToString(v: int): string {
    if v < 0 then "-" + NatToDigits(-v) else NatToDigits(v)
  }

  function InIntRange(v: int): Option<int> {
    if INT_MIN <= v <= INT_MAX then Some(v) else None
  }

  /**
   * `String.toIntOrNull()`: an optional leading '-' or '+', then at least one digit,
   * and a value that fits in 32 bits; anything else is `None`.
   */
  function ToIntOrNull(s: string): Option<int> {
    if |s| == 0 then None
    else if s[0] < '0' then
      if |s| == 1 then None
      else if s[0] == '-' && AllDigits(s[1..]) then InIntRange(0 - DigitsValue(s[1..]))
      else if s[0] == '+' && AllDigits(s[1..]) then InIntRange(DigitsValue(s[1..]))
      else None
    else if AllDigits(s) then InIntRange(DigitsValue(s))
    else None
  }

  lemma {:induction false} DigitsValueOfNatToDigits(n: nat)
    ensures DigitsValue(NatToDigits(n)) == n
    decreases n
  {
    var r := NatToDigits(n);
    if n < 10 {
      assert r[..0] == [];
    } else {
      DigitsValueOfNatToDigits(n / 10);
      assert r[..|r| - 1] == NatToDigits(n / 10);
    }
  }

  /** Reading back what `Int.toString()` writes gives the number again, for every 32-bit value. */
  lemma IntToStringRoundTrip(v: int)
    requires INT_MIN <= v <= INT_MAX
    ensures ToIntOrNull(IntToString(v)) == Some(v)
  {
    var n: nat := if v < 0 then -v else v;
    DigitsValueOfNatToDigits(n);
    var d := NatToDigits(n);
    assert '0' <= d[0] <= '9';
    if v < 0 {
      var s := "-" + d;
      assert s[1..] == d;
    }
  }
}
