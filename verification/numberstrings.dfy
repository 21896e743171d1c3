/**
 * `NumberStrings`: null-safe number-to-text helpers and the Bukkit colour-code conversions.
 * A number is an integer (`Option<int>`, `None` playing `null`); `java.text.DecimalFormat` is not
 * modelled: its output is passed in as `decimal(pattern, locale, value)` where the code calls it,
 * and whether its constructor accepts a pattern as `wellFormed(pattern)`.
 */
module NumberStrings {
  import opened Wrappers
  import opened Text

  /** A `java.util.Locale`, known here only by its language tag. */
  datatype Locale = Locale(tag: string)

  /** The `IllegalArgumentException`s raised by the argument checks, and the one the
      `DecimalFormat` constructor raises for a pattern it cannot parse. */
  datatype Rejected = BlankPattern | EmptyTemplate | EmptyPlaceholder | MalformedPattern

  /** The messages of the argument checks; `DecimalFormat`'s own message is not modelled. */
  function Message(e: Rejected): string
    requires !e.MalformedPattern?
  {
    match e
    case BlankPattern => "Pattern must not be blank."
    case EmptyTemplate => "Template must not be empty."
    case EmptyPlaceholder => "Placeholder must not be empty."
  }

  /** The text every helper uses for `null` unless told otherwise. */
  function DefaultNullText(): string { "-" }

  /** The pattern `withLocale` hands to `DecimalFormat`. */
  function LocalePattern(): string { "#,##0.###" }

  // ---------------------------------------------------------------- numbers

  /** `basic(value, nullText)`: `nullText` for `null`, otherwise `String.valueOf(value)`. */
  function Basic(value: Option<int>, nullText: string): string {
    match value
    case None => nullText
    case Some(v) => IntToString(v)
  }

  /** `basic` writes a number so that `toIntOrNull` reads it back when it fits in 32 bits, and
      gives `nullText` for `null`. */
  lemma BasicReadsBack(value: Option<int>, nullText: string)
    ensures value.None? ==> Basic(value, nullText) == nullText
    ensures value.Some? ==> ToIntOrNull(Basic(value, nullText)) == InIntRange(value.value)
  {
    if value.Some? {
      var v := value.value;
      if INT_MIN <= v <= INT_MAX {
        IntToStringRoundTrip(v);
      } else {
        BigToStringRejected(v);
      }
    }
  }

  /** A number outside the 32-bit range is written out in full, which `toIntOrNull` then refuses. */
  lemma BigToStringRejected(v: int)
    requires !(INT_MIN <= v <= INT_MAX)
    ensures ToIntOrNull(IntToString(v)).None?
  {
    var n: nat := if v < 0 then -v else v;
    DigitsValueOfNatToDigits(n);
    var d := NatToDigits(n);
    assert '0' <= d[0] <= '9';
    if v < 0 {
      var s := "-" + d;
      assert s[1..] == d;
    }
  }

  /** `withLocale(value, locale, nullText)`: `DecimalFormat("#,##0.###")` in `locale`'s symbols. */
  function WithLocale(value: Option<int>, locale: Locale, nullText: string,
                      decimal: (string, Locale, int) -> string): (r: string)
    ensures value.None? ==> r == nullText
    ensures value.Some? ==> r == decimal(LocalePattern(), locale, value.value)
  {
    match value
    case None => nullText
    case Some(v) => decimal(LocalePattern(), locale, v)
  }

  /** `withPattern(value, pattern, locale, nullText)`: the blank-pattern check comes first, so a blank
      pattern is refused even for `null`; `DecimalFormat` is only built for a number, so a malformed
      pattern is refused only then. */
  function WithPattern(value: Option<int>, pattern: string, locale: Locale, nullText: string,
                       wellFormed: string -> bool, decimal: (string, Locale, int) -> string): (r: Result<string, Rejected>)
    ensures r.Failure? <==> IsBlank(pattern) || (value.Some? && !wellFormed(pattern))
    ensures r.Failure? ==> r.error == if IsBlank(pattern) then BlankPattern else MalformedPattern
    ensures r.Success? && value.None? ==> r.value == nullText
    ensures r.Success? && value.Some? ==> r.value == decimal(pattern, locale, value.value)
  {
    if IsBlank(pattern) then Failure(BlankPattern)
    else match value
      case None => Success(nullText)
      case Some(v) => if !wellFormed(pattern) then Failure(MalformedPattern) else Success(decimal(pattern, locale, v))
  }

  /** `custom(value, nullText, formatter)`: the formatter is consulted only for a number. */
  function Custom(value: Option<int>, nullText: string, formatter: int -> string): (r: string)
    ensures value.None? ==> r == nullText
    ensures value.Some? ==> r == formatter(value.value)
  {
    match value
    case None => nullText
    case Some(v) => formatter(v)
  }

  /** For `null`, `custom` gives the same text whatever the formatter. */
  lemma CustomIgnoresFormatterOnNull(nullText: string, f: int -> string, g: int -> string)
    ensures Custom(None, nullText, f) == Custom(None, nullText, g) == nullText
  {
  }

  /** `customWithLocale(value, locale, nullText, formatter)`. */
  function CustomWithLocale(value: Option<int>, locale: Locale, nullText: string,
                            formatter: (int, Locale) -> string): (r: string)
    ensures value.None? ==> r == nullText
    ensures value.Some? ==> r == formatter(value.value, locale)
  {
    match value
    case None => nullText
    case Some(v) => formatter(v, locale)
  }

  /** `withPrefix(value, prefix, nullText)`. */
  function WithPrefix(value: Option<int>, prefix: string, nullText: string): (r: string)
    ensures IsPrefix(prefix, r) && r[|prefix|..] == Basic(value, nullText)
  {
    prefix + Basic(value, nullText)
  }

  /** `withSuffix(value, suffix, nullText)`. */
  function WithSuffix(value: Option<int>, suffix: string, nullText: string): (r: string)
    ensures |r| >= |suffix| && r[|r| - |suffix|..] == suffix
    ensures r[..|r| - |suffix|] == Basic(value, nullText)
  {
    Basic(value, nullText) + suffix
  }

  // ---------------------------------------------------------------- replacement

  /** `t` occurs in `s` starting at `i`. */
  predicate OccursAt(s: string, t: string, i: nat) {
    i + |t| <= |s| && s[i..i + |t|] == t
  }

  /** `s.replace(t, r)`: every occurrence of `t`, found left to right and not overlapping, becomes `r`. */
  function ReplaceAll(s: string, t: string, r: string): string
    requires |t| > 0
    decreases |s|
  {
    if |s| < |t| then s
    else if s[..|t|] == t then r + ReplaceAll(s[|t|..], t, r)
    else [s[0]] + ReplaceAll(s[1..], t, r)
  }

  /** A string without the placeholder comes back unchanged. */
  lemma {:induction false} ReplaceAllAbsent(s: string, t: string, r: string)
    requires |t| > 0
    requires forall i: nat :: !OccursAt(s, t, i)
    ensures ReplaceAll(s, t, r) == s
    decreases |s|
  {
    if |s| >= |t| {
      assert !OccursAt(s, t, 0);
      forall i: nat ensures !OccursAt(s[1..], t, i) {
        assert !OccursAt(s, t, i + 1);
        if i + |t| <= |s[1..]| {
          assert s[1..][i..i + |t|] == s[i + 1..i + 1 + |t|];
        }
      }
      ReplaceAllAbsent(s[1..], t, r);
      assert s == [s[0]] + s[1..];
    }
  }

  /** Replacing the placeholder by itself changes nothing. */
  lemma {:induction false} ReplaceAllSelf(s: string, t: string)
    requires |t| > 0
    ensures ReplaceAll(s, t, t) == s
    decreases |s|
  {
    if |s| >= |t| {
      if s[..|t|] == t {
        ReplaceAllSelf(s[|t|..], t);
        assert s == s[..|t|] + s[|t|..];
      } else {
        ReplaceAllSelf(s[1..], t);
        assert s == [s[0]] + s[1..];
      }
    }
  }

  /** `t` occurs in `s` at `i` and nowhere before it. */
  predicate FirstAt(s: string, t: string, i: nat) {
    OccursAt(s, t, i) && forall j: nat :: j < i ==> !OccursAt(s, t, j)
  }

  /** Dropping the first character shifts every occurrence one place to the left. */
  lemma OccursAtTail(s: string, t: string, j: nat)
    requires |s| > 0
    ensures OccursAt(s[1..], t, j) <==> OccursAt(s, t, j + 1)
  {
    if j + 1 + |t| <= |s| {
      assert s[1..][j..j + |t|] == s[j + 1..j + 1 + |t|];
    }
  }

  /** An occurrence that is first at `i > 0` is first at `i - 1` once the first character is dropped. */
  lemma FirstInTail(s: string, t: string, i: nat)
    requires |t| > 0 && 0 < i && FirstAt(s, t, i)
    ensures |t| <= |s| && s[..|t|] != t
    ensures FirstAt(s[1..], t, i - 1)
  {
    assert !OccursAt(s, t, 0);
    OccursAtTail(s, t, i - 1);
    forall j: nat | j < i - 1 ensures !OccursAt(s[1..], t, j) {
      OccursAtTail(s, t, j);
    }
  }

  /** Where the placeholder does not start the string, its first character is kept. */
  lemma ReplaceAllSkip(s: string, t: string, r: string)
    requires |t| > 0 && |t| <= |s| && s[..|t|] != t
    ensures ReplaceAll(s, t, r) == [s[0]] + ReplaceAll(s[1..], t, r)
  {
  }

  /** The slices of `s` the scan works on after skipping its first character. */
  lemma ScanSlices(s: string, k: nat, i: nat)
    requires 0 < i && i + k <= |s|
    ensures s[1..][i - 1 + k..] == s[i + k..]
    ensures [s[0]] + s[1..][..i - 1] == s[..i]
  {
  }

  /** Putting the kept character back in front of a replaced rest. */
  lemma ScanConcat(c: char, x: string, pre: string, r: string, rest: string, tail: string, whole: string)
    requires whole == [c] + tail && tail == x + r + rest && pre == [c] + x
    ensures whole == pre + r + rest
  {
    assert [c] + (x + r + rest) == ([c] + x) + r + rest;
  }

  /** A placeholder at the very start is replaced and the scan resumes after it. */
  lemma ReplaceAllHere(s: string, t: string, r: string)
    requires |t| > 0 && OccursAt(s, t, 0)
    ensures ReplaceAll(s, t, r) == s[..0] + r + ReplaceAll(s[|t|..], t, r)
  {
    assert s[..0] == [];
  }

  /** One step of the scan: the first occurrence at `i > 0` in `s`, from the claim for `s[1..]`. */
  lemma {:induction false} ScanStep(s: string, t: string, r: string, i: nat)
    requires |t| > 0 && 0 < i && FirstAt(s, t, i)
    ensures ReplaceAll(s, t, r) == s[..i] + r + ReplaceAll(s[i + |t|..], t, r)
    decreases i, 0
  {
    FirstInTail(s, t, i);
    ReplaceAllFirst(s[1..], t, r, i - 1);
    ReplaceAllSkip(s, t, r);
    ScanSlices(s, |t|, i);
    ScanConcat(s[0], s[1..][..i - 1], s[..i], r, ReplaceAll(s[1..][i - 1 + |t|..], t, r),
               ReplaceAll(s[1..], t, r), ReplaceAll(s, t, r));
  }

  /** The scan replaces the leftmost occurrence first and resumes right after it; together with
      `ReplaceAllAbsent` this determines `ReplaceAll` on every input. */
  lemma {:induction false} ReplaceAllFirst(s: string, t: string, r: string, i: nat)
    requires |t| > 0 && FirstAt(s, t, i)
    ensures ReplaceAll(s, t, r) == s[..i] + r + ReplaceAll(s[i + |t|..], t, r)
    decreases i, 1
  {
    if i == 0 {
      ReplaceAllHere(s, t, r);
    } else {
      ScanStep(s, t, r, i);
    }
  }

  /** `s.replace(a, b)` on characters: every `a` becomes `b`, everything else stays. */
  function ReplaceChar(s: string, a: char, b: char): (r: string)
    ensures |r| == |s|
    ensures forall i :: 0 <= i < |s| ==> r[i] == (if s[i] == a then b else s[i])
  {
    seq(|s|, i requires 0 <= i < |s| => if s[i] == a then b else s[i])
  }

  /** The string and the character overloads of `replace` agree on one-character strings. */
  lemma {:induction false} ReplaceAllOneChar(s: string, a: char, b: char)
    ensures ReplaceAll(s, [a], [b]) == ReplaceChar(s, a, b)
    decreases |s|
  {
    if |s| >= 1 {
      ReplaceAllOneChar(s[1..], a, b);
      assert ReplaceChar(s, a, b) == [ReplaceChar(s, a, b)[0]] + ReplaceChar(s[1..], a, b);
    }
  }

  /** `template(template, placeholder, value, nullText)`: both strings must be non-empty (the template
      is checked first); then every placeholder becomes `basic(value, nullText)`. */
  function Template(template: string, placeholder: string, value: Option<int>, nullText: string): (r: Result<string, Rejected>)
    ensures r.Failure? <==> |template| == 0 || |placeholder| == 0
    ensures r.Failure? ==> r.error == (if |template| == 0 then EmptyTemplate else EmptyPlaceholder)
  {
    if |template| == 0 then Failure(EmptyTemplate)
    else if |placeholder| == 0 then Failure(EmptyPlaceholder)
    else Success(ReplaceAll(template, placeholder, Basic(value, nullText)))
  }

  /** A template without the placeholder is returned as it is, whatever the value. */
  lemma TemplateWithoutPlaceholder(template: string, placeholder: string, value: Option<int>, nullText: string)
    requires |template| > 0 && |placeholder| > 0
    requires forall i: nat :: !OccursAt(template, placeholder, i)
    ensures Template(template, placeholder, value, nullText) == Success(template)
  {
    ReplaceAllAbsent(template, placeholder, Basic(value, nullText));
  }

  /** The first placeholder in the template becomes the value's text, and the rest of the template
      after it is filled in the same way. */
  lemma {:induction false} TemplateFirst(template: string, placeholder: string, value: Option<int>, nullText: string, i: nat)
    requires |placeholder| > 0 && FirstAt(template, placeholder, i)
    ensures Template(template, placeholder, value, nullText) ==
      Success(template[..i] + Basic(value, nullText) + ReplaceAll(template[i + |placeholder|..], placeholder, Basic(value, nullText)))
  {
    ReplaceAllFirst(template, placeholder, Basic(value, nullText), i);
  }

  /** A one-character placeholder is replaced character by character. */
  lemma TemplateOneChar(template: string, a: char, value: Option<int>, nullText: string)
    requires |template| > 0
    requires |Basic(value, nullText)| == 1
    ensures Template(template, [a], value, nullText) == Success(ReplaceChar(template, a, Basic(value, nullText)[0]))
  {
    var f := Basic(value, nullText);
    assert f == [f[0]];
    ReplaceAllOneChar(template, a, f[0]);
  }

  // ---------------------------------------------------------------- colour codes

  /** The shape both conversions share: "" for `null` or "", otherwise every `from` becomes `to`. */
  function ConvertMarker(text: Option<string>, from: char, to: char): (r: string)
    requires from != to
    ensures text.None? ==> r == ""
    ensures text.Some? ==> |r| == |text.value| && from !in r
    ensures text.Some? ==> forall i :: 0 <= i < |r| ==> r[i] == (if text.value[i] == from then to else text.value[i])
  {
    if text.None? || |text.value| == 0 then "" else ReplaceChar(text.value, from, to)
  }

  /** `ampersandToSection(text)`. */
  function AmpersandToSection(text: Option<string>): string {
    ConvertMarker(text, '&', '§')
  }

  /** `sectionToAmpersand(text)`. */
  function SectionToAmpersand(text: Option<string>): string {
    ConvertMarker(text, '§', '&')
  }

  /** Converting to section signs and back restores any text that had no section sign to begin with. */
  lemma AmpersandRoundTrip(t: string)
    requires '§' !in t
    ensures SectionToAmpersand(Some(AmpersandToSection(Some(t)))) == t
  {
    var r := SectionToAmpersand(Some(AmpersandToSection(Some(t))));
    assert |r| == |t|;
    forall i | 0 <= i < |t| ensures r[i] == t[i] {
      assert t[i] != '§';
    }
  }

  /** The two colour-code markers. */
  predicate IsMarker(c: char) {
    c == '§' || c == '&'
  }

  /** `[0-9A-FK-OR]` under `(?i)`: a digit, or an ASCII letter a-f, k-o or r in either case. */
  predicate IsCodeChar(c: char) {
    var l := LowerChar(c);
    ('0' <= c <= '9') || ('a' <= l <= 'f') || ('k' <= l <= 'o') || l == 'r'
  }

  /** `replace(Regex("(?i)[§&][0-9A-FK-OR]"), "")`: one left-to-right pass that drops each marker
      followed by a code character and keeps everything else. */
  function StripCodes(s: string): (r: string)
    ensures |r| <= |s|
    ensures forall c :: c in r ==> c in s
    decreases |s|
  {
    if |s| == 0 then []
    else if |s| >= 2 && IsMarker(s[0]) && IsCodeChar(s[1]) then StripCodes(s[2..])
    else [s[0]] + StripCodes(s[1..])
  }

  /** `stripColors(text)`: "" for `null` or "", otherwise the single stripping pass. */
  function StripColors(text: Option<string>): (r: string)
    ensures text.None? ==> r == ""
    ensures text.Some? ==> |r| <= |text.value| && forall c :: c in r ==> c in text.value
  {
    if text.None? || |text.value| == 0 then "" else StripCodes(text.value)
  }

  /** Text without a marker passes through untouched. */
  lemma {:induction false} StripWithoutMarkers(s: string)
    requires forall i :: 0 <= i < |s| ==> !IsMarker(s[i])
    ensures StripCodes(s) == s
    decreases |s|
  {
    if |s| > 0 {
      StripWithoutMarkers(s[1..]);
      assert s == [s[0]] + s[1..];
    }
  }

  /** Stripping does not care which marker spells a code: swapping one marker for the other before
      stripping is swapping it in what stripping keeps. */
  lemma {:induction false} StripCommutesWithMarkerSwap(s: string, a: char, b: char)
    requires IsMarker(a) && IsMarker(b)
    ensures StripCodes(ReplaceChar(s, a, b)) == ReplaceChar(StripCodes(s), a, b)
    decreases |s|
  {
    var t := ReplaceChar(s, a, b);
    MarkersAreNotCodes(a, b);
    if |s| >= 2 && IsMarker(s[0]) && IsCodeChar(s[1]) {
      ReplaceCharDrop(s, a, b, 2);
      assert IsMarker(t[0]) && IsCodeChar(t[1]);
      StripCommutesWithMarkerSwap(s[2..], a, b);
    } else if |s| > 0 {
      ReplaceCharDrop(s, a, b, 1);
      assert !(|t| >= 2 && IsMarker(t[0]) && IsCodeChar(t[1]));
      StripCommutesWithMarkerSwap(s[1..], a, b);
      ReplaceCharCons(s[0], StripCodes(s[1..]), a, b);
    }
  }

  /** Replacing commutes with dropping a prefix. */
  lemma ReplaceCharDrop(s: string, a: char, b: char, n: nat)
    requires n <= |s|
    ensures ReplaceChar(s, a, b)[n..] == ReplaceChar(s[n..], a, b)
  {
  }

  /** Replacing in a string with a first character. */
  lemma ReplaceCharCons(c: char, r: string, a: char, b: char)
    ensures ReplaceChar([c] + r, a, b) == [if c == a then b else c] + ReplaceChar(r, a, b)
  {
  }

  /** Neither marker is a code character. */
  lemma MarkersAreNotCodes(a: char, b: char)
    requires IsMarker(a) && IsMarker(b)
    ensures !IsCodeChar(a) && !IsCodeChar(b)
  {
  }

  /** So converting the markers and stripping can be done in either order. */
  lemma StripAfterConversion(text: Option<string>)
    ensures StripColors(Some(AmpersandToSection(text))) == AmpersandToSection(Some(StripColors(text)))
    ensures StripColors(Some(SectionToAmpersand(text))) == SectionToAmpersand(Some(StripColors(text)))
  {
    if text.Some? && |text.value| > 0 {
      StripCommutesWithMarkerSwap(text.value, '&', '§');
      StripCommutesWithMarkerSwap(text.value, '§', '&');
    }
  }

  /** One pass is not a fixpoint: removing a pair can bring a new pair together. */
  lemma StripIsSinglePass()
    ensures StripColors(Some("&&aa")) == "&a"
    ensures StripColors(Some("&a")) == ""
  {
    var s := "&&aa";
    assert !IsCodeChar(s[1]);
    assert s[1..] == "&aa" && s[1..][2..] == "a";
    var t := "&a";
    assert t[2..] == "";
  }
}
