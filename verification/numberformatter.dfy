/**
 * `NumberFormatter` and its implementations, `NumericTemplate` and `ColorCodeStrategy`: the
 * object-style face of `NumberStrings`. The formatter classes become the constructors of one
 * datatype, and each class's `init` check becomes a constructor function that can fail.
 */
module NumberFormatter {
  import opened Wrappers
  import opened Text
  import opened NumberStrings

  /** The `NumberFormatter` implementations, with the state each one was built with. */
  datatype Formatter =
    | BasicFormatter(nullText: string)
    | LocaleFormatter(locale: Locale, nullText: string, decimal: (string, Locale, int) -> string)
    | PatternFormatter(pattern: string, locale: Locale, nullText: string, wellFormed: string -> bool,
                       decimal: (string, Locale, int) -> string)
    | CustomFormatter(nullText: string, formatter: int -> string)
    | LocaleAwareCustomFormatter(locale: Locale, nullText: string, localeFormatter: (int, Locale) -> string)

  /** What the constructors guarantee: a pattern formatter was built with a non-blank pattern. */
  predicate Valid(f: Formatter) {
    f.PatternFormatter? ==> !IsBlank(f.pattern)
  }

  /** `PatternNumberFormatter(pattern, locale, nullText)`: its `init` refuses a blank pattern, and
      nothing else: a malformed pattern is only met when a number is formatted. */
  function NewPattern(pattern: string, locale: Locale, nullText: string, wellFormed: string -> bool,
                      decimal: (string, Locale, int) -> string): (r: Result<Formatter, Rejected>)
    ensures r.Failure? <==> IsBlank(pattern)
    ensures r.Failure? ==> r.error == BlankPattern
    ensures r.Success? ==> Valid(r.value) && r.value.PatternFormatter?
    ensures r.Success? ==> r.value.pattern == pattern && r.value.locale == locale && r.value.nullText == nullText
  {
    if IsBlank(pattern) then Failure(BlankPattern)
    else Success(PatternFormatter(pattern, locale, nullText, wellFormed, decimal))
  }

  /** `format(value)` of each implementation; only a pattern formatter can fail, when `DecimalFormat`
      refuses its pattern. */
  function Format(f: Formatter, value: Option<int>): Result<string, Rejected>
    requires Valid(f)
  {
    match f
    case BasicFormatter(nullText) => Success(Basic(value, nullText))
    case LocaleFormatter(locale, nullText, decimal) => Success(WithLocale(value, locale, nullText, decimal))
    case PatternFormatter(pattern, locale, nullText, wellFormed, decimal) =>
      WithPattern(value, pattern, locale, nullText, wellFormed, decimal)
    case CustomFormatter(nullText, formatter) => Success(Custom(value, nullText, formatter))
    case LocaleAwareCustomFormatter(locale, nullText, formatter) =>
      Success(if value.None? then nullText else formatter(value.value, locale))
  }

  /** The interface's promise: every implementation answers `null` with its own `nullText`, and
      what it answers for a number is what its lambda or `DecimalFormat` makes of it; the only
      failure is a pattern formatter whose pattern `DecimalFormat` refuses. */
  lemma FormatIsNullSafe(f: Formatter, value: Option<int>)
    requires Valid(f)
    ensures value.None? ==> Format(f, value) == Success(f.nullText)
    ensures Format(f, value).Failure? <==> f.PatternFormatter? && value.Some? && !f.wellFormed(f.pattern)
    ensures Format(f, value).Failure? ==> Format(f, value).error == MalformedPattern
    ensures value.Some? && f.CustomFormatter? ==> Format(f, value) == Success(f.formatter(value.value))
    ensures value.Some? && f.LocaleAwareCustomFormatter? ==>
      Format(f, value) == Success(f.localeFormatter(value.value, f.locale))
    ensures value.Some? && f.PatternFormatter? && f.wellFormed(f.pattern) ==>
      Format(f, value) == Success(f.decimal(f.pattern, f.locale, value.value))
    ensures value.Some? && f.LocaleFormatter? ==> Format(f, value) == Success(f.decimal(LocalePattern(), f.locale, value.value))
  {
  }

  /** `BasicNumberFormatter` is `NumberStrings.basic` with its `nullText`, and writes numbers that
      `toIntOrNull` reads back. */
  lemma BasicFormatterIsBasic(nullText: string, value: Option<int>)
    ensures Format(BasicFormatter(nullText), value) == Success(Basic(value, nullText))
    ensures value.Some? ==> ToIntOrNull(Format(BasicFormatter(nullText), value).value) == InIntRange(value.value)
  {
    BasicReadsBack(value, nullText);
  }

  /** `StandardNumberPattern`. */
  datatype StandardPattern = Whole | TwoDecimals | ThreeDecimals | CompactNoDecimals | CompactWithDecimals

  function PatternOf(p: StandardPattern): string {
    match p
    case Whole => "#,##0"
    case TwoDecimals => "#,##0.00"
    case ThreeDecimals => "#,##0.000"
    case CompactNoDecimals => "#,##0"
    case CompactWithDecimals => "#,##0.###"
  }

  /** `NumberFormatters.standardPattern(standard, …)` never fails: no standard pattern is blank. */
  lemma StandardPatternBuilds(p: StandardPattern, locale: Locale, nullText: string, wellFormed: string -> bool,
                              decimal: (string, Locale, int) -> string)
    ensures NewPattern(PatternOf(p), locale, nullText, wellFormed, decimal).Success?
  {
    assert !IsWhitespace(PatternOf(p)[0]);
  }

  /** `FormattedNumber`. */
  datatype FormattedNumber = FormattedNumber(raw: Option<int>, text: string)

  /** `NumericTemplate`. */
  datatype NumericTemplate = NumericTemplate(template: string, placeholder: string)

  /** The `NumericTemplate` constructor: its `init` refuses an empty template, then an empty placeholder. */
  function NewTemplate(template: string, placeholder: string): (r: Result<NumericTemplate, Rejected>)
    ensures r.Failure? <==> |template| == 0 || |placeholder| == 0
    ensures r.Failure? ==> r.error == (if |template| == 0 then EmptyTemplate else EmptyPlaceholder)
    ensures r.Success? ==> r.value == NumericTemplate(template, placeholder)
  {
    if |template| == 0 then Failure(EmptyTemplate)
    else if |placeholder| == 0 then Failure(EmptyPlaceholder)
    else Success(NumericTemplate(template, placeholder))
  }

  /** `NumericTemplate.apply(value, formatter)`: the raw value, and the template with every
      placeholder replaced by the formatter's text; the formatter's exception passes through. */
  function Apply(t: NumericTemplate, value: Option<int>, f: Formatter): (r: Result<FormattedNumber, Rejected>)
    requires |t.placeholder| > 0 && Valid(f)
    ensures r.Failure? <==> Format(f, value).Failure?
    ensures r.Failure? ==> r.error == Format(f, value).error
    ensures r.Success? ==> r.value.raw == value
  {
    match Format(f, value)
    case Failure(e) => Failure(e)
    case Success(text) => Success(FormattedNumber(value, ReplaceAll(t.template, t.placeholder, text)))
  }

  /** Applying a template with the basic formatter gives what `NumberStrings.template` gives; a
      template without its placeholder is returned as it is. */
  lemma ApplyAgreesWithTemplate(template: string, placeholder: string, value: Option<int>, nullText: string)
    requires NewTemplate(template, placeholder).Success?
    ensures Apply(NewTemplate(template, placeholder).value, value, BasicFormatter(nullText)).Success?
    ensures Success(Apply(NewTemplate(template, placeholder).value, value, BasicFormatter(nullText)).value.text) ==
      NumberStrings.Template(template, placeholder, value, nullText)
    ensures (forall i: nat :: !OccursAt(template, placeholder, i)) ==>
      Apply(NewTemplate(template, placeholder).value, value, BasicFormatter(nullText)).value.text == template
  {
    if forall i: nat :: !OccursAt(template, placeholder, i) {
      TemplateWithoutPlaceholder(template, placeholder, value, nullText);
    }
  }

  /** With any formatter that succeeds, apply's text is the template with its first placeholder
      replaced by the formatted number and the rest after it filled in the same way. */
  lemma ApplyFillsFirst(t: NumericTemplate, value: Option<int>, f: Formatter, text: string, i: nat)
    requires |t.placeholder| > 0 && Valid(f) && Format(f, value) == Success(text)
    requires FirstAt(t.template, t.placeholder, i)
    ensures Apply(t, value, f) == Success(FormattedNumber(value,
      t.template[..i] + text + ReplaceAll(t.template[i + |t.placeholder|..], t.placeholder, text)))
  {
    ReplaceAllFirst(t.template, t.placeholder, text, i);
  }

  /** With any formatter that succeeds, a template without its placeholder comes back as it is. */
  lemma ApplyWithoutPlaceholder(t: NumericTemplate, value: Option<int>, f: Formatter, text: string)
    requires |t.placeholder| > 0 && Valid(f) && Format(f, value) == Success(text)
    requires forall j: nat :: !OccursAt(t.template, t.placeholder, j)
    ensures Apply(t, value, f) == Success(FormattedNumber(value, t.template))
  {
    ReplaceAllAbsent(t.template, t.placeholder, text);
  }

  /** `ColorCodeStrategy`. */
  datatype ColorCodeStrategy = Keep | Strip | AmpersandToSectionCodes | SectionToAmpersandCodes

  /** `ColorCodeStrategy.apply(input)`. */
  function ApplyStrategy(strategy: ColorCodeStrategy, input: Option<string>): (r: string)
    ensures strategy.Keep? ==> r == input.GetOr("")
  {
    match strategy
    case Keep => input.GetOr("")
    case Strip => StripColors(input)
    case AmpersandToSectionCodes => AmpersandToSection(input)
    case SectionToAmpersandCodes => SectionToAmpersand(input)
  }

  /** Only `KEEP` leaves every text as it is; every strategy maps `null` and "" to "". */
  lemma StrategiesOnText(strategy: ColorCodeStrategy, input: Option<string>)
    ensures input.None? || input == Some("") ==> ApplyStrategy(strategy, input) == ""
    ensures input.Some? && strategy.Keep? ==> ApplyStrategy(strategy, input) == input.value
    ensures !strategy.Keep? ==> ApplyStrategy(strategy, Some("&a§b")) != "&a§b"
  {
    var s := "&a§b";
    if strategy.Strip? {
      assert IsMarker(s[0]) && IsCodeChar(s[1]);
      assert |StripCodes(s[2..])| <= 2;
    } else if strategy.AmpersandToSectionCodes? {
      assert AmpersandToSection(Some(s))[0] == '§';
    } else if strategy.SectionToAmpersandCodes? {
      assert SectionToAmpersand(Some(s))[2] == '&';
    }
  }

  /** The two conversions undo each other on text written with '&' only, and stripping after either
      conversion is stripping before it. */
  lemma StrategiesRoundTrip(t: string)
    requires '§' !in t
    ensures ApplyStrategy(SectionToAmpersandCodes, Some(ApplyStrategy(AmpersandToSectionCodes, Some(t)))) == t
    ensures ApplyStrategy(Strip, Some(ApplyStrategy(AmpersandToSectionCodes, Some(t)))) ==
      ApplyStrategy(AmpersandToSectionCodes, Some(ApplyStrategy(Strip, Some(t))))
  {
    AmpersandRoundTrip(t);
    StripAfterConversion(Some(t));
  }
}
