/**
 * `CommandArgument`: a named argument descriptor made of a parser, a validator and a suggester,
 * and the factories `string`, `greedyString`, `int`, `boolean` and `enum`.
 *
 * Both copies of the class (the one whose suggester returns suggestions and the one whose suggester
 * returns plain strings) share this record: a string suggester is a suggester whose results carry
 * neither tooltip nor permission. They differ in `suggest`, modelled as `Suggest` and
 * `SuggestValues`.
 */
module Argument {
  import opened Wrappers
  import opened Text
  import opened Seqs
  import opened Sorting
  import opened Identity
  import opened Suggestions

  /**
   * The classes a parsed value can be checked against (`Class.isInstance`): the classes of the
   * values the factories produce, the JDK 17 supertypes of those classes, the primitive class
   * objects (`Int::class.java` is `int`), and any other class by name.
   */
  datatype ValueType =
    | AnyType | StringType | IntType | BoolType | EnumType(enumName: string)
    | NumberType | CharSequenceType | ComparableType | SerializableType | ConstableType | ConstantDescType
    | EnumBaseType | PrimitiveType(primitive: string) | OtherType(typeName: string)

  /** A parsed argument value. */
  datatype Value =
    | StrVal(text: string)
    | IntVal(number: int)
    | BoolVal(flag: bool)
    | EnumVal(enumName: string, constant: string)
    | OtherVal(typeName: string, id: nat)

  function TypeOf(v: Value): ValueType {
    match v
    case StrVal(_) => StringType
    case IntVal(_) => IntType
    case BoolVal(_) => BoolType
    case EnumVal(e, _) => EnumType(e)
    case OtherVal(t, _) => OtherType(t)
  }

  /** The proper supertypes of a value's class below `Any`, as JDK 17 declares them: `String`,
      `Integer` (through `Number`), `Boolean` and an enum class (through `Enum`). */
  function Supertypes(c: ValueType): set<ValueType> {
    match c
    case StringType => {SerializableType, ComparableType, CharSequenceType, ConstableType, ConstantDescType}
    case IntType => {NumberType, SerializableType, ComparableType, ConstableType, ConstantDescType}
    case BoolType => {SerializableType, ComparableType, ConstableType}
    case EnumType(_) => {EnumBaseType, ComparableType, SerializableType, ConstableType}
    case _ => {}
  }

  /** `type.isInstance(value)`: the value's own class, one of its supertypes, or `Any`. A primitive
      class object accepts nothing, since every stored value is boxed. */
  predicate IsInstance(t: ValueType, v: Value) {
    t == AnyType || t == TypeOf(v) || t in Supertypes(TypeOf(v))
  }

  /** A descriptor: `name`, the value class, `parser`, `validator` and `suggester`. */
  datatype Descriptor = Descriptor(
    name: string,
    valueType: ValueType,
    parser: string -> Option<Value>,
    validator: Value -> bool,
    suggester: (string, Source) -> seq<Suggestion>)

  /** `parse(token)`: the parser's value when it has one and the validator accepts it. */
  function Parse(d: Descriptor, token: string): (r: Option<Value>)
    ensures r.Some? <==> d.parser(token).Some? && d.validator(d.parser(token).value)
    ensures r.Some? ==> r == d.parser(token)
  {
    match d.parser(token)
    case None => None
    case Some(v) => if d.validator(v) then Some(v) else None
  }

  /** `suggest(prefix, source)` of the suggestion-returning copy: the suggester's output passed
      through `filterFor`. */
  function Suggest(d: Descriptor, prefix: string, src: Source): (r: seq<Suggestion>)
    ensures forall s :: s in r <==> s in d.suggester(prefix, src) && Keep(prefix, src, s)
    ensures SortedBy(r, LowerValue)
  {
    FilterFor(d.suggester(prefix, src), prefix, src)
  }

  /** The sort key of `sorted()` on strings. */
  function Natural(s: string): string {
    s
  }

  function StartsWithFor(prefix: string): string -> bool {
    v => StartsWithIgnoreCase(v, prefix)
  }

  /** `suggest(prefix)` of the string-returning copy: the suggested strings that start with the
      prefix ignoring case, in natural (case-sensitive) order. */
  function SuggestValues(d: Descriptor, prefix: string, src: Source): (r: seq<string>)
    ensures forall v :: v in r <==> v in ToValues(d.suggester(prefix, src)) && StartsWithIgnoreCase(v, prefix)
    ensures multiset(r) == multiset(Filter(ToValues(d.suggester(prefix, src)), StartsWithFor(prefix)))
    ensures SortedBy(r, Natural)
  {
    var kept := Filter(ToValues(d.suggester(prefix, src)), StartsWithFor(prefix));
    SortBySorted(kept, Natural);
    SortByMembers(kept, Natural);
    SortBy(kept, Natural)
  }

  function NoSuggestions(prefix: string, src: Source): seq<Suggestion> {
    []
  }

  function AcceptAll(v: Value): bool {
    true
  }

  // ---------------------------------------------------------------- factories

  /** `string(name, allowEmpty)`: any token, the empty one only when allowed. */
  function StringArg(name: string, allowEmpty: bool): (r: Descriptor)
    ensures r.name == name && r.valueType == StringType
    ensures forall t :: Parse(r, t).Some? <==> allowEmpty || |t| > 0
    ensures forall t :: Parse(r, t).Some? ==> Parse(r, t) == Some(StrVal(t))
    ensures forall p, src :: Suggest(r, p, src) == []
  {
    Descriptor(name, StringType,
      t => if !allowEmpty && |t| == 0 then None else Some(StrVal(t)),
      AcceptAll, NoSuggestions)
  }

  /** `greedyString(name)`: every string, unchanged. */
  function GreedyStringArg(name: string): (r: Descriptor)
    ensures r.name == name && r.valueType == StringType
    ensures forall t :: Parse(r, t) == Some(StrVal(t))
    ensures forall p, src :: Suggest(r, p, src) == []
  {
    Descriptor(name, StringType, t => Some(StrVal(t)), AcceptAll, NoSuggestions)
  }

  /** The inclusive bounds of `int(name, min, max)`; a missing bound does not constrain. */
  predicate WithinBounds(v: int, min: Option<int>, max: Option<int>) {
    (min.None? || v >= min.value) && (max.None? || v <= max.value)
  }

  function IntParser(t: string): Option<Value> {
    match ToIntOrNull(t)
    case None => None
    case Some(v) => Some(IntVal(v))
  }

  /** `int(name, min, max)`: the tokens `toIntOrNull` reads whose value lies within the bounds.
      The bounds are not checked against each other. */
  function IntArg(name: string, min: Option<int>, max: Option<int>): (r: Descriptor)
    ensures r.name == name && r.valueType == IntType
    ensures forall t :: Parse(r, t).Some? <==> ToIntOrNull(t).Some? && WithinBounds(ToIntOrNull(t).value, min, max)
    ensures forall t :: Parse(r, t).Some? ==> Parse(r, t) == Some(IntVal(ToIntOrNull(t).value))
    ensures forall p, src :: Suggest(r, p, src) == []
  {
    Descriptor(name, IntType, IntParser,
      (v: Value) => v.IntVal? && WithinBounds(v.number, min, max), NoSuggestions)
  }

  /** Every in-range 32-bit value reads back from its decimal spelling. */
  lemma IntArgRoundTrip(name: string, min: Option<int>, max: Option<int>, v: int)
    requires INT_MIN <= v <= INT_MAX && WithinBounds(v, min, max)
    ensures Parse(IntArg(name, min, max), IntToString(v)) == Some(IntVal(v))
  {
    IntToStringRoundTrip(v);
  }

  /** With `min > max` the descriptor rejects every token. */
  lemma IntArgEmptyRange(name: string, lo: int, hi: int, t: string)
    requires lo > hi
    ensures Parse(IntArg(name, Some(lo), Some(hi)), t).None?
  {
  }

  /** The words `boolean` reads as true and as false, compared after lower-casing. */
  const TRUTHY: seq<string> := ["true", "yes", "y", "on", "1"]
  const FALSY: seq<string> := ["false", "no", "n", "off", "0"]

  function BoolParser(t: string): Option<Value> {
    var w := Lower(t);
    if w in TRUTHY then Some(BoolVal(true))
    else if w in FALSY then Some(BoolVal(false))
    else None
  }

  /** `boolean(name)` of the suggestion-returning copy: suggests "true" and "false" with tooltips. */
  function BoolArg(name: string): (r: Descriptor)
    ensures r.name == name && r.valueType == BoolType
    ensures forall t :: Parse(r, t) == BoolParser(t)
    ensures forall p, src :: ToValues(r.suggester(p, src)) == ["true", "false"]
  {
    Descriptor(name, BoolType, BoolParser, AcceptAll,
      (p: string, src: Source) => [Suggestion("true", Some("Boolean true"), None),
                                   Suggestion("false", Some("Boolean false"), None)])
  }

  /** `boolean(name)` of the string-returning copy: suggests "true" and "false". */
  function LegacyBoolArg(name: string): (r: Descriptor)
    ensures r.name == name && r.valueType == BoolType
    ensures forall t :: Parse(r, t) == BoolParser(t)
    ensures forall p, src :: ToValues(r.suggester(p, src)) == ["true", "false"]
  {
    Descriptor(name, BoolType, BoolParser, AcceptAll, (p: string, src: Source) => Of(["true", "false"]))
  }

  /** The two vocabularies are disjoint and matched ignoring case; anything else is rejected. */
  lemma BoolVocabulary(t: string)
    ensures BoolParser(t) == Some(BoolVal(true)) <==> Lower(t) in TRUTHY
    ensures BoolParser(t) == Some(BoolVal(false)) <==> Lower(t) in FALSY
    ensures BoolParser(t).None? <==> Lower(t) !in TRUTHY && Lower(t) !in FALSY
  {
  }

  lemma BoolExamples()
    ensures BoolParser("YES") == Some(BoolVal(true))
    ensures BoolParser("Off") == Some(BoolVal(false))
    ensures BoolParser("maybe").None?
  {
    assert Lower("YES") == "yes";
    assert Lower("Off") == "off";
    assert Lower("maybe") == "maybe";
  }

  /** "false" sorts before "true", in either case-folding, and "T" starts "true" but not "false". */
  lemma BoolWordsOrder()
    ensures Lower("true") == "true" && Lower("false") == "false"
    ensures !LexLessEq("true", "false")
    ensures StartsWithIgnoreCase("true", "T") && !StartsWithIgnoreCase("false", "T")
  {
    LowerOfNoCapitals("true");
    LowerOfNoCapitals("false");
    assert "true"[0] == 't' && "false"[0] == 'f';
    assert "true"[..1] == "t" && "false"[..1] == "f";
    assert Lower("t") == "t" && Lower("T") == "t" && Lower("f") == "f";
  }

  /** With an empty prefix the suggestion-returning boolean suggests "false" then "true"
      (sorted), for any source, since neither suggestion carries a permission. */
  lemma BoolSuggestions(name: string, src: Source)
    ensures ToValues(Suggest(BoolArg(name), "", src)) == ["false", "true"]
  {
    var t := Suggestion("true", Some("Boolean true"), None);
    var f := Suggestion("false", Some("Boolean false"), None);
    assert Suggest(BoolArg(name), "", src) == FilterFor([t, f], "", src);
    FilterForPair(t, f, "", src);
    BoolWordsOrder();
    assert Suggest(BoolArg(name), "", src) == [f, t];
    var vs := ToValues([f, t]);
    assert vs[0] == "false" && vs[1] == "true";
  }

  /** With an empty prefix the string-returning boolean suggests "false" then "true". */
  lemma LegacyBoolSuggestions(name: string, src: Source)
    ensures SuggestValues(LegacyBoolArg(name), "", src) == ["false", "true"]
  {
    assert ToValues(LegacyBoolArg(name).suggester("", src)) == ["true", "false"];
    FilterPair("true", "false", StartsWithFor(""));
    assert "true"[..0] == "" && "false"[..0] == "";
    assert StartsWithIgnoreCase("true", "") && StartsWithIgnoreCase("false", "");
    SortPair("true", "false", Natural);
    BoolWordsOrder();
  }

  /** With the prefix "T" the string-returning boolean suggests only "true". */
  lemma LegacyBoolSuggestionsUpper(name: string, src: Source)
    ensures SuggestValues(LegacyBoolArg(name), "T", src) == ["true"]
  {
    assert ToValues(LegacyBoolArg(name).suggester("T", src)) == ["true", "false"];
    FilterPair("true", "false", StartsWithFor("T"));
    BoolWordsOrder();
    assert ["true"][1..] == [];
    assert SortBy(["true"], Natural) == ["true"];
  }

  function EnumMatch(t: string): string -> bool {
    c => EqualsIgnoreCase(c, t)
  }

  /** The parser of `enum`: the first constant equal to the token ignoring case. */
  function EnumParser(enumName: string, constants: seq<string>, t: string): (r: Option<Value>)
    ensures r.Some? <==> exists c :: c in constants && EqualsIgnoreCase(c, t)
  {
    match FirstWhere(constants, EnumMatch(t))
    case None =>
      assert forall c :: c in constants ==> !EqualsIgnoreCase(c, t) by {
        forall c | c in constants ensures !EqualsIgnoreCase(c, t) {
          var k :| 0 <= k < |constants| && constants[k] == c;
          assert !EnumMatch(t)(constants[k]);
        }
      }
      None
    case Some(k) =>
      assert EnumMatch(t)(constants[k]) && constants[k] in constants;
      Some(EnumVal(enumName, constants[k]))
  }

  /** The lower-cased constant names that start with the lower-cased prefix. */
  function EnumNames(constants: seq<string>, prefix: string): (r: seq<string>)
    ensures forall v :: v in r <==> exists c :: c in constants && v == Lower(c) && IsPrefix(Lower(prefix), v)
  {
    var lowered := Map(constants, Lower);
    assert forall c :: c in constants ==> Lower(c) in lowered by {
      forall c | c in constants ensures Lower(c) in lowered {
        var k :| 0 <= k < |constants| && constants[k] == c;
        assert lowered[k] == Lower(c);
      }
    }
    Filter(lowered, (v: string) => |Lower(prefix)| == 0 || IsPrefix(Lower(prefix), v))
  }

  /** The suggester of `enum`: the matching lower-cased names as plain suggestions. */
  function EnumSuggester(constants: seq<string>, prefix: string): seq<Suggestion> {
    Of(EnumNames(constants, prefix))
  }

  /** `enum<E>(name)` over the constant names of `E` in declaration order: a token reads as a
      constant iff some constant's name equals it ignoring case. */
  function EnumArg(name: string, enumName: string, constants: seq<string>): (r: Descriptor)
    ensures r.name == name && r.valueType == EnumType(enumName)
    ensures forall t :: Parse(r, t) == EnumParser(enumName, constants, t)
  {
    Descriptor(name, EnumType(enumName),
      t => EnumParser(enumName, constants, t),
      AcceptAll,
      (p: string, src: Source) => EnumSuggester(constants, p))
  }

  /** The constant read is the first one, in declaration order, that equals the token ignoring case. */
  lemma EnumParseFirst(name: string, enumName: string, constants: seq<string>, t: string, c: string)
    requires Parse(EnumArg(name, enumName, constants), t) == Some(EnumVal(enumName, c))
    ensures exists k :: 0 <= k < |constants| && constants[k] == c && EqualsIgnoreCase(c, t) &&
                        forall j :: 0 <= j < k ==> !EqualsIgnoreCase(constants[j], t)
  {
    var k := FirstWhere(constants, EnumMatch(t)).value;
    assert constants[k] == c;
    assert EnumMatch(t)(constants[k]);
    forall j | 0 <= j < k ensures !EqualsIgnoreCase(constants[j], t) {
      assert !EnumMatch(t)(constants[j]);
    }
  }

  /** The enum suggests exactly the lower-cased constant names starting with the lower-cased prefix. */
  lemma EnumSuggestions(name: string, enumName: string, constants: seq<string>, p: string, src: Source, v: string)
    ensures v in ToValues(Suggest(EnumArg(name, enumName, constants), p, src))
        <==> exists c :: c in constants && v == Lower(c) && IsPrefix(Lower(p), v)
  {
    var d := EnumArg(name, enumName, constants);
    var names := EnumNames(constants, p);
    var r := Suggest(d, p, src);
    assert d.suggester(p, src) == EnumSuggester(constants, p);
    ToValuesMembers(r, v);
    if v in ToValues(r) {
      var s :| s in r && s.value == v;
      OfMembers(names, s);
    }
    if v in names {
      var c :| c in constants && v == Lower(c) && IsPrefix(Lower(p), v);
      var s := Suggestion(v, None, None);
      OfMembers(names, s);
      LowerIdempotent(c);
      assert HasPrefixIgnoreCase(v, p);
      assert s in r;
    }
  }
}
