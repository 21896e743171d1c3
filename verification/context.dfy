/** `CommandContext`: what an executor sees, and its typed `get`. */
module Context {
  import opened Wrappers
  import opened Identity
  import opened Argument

  datatype CommandContext = CommandContext(
    source: Source,
    commandLabel: string,
    rawArgs: seq<string>,
    parsed: map<string, Value>)

  /** The two `IllegalArgumentException`s `get` throws. */
  datatype GetError =
    | NotProvided(name: string)
    | WrongType(name: string, expected: ValueType, actual: ValueType)

  /** `get(name, type)`: the stored value when there is one and it is an instance of `type`. */
  function Get(ctx: CommandContext, name: string, t: ValueType): (r: Result<Value, GetError>)
    ensures r.Success? <==> name in ctx.parsed && IsInstance(t, ctx.parsed[name])
    ensures r.Success? ==> r.value == ctx.parsed[name]
    ensures r == Failure(NotProvided(name)) <==> name !in ctx.parsed
    ensures r.Failure? && name in ctx.parsed ==> r.error == WrongType(name, t, TypeOf(ctx.parsed[name]))
  {
    if name !in ctx.parsed then Failure(NotProvided(name))
    else
      var v := ctx.parsed[name];
      if !IsInstance(t, v) then Failure(WrongType(name, t, TypeOf(v))) else Success(v)
  }

  /** `all()`: a snapshot of the parsed arguments. */
  function All(ctx: CommandContext): map<string, Value> {
    ctx.parsed
  }

  /** Every entry of the snapshot is what `get` returns for its name when asked for its own class,
      one of that class's supertypes, or `Any`; asking for any other class, a primitive class
      object included, fails with a type error. */
  lemma GetAgreesWithAll(ctx: CommandContext, name: string, t: ValueType)
    requires name in All(ctx)
    ensures Get(ctx, name, TypeOf(All(ctx)[name])) == Success(All(ctx)[name])
    ensures Get(ctx, name, AnyType) == Success(All(ctx)[name])
    ensures t in Supertypes(TypeOf(All(ctx)[name])) ==> Get(ctx, name, t) == Success(All(ctx)[name])
    ensures t != AnyType && t != TypeOf(All(ctx)[name]) && t !in Supertypes(TypeOf(All(ctx)[name])) ==>
      Get(ctx, name, t) == Failure(WrongType(name, t, TypeOf(All(ctx)[name])))
    ensures t.PrimitiveType? ==> Get(ctx, name, t).Failure?
  {
  }

  /** The class hierarchy at work: an `Int` is a `Number` but not an `int`, a `String` is a
      `CharSequence` but not a `Number`, and an enum constant is an `Enum`. */
  lemma GetThroughSupertypes(ctx: CommandContext, name: string)
    requires name in ctx.parsed
    ensures ctx.parsed[name].IntVal? ==>
      Get(ctx, name, NumberType).Success? && Get(ctx, name, PrimitiveType("int")).Failure?
    ensures ctx.parsed[name].StrVal? ==>
      Get(ctx, name, CharSequenceType).Success? && Get(ctx, name, NumberType).Failure?
    ensures ctx.parsed[name].EnumVal? ==> Get(ctx, name, EnumBaseType).Success?
  {
  }
}
