/**
 * The command-building DSL (`SommandBuilder` and `CommandTreeBuilder`, in the loader, the DSL
 * package and the Fabric module). A builder block is modelled as the list of calls it makes:
 * `subcommand`/`param` append one child to the current node and then run their nested block on
 * that child; `executes` replaces the current node's executor. `command` builds a root named after
 * its first alias and registers it once the block has run.
 */
module Builder {
  import opened Wrappers
  import opened Argument
  import opened Nodes
  import opened Registry
  import Text

  /** One call inside a builder block. */
  datatype Op =
    | Subcommand(name: string, description: Option<string>, permission: Option<string>,
                 executes: Option<Executor>, block: seq<Op>)
    | Param(arg: Descriptor, description: Option<string>, permission: Option<string>, greedy: bool,
            executes: Option<Executor>, block: seq<Op>)
    | Executes(executor: Executor)

  /** The node a `subcommand`/`param` call creates, before its nested block runs. */
  function Fresh(op: Op): (r: Node)
    requires !op.Executes?
    ensures r.children == [] && r.executor == op.executes
    ensures op.Subcommand? ==> r.kind.LiteralKind? && r.name == op.name
    ensures op.Param? ==> r.kind == ArgumentKind(op.arg, op.greedy) && r.name == op.arg.name
    ensures r.description == op.description && r.permission == op.permission
  {
    match op
    case Subcommand(name, d, p, e, _) => NewLiteral(name, d, p).(executor := e)
    case Param(arg, d, p, g, e, _) => NewArgument(arg, d, p, g).(executor := e)
  }

  /** One call made on the builder of `node`. */
  function Apply(node: Node, op: Op): (r: Node)
    ensures r.kind == node.kind && r.name == node.name
    ensures r.description == node.description && r.permission == node.permission
    ensures op.Executes? ==> r == node.(executor := Some(op.executor))
    ensures !op.Executes? ==>
      r.executor == node.executor && |r.children| == |node.children| + 1 &&
      r.children[..|node.children|] == node.children
    decreases op, 1
  {
    match op
    case Executes(e) => node.(executor := Some(e))
    case _ =>
      var child := Run(Fresh(op), op.block);
      assert (node.children + [child])[..|node.children|] == node.children;
      node.(children := node.children + [child])
  }

  /** The calls of a block, made in order on the builder of `node`. */
  function Run(node: Node, ops: seq<Op>): (r: Node)
    ensures r.kind == node.kind && r.name == node.name
    ensures r.description == node.description && r.permission == node.permission
    ensures |r.children| >= |node.children| && r.children[..|node.children|] == node.children
    decreases ops, 0
  {
    if |ops| == 0 then node
    else
      var next := Apply(node, ops[0]);
      var r := Run(next, ops[1..]);
      assert r.children[..|node.children|] == r.children[..|next.children|][..|node.children|];
      r
  }

  /** The child a `subcommand`/`param` call contributes: its fresh node with the nested block run on it. */
  function Built(op: Op): Node
    requires !op.Executes?
    decreases op, 2
  {
    Run(Fresh(op), op.block)
  }

  /** The children a block appends, one per `subcommand`/`param` call, in call order. */
  function ChildrenOf(ops: seq<Op>): seq<Node>
    decreases |ops|
  {
    if |ops| == 0 then []
    else (if ops[0].Executes? then [] else [Built(ops[0])]) + ChildrenOf(ops[1..])
  }

  /** The executor after a block: the last `executes` call's, or `initial` when there is none. */
  function LastExecutor(ops: seq<Op>, initial: Option<Executor>): Option<Executor>
    decreases |ops|
  {
    if |ops| == 0 then initial
    else LastExecutor(ops[1..], if ops[0].Executes? then Some(ops[0].executor) else initial)
  }

  /** Running a block appends exactly its calls' children, in call order, after the existing ones,
      and leaves the executor of the last `executes` call. */
  lemma {:induction false} RunAppends(node: Node, ops: seq<Op>)
    ensures Run(node, ops).children == node.children + ChildrenOf(ops)
    ensures Run(node, ops).executor == LastExecutor(ops, node.executor)
    decreases |ops|
  {
    if |ops| > 0 {
      var next := Apply(node, ops[0]);
      RunAppends(next, ops[1..]);
      if !ops[0].Executes? {
        assert next.children == node.children + [Built(ops[0])];
      }
    }
  }

  /** A child built by `subcommand`/`param` holds its nested block's children and has an executor
      exactly when `executes` was given or the block calls `executes`. */
  lemma BuiltChild(op: Op)
    requires !op.Executes?
    ensures Built(op).children == ChildrenOf(op.block)
    ensures Built(op).executor == LastExecutor(op.block, op.executes)
  {
    RunAppends(Fresh(op), op.block);
  }

  /** Without an `executes` call in the block, the executor stays what it was. */
  lemma {:induction false} NoExecutesKeepsExecutor(ops: seq<Op>, initial: Option<Executor>)
    requires forall i :: 0 <= i < |ops| ==> !ops[i].Executes?
    ensures LastExecutor(ops, initial) == initial
    decreases |ops|
  {
    if |ops| > 0 {
      NoExecutesKeepsExecutor(ops[1..], initial);
    }
  }

  // ---------------------------------------------------------------- the named calls

  /** `literal(name, description, permission) { block }` (and the DSL's `literal`). */
  function Literal(name: string, description: Option<string>, permission: Option<string>, block: seq<Op>): Op {
    Subcommand(name, description, permission, None, block)
  }

  /** `literalExec(name, description, permission, executes)`: a leaf with an executor. */
  function LiteralExec(name: string, description: Option<string>, permission: Option<string>, e: Executor): Op {
    Subcommand(name, description, permission, Some(e), [])
  }

  /** `argument(arg, description, permission, greedy) { block }`. */
  function ArgumentCall(arg: Descriptor, description: Option<string>, permission: Option<string>, greedy: bool,
                        block: seq<Op>): Op {
    Param(arg, description, permission, greedy, None, block)
  }

  /** `argumentExec(arg, description, permission, greedy, executes)`: a leaf with an executor. */
  function ArgumentExec(arg: Descriptor, description: Option<string>, permission: Option<string>, greedy: bool,
                        e: Executor): Op {
    Param(arg, description, permission, greedy, Some(e), [])
  }

  /** `group(name) { block }`: a plain literal. */
  function Group(name: string, block: seq<Op>): Op {
    Literal(name, None, None, block)
  }

  /** `literalExec` appends one literal leaf carrying the executor. */
  lemma LiteralExecAppendsLeaf(node: Node, name: string, d: Option<string>, p: Option<string>, e: Executor)
    ensures Apply(node, LiteralExec(name, d, p, e)).children == node.children + [NewLiteral(name, d, p).(executor := Some(e))]
  {
  }

  /** `argumentExec` appends one argument leaf carrying the greedy flag and the executor. */
  lemma ArgumentExecAppendsLeaf(node: Node, arg: Descriptor, d: Option<string>, p: Option<string>, g: bool, e: Executor)
    ensures var c := Apply(node, ArgumentExec(arg, d, p, g, e)).children[|node.children|];
      c == NewArgument(arg, d, p, g).(executor := Some(e)) && c.Greedy() == g && c.name == arg.name
  {
  }

  /** `literal`, `argument` and `group` append one child without an executor unless their own block
      calls `executes`; a greedy argument's block may still add children under it. */
  lemma BlockCallsAppend(node: Node, op: Op)
    requires op.Subcommand? || op.Param?
    requires op.executes.None?
    requires forall i :: 0 <= i < |op.block| ==> !op.block[i].Executes?
    ensures var r := Apply(node, op);
      var c := r.children[|node.children|];
      r.children == node.children + [c] && !c.HasExecutor() && c.children == ChildrenOf(op.block) &&
      (op.Param? ==> c.kind == ArgumentKind(op.arg, op.greedy))
  {
    BuiltChild(op);
    NoExecutesKeepsExecutor(op.block, None);
  }

  // ---------------------------------------------------------------- commands

  /** A top-level `command(aliases, description, permission) { block }` or
      `simple(aliases, description, permission, executes)` call. */
  datatype Decl =
    | Command(aliases: seq<string>, description: Option<string>, permission: Option<string>, block: seq<Op>)
    | Simple(aliases: seq<string>, description: Option<string>, permission: Option<string>, executes: Executor)

  /** `require(aliases.isNotEmpty())`. */
  datatype BuildError = NoAliases

  /** The block `simple` runs: a single `executes` call. */
  function BlockOf(decl: Decl): seq<Op> {
    match decl
    case Command(_, _, _, block) => block
    case Simple(_, _, _, e) => [Executes(e)]
  }

  /** The root a declaration builds. */
  function BuildRoot(decl: Decl): (r: Result<Node, BuildError>)
    ensures r.Failure? <==> |decl.aliases| == 0
    ensures r.Success? ==>
      r.value.kind == RootKind(decl.aliases) && r.value.name == decl.aliases[0] &&
      r.value.description == decl.description && r.value.permission == decl.permission
  {
    if |decl.aliases| == 0 then Failure(NoAliases)
    else Success(Run(NewRoot(decl.aliases[0], decl.description, decl.permission, decl.aliases), BlockOf(decl)))
  }

  /** `simple` builds a root with the executor and no children. */
  lemma SimpleIsLeaf(aliases: seq<string>, d: Option<string>, p: Option<string>, e: Executor)
    requires |aliases| > 0
    ensures var root := BuildRoot(Simple(aliases, d, p, e)).value;
      root.children == [] && root.executor == Some(e)
  {
    RunAppends(NewRoot(aliases[0], d, p, aliases), [Executes(e)]);
  }

  /** What a sequence of top-level calls left in the registry, and the error that stopped it. */
  datatype Loaded = Loaded(registry: Registry, error: Option<BuildError>)

  /** Run the top-level calls in order against the registry; the first failing `command` throws,
      so the calls after it never run while the roots registered before it stay. */
  function Load(reg: Registry, decls: seq<Decl>): (r: Loaded)
    ensures r.error.None? <==> forall i :: 0 <= i < |decls| ==> |decls[i].aliases| > 0
    decreases |decls|
  {
    if |decls| == 0 then Loaded(reg, None)
    else
      match BuildRoot(decls[0])
      case Failure(e) => Loaded(reg, Some(e))
      case Success(root) =>
        var r := Load(Add(reg, root), decls[1..]);
        assert forall i :: 1 <= i < |decls| ==> decls[i] == decls[1..][i - 1];
        r
  }

  /** Each `command` registers its root once, after building it. */
  lemma LoadOne(reg: Registry, decl: Decl)
    requires |decl.aliases| > 0
    ensures Load(reg, [decl]) == Loaded(Add(reg, BuildRoot(decl).value), None)
  {
  }

  /** Loading two groups of calls is loading the first, then — unless it failed — the second. */
  lemma {:induction false} LoadAppend(reg: Registry, a: seq<Decl>, b: seq<Decl>)
    ensures Load(reg, a + b) == if Load(reg, a).error.None? then Load(Load(reg, a).registry, b) else Load(reg, a)
    decreases |a|
  {
    if |a| == 0 {
      assert a + b == b;
    } else {
      assert (a + b)[0] == a[0];
      assert (a + b)[1..] == a[1..] + b;
      match BuildRoot(a[0])
      case Failure(_) =>
      case Success(root) =>
        LoadAppend(Add(reg, root), a[1..], b);
    }
  }

  /** The root a successful `command` registers is found under its first alias. */
  lemma LoadedRootFound(reg: Registry, decl: Decl)
    requires |decl.aliases| > 0
    ensures Get(Load(reg, [decl]).registry, decl.aliases[0]) == Some(BuildRoot(decl).value)
  {
    LoadOne(reg, decl);
    Text.EqualsIgnoreCaseIsLower(decl.aliases[0], BuildRoot(decl).value.name);
    GetAfterAdd(reg, BuildRoot(decl).value, decl.aliases[0]);
  }
}
