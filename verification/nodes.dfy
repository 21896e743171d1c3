/**
 * `SommandNode`: the command tree. A node is a literal, an argument or a root (the sealed
 * hierarchy's three concrete classes), with a name, an optional description and permission,
 * ordered children and an optional executor.
 */
module Nodes {
  import opened Wrappers
  import opened Argument

  /** An executor lambda, known only by its identity. */
  datatype Executor = Executor(id: nat)

  /** `LiteralNode`, `ArgumentNode(arg, greedy)` and `RootNode(aliases)`. */
  datatype Kind =
    | LiteralKind
    | ArgumentKind(arg: Descriptor, greedy: bool)
    | RootKind(aliases: seq<string>)

  datatype Node = Node(
    kind: Kind,
    name: string,
    description: Option<string>,
    permission: Option<string>,
    children: seq<Node>,
    executor: Option<Executor>)
  {
    /** `hasExecutor()`. */
    predicate HasExecutor() {
      executor.Some?
    }

    /** The `greedy` flag: set only by an argument node. */
    predicate Greedy() {
      kind.ArgumentKind? && kind.greedy
    }

    /** The `argument` field: set only by an argument node. */
    function ArgumentOf(): Option<Descriptor> {
      if kind.ArgumentKind? then Some(kind.arg) else None
    }
  }

  /** `LiteralNode(name, description, permission)`: a fresh leaf. */
  function NewLiteral(name: string, description: Option<string>, permission: Option<string>): (r: Node)
    ensures r.kind.LiteralKind? && r.name == name
    ensures r.description == description && r.permission == permission
    ensures r.children == [] && !r.HasExecutor() && !r.Greedy() && r.ArgumentOf().None?
  {
    Node(LiteralKind, name, description, permission, [], None)
  }

  /** `ArgumentNode(arg, description, permission, greedy)`: named after its descriptor. */
  function NewArgument(arg: Descriptor, description: Option<string>, permission: Option<string>, greedy: bool): (r: Node)
    ensures r.kind.ArgumentKind? && r.name == arg.name
    ensures r.ArgumentOf() == Some(arg) && r.Greedy() == greedy
    ensures r.description == description && r.permission == permission
    ensures r.children == [] && !r.HasExecutor()
  {
    Node(ArgumentKind(arg, greedy), arg.name, description, permission, [], None)
  }

  /** `RootNode(name, description, permission, aliases)`: the aliases kept as given. */
  function NewRoot(name: string, description: Option<string>, permission: Option<string>, aliases: seq<string>): (r: Node)
    ensures r.kind == RootKind(aliases) && r.name == name
    ensures r.description == description && r.permission == permission
    ensures r.children == [] && !r.HasExecutor() && !r.Greedy() && r.ArgumentOf().None?
  {
    Node(RootKind(aliases), name, description, permission, [], None)
  }

  /** The node reached from `n` by following the child indices in `path`. */
  function NodeAt(n: Node, path: seq<nat>): Option<Node>
    decreases |path|
  {
    if |path| == 0 then Some(n)
    else if path[0] < |n.children| then NodeAt(n.children[path[0]], path[1..])
    else None
  }

  /** The nodes entered while following `path` from `n` (not `n` itself), as far as it leads. */
  function Visited(n: Node, path: seq<nat>): seq<Node>
    decreases |path|
  {
    if |path| == 0 || path[0] >= |n.children| then []
    else [n.children[path[0]]] + Visited(n.children[path[0]], path[1..])
  }

  /** The descriptor names of the argument nodes entered while following `path` from `n`. */
  function ArgNames(n: Node, path: seq<nat>): set<string>
    decreases |path|
  {
    if |path| == 0 || path[0] >= |n.children| then {}
    else
      var c := n.children[path[0]];
      (if c.kind.ArgumentKind? then {c.kind.arg.name} else {}) + ArgNames(c, path[1..])
  }

  /** Following `[k] + p` from `n` is following `p` from child `k`, entering child `k` first. */
  lemma PathCons(n: Node, k: nat, p: seq<nat>)
    requires k < |n.children|
    ensures NodeAt(n, [k] + p) == NodeAt(n.children[k], p)
    ensures ArgNames(n, [k] + p) ==
      (if n.children[k].kind.ArgumentKind? then {n.children[k].kind.arg.name} else {}) + ArgNames(n.children[k], p)
  {
    assert ([k] + p)[1..] == p;
  }
}
