/**
 * `CompatAwareDispatcher`: a second, simpler dispatcher over the same command tree. It looks the
 * root up in the registry, walks one token per step (a literal child by name first, otherwise only
 * the first argument child), and reports every failure to the sender as a message instead of
 * returning false. Message texts come from the version compat layer; only their kinds are kept.
 */
module Compat {
  import opened Wrappers
  import opened Text
  import opened Seqs
  import opened Identity
  import opened Suggestions
  import opened Argument
  import opened Nodes
  import Context
  import opened Registry
  import opened Engine

  /** The compat layer's messages: `noPermissionMessage`, `unknownSubcommandMessage(root)`,
      `argumentParseFailedMessage` and `executionErrorMessage`. */
  datatype Message =
    | NoPermission
    | UnknownSubcommand(rootLabel: string)
    | ArgumentParseFailed
    | ExecutionError

  /** `checkPermission`: a missing or blank permission is open to everyone. */
  predicate CheckPermission(src: Source, permission: Option<string>) {
    permission.None? || IsBlank(permission.value) || src.hasPermission(permission.value)
  }

  /** Where a traversal stopped (`None` for `null`), the child indices taken, the arguments
      collected and the messages sent. */
  datatype Trace = Trace(node: Option<Node>, path: seq<nat>, collected: map<string, Value>, messages: seq<Message>)

  function NamedFor(token: string): Node -> bool {
    (c: Node) => c.kind.LiteralKind? && EqualsIgnoreCase(c.name, token)
  }

  function IsArgumentNode(c: Node): bool {
    c.kind.ArgumentKind?
  }

  /** The message a refused step sends: none while collecting suggestions. */
  function Report(m: Message, suggestionMode: bool): seq<Message> {
    if suggestionMode then [] else [m]
  }

  function Step(k: nat, t: Trace): Trace {
    Trace(t.node, [k] + t.path, t.collected, t.messages)
  }

  /** `traverse(current, ctx, suggestionMode)` from token `index`. */
  function Traverse(current: Node, src: Source, tokens: seq<string>, index: nat,
                    collected: map<string, Value>, suggestionMode: bool): Trace
    decreases |tokens| - index
  {
    if index >= |tokens| then Trace(Some(current), [], collected, [])
    else
      match FirstWhere(current.children, NamedFor(tokens[index]))
      case Some(k) =>
        var lit := current.children[k];
        if !CheckPermission(src, lit.permission) then Trace(None, [], collected, Report(NoPermission, suggestionMode))
        else Step(k, Traverse(lit, src, tokens, index + 1, collected, suggestionMode))
      case None =>
        match FirstWhere(current.children, IsArgumentNode)
        case Some(k) =>
          var c := current.children[k];
          if !CheckPermission(src, c.permission) then Trace(None, [], collected, Report(NoPermission, suggestionMode))
          else if Parse(c.kind.arg, tokens[index]).None? then
            Trace(None, [], collected, Report(ArgumentParseFailed, suggestionMode))
          else
            var v := Parse(c.kind.arg, tokens[index]).value;
            Step(k, Traverse(c, src, tokens, index + 1, collected[c.kind.arg.name := v], suggestionMode))
        case None => Trace(None, [], collected, [])
  }

  /**
   * A traversal that reaches a node has taken exactly one child per remaining token, sent nothing,
   * and collected one value per argument node on the way; a failed one sent at most one message,
   * and none while collecting suggestions.
   */
  lemma TraverseShape(current: Node, src: Source, tokens: seq<string>, index: nat,
                      collected: map<string, Value>, suggestionMode: bool)
    requires index <= |tokens|
    ensures var t := Traverse(current, src, tokens, index, collected, suggestionMode);
      (t.node.Some? ==>
        (|t.path| == |tokens| - index && NodeAt(current, t.path) == t.node && t.messages == [] &&
         t.collected.Keys == collected.Keys + ArgNames(current, t.path))) &&
      |t.messages| <= 1 &&
      (suggestionMode ==> t.messages == [])
  {
    TraverseReached(current, src, tokens, index, collected, suggestionMode);
    TraverseMessages(current, src, tokens, index, collected, suggestionMode);
  }

  /** A trace that reached a node took one child per token from `index`, sent nothing, and
      collected one value per argument node entered. */
  ghost predicate Reached(current: Node, tokens: seq<string>, index: nat, collected: map<string, Value>, t: Trace) {
    t.node.Some? ==>
      |t.path| == |tokens| - index && NodeAt(current, t.path) == t.node && t.messages == [] &&
      t.collected.Keys == collected.Keys + ArgNames(current, t.path)
  }

  /** The success half of `TraverseShape`, by induction over the tokens. */
  lemma {:induction false} TraverseReached(current: Node, src: Source, tokens: seq<string>, index: nat,
                                           collected: map<string, Value>, suggestionMode: bool)
    requires index <= |tokens|
    ensures Reached(current, tokens, index, collected, Traverse(current, src, tokens, index, collected, suggestionMode))
    decreases |tokens| - index
  {
    if index < |tokens| {
      var t := Traverse(current, src, tokens, index, collected, suggestionMode);
      var lit := FirstWhere(current.children, NamedFor(tokens[index]));
      var arg := FirstWhere(current.children, IsArgumentNode);
      if lit.Some? {
        var k := lit.value;
        var c := current.children[k];
        if CheckPermission(src, c.permission) {
          var rest := Traverse(c, src, tokens, index + 1, collected, suggestionMode);
          assert t == Step(k, rest);
          TraverseReached(c, src, tokens, index + 1, collected, suggestionMode);
          ReachedStep(current, tokens, index, collected, collected, k, rest);
        }
      } else if arg.Some? {
        var k := arg.value;
        var c := current.children[k];
        if CheckPermission(src, c.permission) && Parse(c.kind.arg, tokens[index]).Some? {
          var next := collected[c.kind.arg.name := Parse(c.kind.arg, tokens[index]).value];
          var rest := Traverse(c, src, tokens, index + 1, next, suggestionMode);
          assert t == Step(k, rest);
          TraverseReached(c, src, tokens, index + 1, next, suggestionMode);
          ReachedStep(current, tokens, index, collected, next, k, rest);
        }
      }
    }
  }

  /** Stepping into child `k` keeps `Reached` when the child's arguments are the parent's plus the
      child's own name, if it is an argument node. */
  lemma ReachedStep(current: Node, tokens: seq<string>, index: nat, collected: map<string, Value>,
                    next: map<string, Value>, k: nat, rest: Trace)
    requires index < |tokens| && k < |current.children|
    requires next.Keys == collected.Keys +
      (if current.children[k].kind.ArgumentKind? then {current.children[k].kind.arg.name} else {})
    requires Reached(current.children[k], tokens, index + 1, next, rest)
    ensures Reached(current, tokens, index, collected, Step(k, rest))
  {
    PathCons(current, k, rest.path);
  }

  /** The message half of `TraverseShape`, by induction over the tokens. */
  lemma {:induction false} TraverseMessages(current: Node, src: Source, tokens: seq<string>, index: nat,
                                            collected: map<string, Value>, suggestionMode: bool)
    ensures var t := Traverse(current, src, tokens, index, collected, suggestionMode);
      |t.messages| <= 1 && (suggestionMode ==> t.messages == [])
    decreases |tokens| - index
  {
    if index < |tokens| {
      match FirstWhere(current.children, NamedFor(tokens[index]))
      case Some(k) =>
        TraverseMessages(current.children[k], src, tokens, index + 1, collected, suggestionMode);
      case None =>
        match FirstWhere(current.children, IsArgumentNode)
        case Some(k) =>
          var c := current.children[k];
          if Parse(c.kind.arg, tokens[index]).Some? {
            var v := Parse(c.kind.arg, tokens[index]).value;
            TraverseMessages(c, src, tokens, index + 1, collected[c.kind.arg.name := v], suggestionMode);
          }
        case None =>
    }
  }

  /** Only the first argument child is ever tried: when it refuses the token, later argument
      children that would accept it are not consulted. */
  lemma FirstArgumentDecides(current: Node, src: Source, tokens: seq<string>, index: nat,
                             collected: map<string, Value>, suggestionMode: bool, k: nat)
    requires index < |tokens|
    requires FirstWhere(current.children, NamedFor(tokens[index])).None?
    requires FirstWhere(current.children, IsArgumentNode) == Some(k)
    requires Parse(current.children[k].kind.arg, tokens[index]).None?
    ensures var t := Traverse(current, src, tokens, index, collected, suggestionMode);
      t.node.None? &&
      t.messages == if CheckPermission(src, current.children[k].permission) then Report(ArgumentParseFailed, suggestionMode)
                    else Report(NoPermission, suggestionMode)
  {
  }

  /** A permission failure ends the walk: when the first literal child named by the token is not
      permitted, the traversal fails with the no-permission message (none while collecting
      suggestions), and no other child is tried. */
  lemma LiteralPermissionEndsWalk(current: Node, src: Source, tokens: seq<string>, index: nat,
                                  collected: map<string, Value>, suggestionMode: bool, k: nat)
    requires index < |tokens|
    requires FirstWhere(current.children, NamedFor(tokens[index])) == Some(k)
    requires !CheckPermission(src, current.children[k].permission)
    ensures var t := Traverse(current, src, tokens, index, collected, suggestionMode);
      t.node.None? && t.messages == Report(NoPermission, suggestionMode)
  {
  }

  /** The same for the first argument child, when no literal is named by the token: its refused
      permission ends the walk before its parser is consulted, even if a later argument child is
      permitted. */
  lemma ArgumentPermissionEndsWalk(current: Node, src: Source, tokens: seq<string>, index: nat,
                                   collected: map<string, Value>, suggestionMode: bool, k: nat)
    requires index < |tokens|
    requires FirstWhere(current.children, NamedFor(tokens[index])).None?
    requires FirstWhere(current.children, IsArgumentNode) == Some(k)
    requires !CheckPermission(src, current.children[k].permission)
    ensures var t := Traverse(current, src, tokens, index, collected, suggestionMode);
      t.node.None? && t.messages == Report(NoPermission, suggestionMode)
  {
  }

  /** What `dispatch` did: its return value (`None` when an exception escaped), the messages sent
      and the executor calls made. */
  datatype Outcome = Outcome(returned: Option<bool>, messages: seq<Message>, invoked: seq<Invocation>)

  /** How an executor call ends: normally, with an `Exception`, or with an `Error` (such as the
      `NotImplementedError` of `TODO()`), which `catch (ex: Exception)` does not catch. */
  datatype Thrown = Completes | ThrowsException | ThrowsError

  /** `root.aliases.first()`; it throws on an empty alias list. */
  function FirstAlias(root: Node): Option<string> {
    if root.kind.RootKind? && |root.kind.aliases| > 0 then Some(root.kind.aliases[0]) else None
  }

  /** The unknown-subcommand ending: the message names the first alias. */
  function Unknown(root: Node, sent: seq<Message>): Outcome {
    match FirstAlias(root)
    case None => Outcome(None, sent, [])
    case Some(a) => Outcome(Some(true), sent + [UnknownSubcommand(a)], [])
  }

  /**
   * `dispatch(sender, label, tokens)`. `raises` says how each invocation ends; an `Exception` is
   * caught and reported, an `Error` escapes.
   */
  function Dispatch(reg: Registry, src: Source, cmdLabel: string, tokens: seq<string>,
                    raises: Invocation -> Thrown): (r: Outcome)
    ensures r.returned == Some(false) <==> Get(reg, cmdLabel).None?
    ensures r.returned == Some(false) ==> r.messages == [] && r.invoked == []
    ensures |r.invoked| <= 1
  {
    match Get(reg, cmdLabel)
    case None => Outcome(Some(false), [], [])
    case Some(root) =>
      if !CheckPermission(src, root.permission) then Outcome(Some(true), [NoPermission], [])
      else
        var t := Traverse(root, src, tokens, 0, map[], false);
        match t.node
        case None => Unknown(root, t.messages)
        case Some(n) =>
          match n.executor
          case None => Unknown(root, t.messages)
          case Some(e) =>
            var inv := Invocation(e, Context.CommandContext(src, cmdLabel, tokens, t.collected));
            match raises(inv)
            case Completes => Outcome(Some(true), [], [inv])
            case ThrowsException => Outcome(Some(true), [ExecutionError], [inv])
            case ThrowsError => Outcome(None, [], [inv])
  }

  /**
   * `dispatch` calls an executor exactly when the label is registered, the root's permission passes
   * and the traversal ends at a node with an executor; it then calls that executor once, on the
   * collected arguments, reports the error message only if the executor throws an `Exception`, and
   * returns true unless it throws an `Error`.
   */
  lemma DispatchInvokes(reg: Registry, src: Source, cmdLabel: string, tokens: seq<string>, raises: Invocation -> Thrown)
    ensures var r := Dispatch(reg, src, cmdLabel, tokens, raises);
      (r.invoked != [] <==>
        (Get(reg, cmdLabel).Some? && CheckPermission(src, Get(reg, cmdLabel).value.permission) &&
         var t := Traverse(Get(reg, cmdLabel).value, src, tokens, 0, map[], false);
         t.node.Some? && t.node.value.HasExecutor())) &&
      (r.invoked != [] ==>
        var root := Get(reg, cmdLabel).value;
        var t := Traverse(root, src, tokens, 0, map[], false);
        NodeAt(root, t.path) == t.node && |t.path| == |tokens| &&
        Some(r.invoked[0].executor) == t.node.value.executor &&
        r.invoked[0].context == Context.CommandContext(src, cmdLabel, tokens, t.collected) &&
        (r.returned == Some(true) <==> !raises(r.invoked[0]).ThrowsError?) &&
        (r.returned.None? <==> raises(r.invoked[0]).ThrowsError?) &&
        (r.messages == [ExecutionError] <==> raises(r.invoked[0]).ThrowsException?) &&
        (r.messages == [] <==> !raises(r.invoked[0]).ThrowsException?)) &&
      |r.messages| <= 2
  {
    if Get(reg, cmdLabel).Some? && CheckPermission(src, Get(reg, cmdLabel).value.permission) {
      var root := Get(reg, cmdLabel).value;
      TraverseShape(root, src, tokens, 0, map[], false);
      RunOutcome(root, Traverse(root, src, tokens, 0, map[], false), src, cmdLabel, tokens, raises);
    }
  }

  /** The part of `dispatch` after the root's permission passed, given the traversal `t`. */
  lemma RunOutcome(root: Node, t: Trace, src: Source, cmdLabel: string, tokens: seq<string>, raises: Invocation -> Thrown)
    requires |t.messages| <= 1 && (t.node.Some? ==> t.messages == [])
    ensures var r := match t.node
        case None => Unknown(root, t.messages)
        case Some(n) =>
          match n.executor
          case None => Unknown(root, t.messages)
          case Some(e) =>
            var inv := Invocation(e, Context.CommandContext(src, cmdLabel, tokens, t.collected));
            match raises(inv)
            case Completes => Outcome(Some(true), [], [inv])
            case ThrowsException => Outcome(Some(true), [ExecutionError], [inv])
            case ThrowsError => Outcome(None, [], [inv]);
      (r.invoked != [] <==> t.node.Some? && t.node.value.HasExecutor()) &&
      (r.invoked != [] ==>
        Some(r.invoked[0].executor) == t.node.value.executor &&
        r.invoked[0].context == Context.CommandContext(src, cmdLabel, tokens, t.collected) &&
        (r.returned == Some(true) <==> !raises(r.invoked[0]).ThrowsError?) &&
        (r.returned.None? <==> raises(r.invoked[0]).ThrowsError?) &&
        (r.messages == [ExecutionError] <==> raises(r.invoked[0]).ThrowsException?) &&
        (r.messages == [] <==> !raises(r.invoked[0]).ThrowsException?)) &&
      |r.messages| <= 2
  {
  }

  /**
   * What a found root that runs nothing sends: the no-permission message alone when its own
   * permission fails; otherwise the traversal's message, if any, followed by the unknown-subcommand
   * message naming the first alias, or an escaping exception when the root has no alias.
   */
  lemma DispatchRefusals(reg: Registry, src: Source, cmdLabel: string, tokens: seq<string>, raises: Invocation -> Thrown)
    requires Get(reg, cmdLabel).Some?
    ensures var root := Get(reg, cmdLabel).value;
      var r := Dispatch(reg, src, cmdLabel, tokens, raises);
      (!CheckPermission(src, root.permission) ==> r == Outcome(Some(true), [NoPermission], [])) &&
      (CheckPermission(src, root.permission) && r.invoked == [] ==>
        var t := Traverse(root, src, tokens, 0, map[], false);
        match FirstAlias(root)
        case None => r == Outcome(None, t.messages, [])
        case Some(a) => r == Outcome(Some(true), t.messages + [UnknownSubcommand(a)], []))
  {
    var root := Get(reg, cmdLabel).value;
    if CheckPermission(src, root.permission) {
      DispatchInvokes(reg, src, cmdLabel, tokens, raises);
    }
  }

  /** Once the root is found and has an alias to name, `true` is returned on every path except an
      `Error` escaping from the executor. */
  lemma DispatchHandled(reg: Registry, src: Source, cmdLabel: string, tokens: seq<string>, raises: Invocation -> Thrown)
    requires Get(reg, cmdLabel).Some? && FirstAlias(Get(reg, cmdLabel).value).Some?
    ensures var r := Dispatch(reg, src, cmdLabel, tokens, raises);
      r.returned != Some(false) &&
      (r.returned.None? <==> r.invoked != [] && raises(r.invoked[0]).ThrowsError?)
  {
  }

  // ---------------------------------------------------------------- suggestions

  function LastOrEmpty(tokens: seq<string>): string {
    if |tokens| > 0 then tokens[|tokens| - 1] else ""
  }

  function HintsFor(src: Source, prefix: string): Node -> seq<string> {
    (c: Node) => if c.kind.ArgumentKind? then ToValues(Argument.Suggest(c.kind.arg, prefix, src)) else []
  }

  /** The literal part: permitted literal children's names starting with the last token ignoring case. */
  function ChildLiterals(node: Node, src: Source, last: string): seq<string> {
    Filter(Map(Filter(node.children, (c: Node) => c.kind.LiteralKind? && CheckPermission(src, c.permission)), NameOf),
           (v: string) => StartsWithIgnoreCase(v, last))
  }

  /** The hint part: every suggestion of every permitted argument child, unfiltered here. */
  function ArgumentHints(node: Node, src: Source, last: string): seq<string> {
    FlatMap(Filter(node.children, (c: Node) => c.kind.ArgumentKind? && CheckPermission(src, c.permission)),
            HintsFor(src, last))
  }

  /** `suggest(sender, label, tokens)`: the traversal covers every token, the last one included. */
  function Suggest(reg: Registry, src: Source, cmdLabel: string, tokens: seq<string>): (r: seq<string>)
    ensures NoDuplicates(r)
    ensures Get(reg, cmdLabel).None? ==> r == []
    ensures Get(reg, cmdLabel).Some? && Traverse(Get(reg, cmdLabel).value, src, tokens, 0, map[], true).node.None? ==>
      r == []
  {
    match Get(reg, cmdLabel)
    case None => []
    case Some(root) =>
      match Traverse(root, src, tokens, 0, map[], true).node
      case None => []
      case Some(n) =>
        var last := LastOrEmpty(tokens);
        Distinct(ChildLiterals(n, src, last) + ArgumentHints(n, src, last))
  }

  /** Literals come first: the result is the distinct literal names, followed by the hints that are
      not among them, each once. */
  lemma SuggestLiteralsFirst(reg: Registry, src: Source, cmdLabel: string, tokens: seq<string>)
    requires Get(reg, cmdLabel).Some?
    requires Traverse(Get(reg, cmdLabel).value, src, tokens, 0, map[], true).node.Some?
    ensures var n := Traverse(Get(reg, cmdLabel).value, src, tokens, 0, map[], true).node.value;
      var lits := ChildLiterals(n, src, LastOrEmpty(tokens));
      Suggest(reg, src, cmdLabel, tokens) ==
        Distinct(lits) + DistinctFrom(ArgumentHints(n, src, LastOrEmpty(tokens)), set x | x in lits)
  {
    var n := Traverse(Get(reg, cmdLabel).value, src, tokens, 0, map[], true).node.value;
    LiteralsFirstAt(n, src, LastOrEmpty(tokens));
  }

  lemma LiteralsFirstAt(n: Node, src: Source, last: string)
    ensures Distinct(ChildLiterals(n, src, last) + ArgumentHints(n, src, last)) ==
      Distinct(ChildLiterals(n, src, last)) + DistinctFrom(ArgumentHints(n, src, last), set x | x in ChildLiterals(n, src, last))
  {
    DistinctFromAppend(ChildLiterals(n, src, last), ArgumentHints(n, src, last), {});
    assert {} + (set x | x in ChildLiterals(n, src, last)) == set x | x in ChildLiterals(n, src, last);
  }

  /** A literal name is offered exactly when it starts with the last token ignoring case and names a
      permitted literal child of the node the tokens lead to. */
  lemma SuggestLiteralMembers(reg: Registry, src: Source, cmdLabel: string, tokens: seq<string>, v: string)
    requires Get(reg, cmdLabel).Some?
    requires Traverse(Get(reg, cmdLabel).value, src, tokens, 0, map[], true).node.Some?
    ensures var n := Traverse(Get(reg, cmdLabel).value, src, tokens, 0, map[], true).node.value;
      v in ChildLiterals(n, src, LastOrEmpty(tokens)) <==>
        (StartsWithIgnoreCase(v, LastOrEmpty(tokens)) &&
         exists c :: c in n.children && c.kind.LiteralKind? && CheckPermission(src, c.permission) && c.name == v)
  {
    var n := Traverse(Get(reg, cmdLabel).value, src, tokens, 0, map[], true).node.value;
    ChildLiteralsMembers(n, src, LastOrEmpty(tokens), v);
  }

  lemma ChildLiteralsMembers(n: Node, src: Source, last: string, v: string)
    ensures v in ChildLiterals(n, src, last) <==>
      (StartsWithIgnoreCase(v, last) &&
       exists c :: c in n.children && c.kind.LiteralKind? && CheckPermission(src, c.permission) && c.name == v)
  {
    var visible := Filter(n.children, (c: Node) => c.kind.LiteralKind? && CheckPermission(src, c.permission));
    var names := Map(visible, NameOf);
    if v in names {
      var i :| 0 <= i < |names| && names[i] == v;
      assert visible[i] in visible;
    }
    if exists c :: c in visible && c.name == v {
      var c :| c in visible && c.name == v;
      var i :| 0 <= i < |visible| && visible[i] == c;
      assert names[i] == v;
    }
  }

  /** With an empty line the root's own children are offered, every permitted literal among them. */
  lemma SuggestEmptyLine(reg: Registry, src: Source, cmdLabel: string, c: Node)
    requires Get(reg, cmdLabel).Some?
    requires c in Get(reg, cmdLabel).value.children && c.kind.LiteralKind? && CheckPermission(src, c.permission)
    ensures c.name in Suggest(reg, src, cmdLabel, [])
  {
    var root := Get(reg, cmdLabel).value;
    assert c.name[..0] == "";
    SuggestLiteralMembers(reg, src, cmdLabel, [], c.name);
  }

  /** A partially typed first token that names no literal child and meets no argument child ends
      the traversal, so nothing is offered: the partial token is traversed like a complete one. */
  lemma SuggestPartialToken(reg: Registry, src: Source, cmdLabel: string, token: string)
    requires Get(reg, cmdLabel).Some?
    requires var root := Get(reg, cmdLabel).value;
      forall c :: c in root.children ==> !c.kind.ArgumentKind? && !EqualsIgnoreCase(c.name, token)
    ensures Suggest(reg, src, cmdLabel, [token]) == []
  {
    var root := Get(reg, cmdLabel).value;
    assert FirstWhere(root.children, NamedFor(token)).None? by {
      forall j | 0 <= j < |root.children| ensures !NamedFor(token)(root.children[j]) {
        assert root.children[j] in root.children;
      }
    }
    assert FirstWhere(root.children, IsArgumentNode).None? by {
      forall j | 0 <= j < |root.children| ensures !IsArgumentNode(root.children[j]) {
        assert root.children[j] in root.children;
      }
    }
  }
}
