/**
 * The tree walk shared by both copies of `DefaultDispatcher`.
 *
 * At each token the walk tries the literal children first, taking the first one (in declaration
 * order) whose name equals the token ignoring case and whose permission passes; failing that it
 * takes the first argument child whose permission passes and whose descriptor parses the input.
 * A greedy argument parses the rest of the line and consumes it; every other child consumes one
 * token. Once a child is taken the walk never comes back to try another.
 *
 * `Walk`/`Dispatch` model `walk`/`dispatch`; `Complete`/`ForNode` model `complete`/`suggestionsForNode`,
 * with the argument-suggestion source left as a parameter (`gen`) because that is where the two
 * copies differ. `Follows` is the declarative description of a walk the lemmas compare them against.
 */
module Engine {
  import opened Wrappers
  import opened Text
  import opened Seqs
  import opened Sorting
  import opened Identity
  import opened Argument
  import opened Nodes
  import opened Context

  // ---------------------------------------------------------------- one step

  /** A literal child the token selects: matching name ignoring case, passing permission. */
  predicate LiteralFits(src: Source, c: Node, token: string) {
    c.kind.LiteralKind? && EqualsIgnoreCase(c.name, token) && Passes(src, c.permission)
  }

  /** `walk` parses a greedy argument's whole remainder; `complete` always parses the token alone. */
  datatype Mode = Dispatching | Completing

  /** The text an argument child parses at `index`. */
  function ArgInput(c: Node, tokens: seq<string>, index: nat, mode: Mode): string
    requires index < |tokens|
  {
    if mode == Dispatching && c.Greedy() then JoinWithSpace(tokens[index..]) else tokens[index]
  }

  /** An argument child the input selects: passing permission and a successful parse. */
  predicate ArgumentFits(src: Source, c: Node, tokens: seq<string>, index: nat, mode: Mode)
    requires index < |tokens|
  {
    c.kind.ArgumentKind? && Passes(src, c.permission) && Parse(c.kind.arg, ArgInput(c, tokens, index, mode)).Some?
  }

  /** The tokens a step into `c` consumes: the rest of the line for a greedy argument, else one. */
  function Consumed(c: Node, tokens: seq<string>, index: nat): (r: nat)
    requires index < |tokens|
    ensures 1 <= r && index + r <= |tokens|
    ensures r == |tokens| - index <==> c.Greedy() || index + 1 == |tokens|
  {
    if c.Greedy() then |tokens| - index else 1
  }

  /** `parsed[arg.name] = value` for an argument child that parsed; other children record nothing. */
  function Record(parsed: map<string, Value>, c: Node, tokens: seq<string>, index: nat, mode: Mode): map<string, Value>
    requires index < |tokens|
  {
    if c.kind.ArgumentKind? then
      match Parse(c.kind.arg, ArgInput(c, tokens, index, mode))
      case Some(v) => parsed[c.kind.arg.name := v]
      case None => parsed
    else parsed
  }

  function LiteralFor(src: Source, token: string): Node -> bool {
    c => LiteralFits(src, c, token)
  }

  function ArgumentFor(src: Source, tokens: seq<string>, index: nat, mode: Mode): Node -> bool
    requires index < |tokens|
  {
    c => ArgumentFits(src, c, tokens, index, mode)
  }

  /** Child `k` is the one the step from `node` at `index` takes: the first fitting literal or,
      when no literal fits, the first fitting argument. */
  ghost predicate Chosen(node: Node, src: Source, tokens: seq<string>, index: nat, k: nat, mode: Mode)
    requires index < |tokens|
  {
    k < |node.children| &&
    ((LiteralFits(src, node.children[k], tokens[index]) &&
      forall j {:trigger LiteralFits(src, node.children[j], tokens[index])} ::
        0 <= j < k ==> !LiteralFits(src, node.children[j], tokens[index]))
     ||
     ((forall j {:trigger LiteralFits(src, node.children[j], tokens[index])} ::
         0 <= j < |node.children| ==> !LiteralFits(src, node.children[j], tokens[index])) &&
      ArgumentFits(src, node.children[k], tokens, index, mode) &&
      forall j {:trigger ArgumentFits(src, node.children[j], tokens, index, mode)} ::
        0 <= j < k ==> !ArgumentFits(src, node.children[j], tokens, index, mode)))
  }

  /** The two `firstOrNull` searches pick exactly the chosen child. */
  lemma ChosenIsFirst(node: Node, src: Source, tokens: seq<string>, index: nat, k: nat, mode: Mode)
    requires index < |tokens|
    ensures Chosen(node, src, tokens, index, k, mode) <==>
      (FirstWhere(node.children, LiteralFor(src, tokens[index])) == Some(k) ||
       (FirstWhere(node.children, LiteralFor(src, tokens[index])).None? &&
        FirstWhere(node.children, ArgumentFor(src, tokens, index, mode)) == Some(k)))
  {
    FirstWhereIs(node.children, LiteralFor(src, tokens[index]), k);
    FirstWhereIs(node.children, ArgumentFor(src, tokens, index, mode), k);
  }

  /** The child the step from `node` at `index` takes, if any: the first fitting literal, or failing
      that the first fitting argument. */
  function Step(node: Node, src: Source, tokens: seq<string>, index: nat, mode: Mode): (r: Option<nat>)
    requires index < |tokens|
    ensures r.Some? ==> r.value < |node.children|
  {
    match FirstWhere(node.children, LiteralFor(src, tokens[index]))
    case Some(k) => Some(k)
    case None => FirstWhere(node.children, ArgumentFor(src, tokens, index, mode))
  }

  lemma StepIsChosen(node: Node, src: Source, tokens: seq<string>, index: nat, mode: Mode, k: nat)
    requires index < |tokens|
    ensures Step(node, src, tokens, index, mode) == Some(k) <==> Chosen(node, src, tokens, index, k, mode)
  {
    ChosenIsFirst(node, src, tokens, index, k, mode);
  }

  /** Whether a step may be taken at `index`: a walk steps while tokens remain, completion only
      while the token is not the last. */
  predicate CanStep(tokens: seq<string>, index: nat, mode: Mode) {
    if mode == Dispatching then index < |tokens| else index + 1 < |tokens|
  }

  /**
   * `path` is a run of chosen steps from `node` at `index` with arguments `parsed`, arriving at
   * `end` at index `last` with arguments `out`.
   */
  ghost predicate Follows(node: Node, src: Source, tokens: seq<string>, index: nat, parsed: map<string, Value>,
                          path: seq<nat>, mode: Mode, end: Node, last: nat, out: map<string, Value>)
    decreases |path|
  {
    if |path| == 0 then end == node && last == index && out == parsed
    else
      CanStep(tokens, index, mode) && Chosen(node, src, tokens, index, path[0], mode) &&
      var c := node.children[path[0]];
      Follows(c, src, tokens, index + Consumed(c, tokens, index), Record(parsed, c, tokens, index, mode),
              path[1..], mode, end, last, out)
  }

  // ---------------------------------------------------------------- dispatch

  /** The node `walk` returns, the child indices leading to it, and the arguments parsed on the way. */
  datatype Match = Match(node: Node, path: seq<nat>, parsed: map<string, Value>)

  function Extend(k: nat, m: Option<Match>): Option<Match> {
    match m
    case None => None
    case Some(x) => Some(Match(x.node, [k] + x.path, x.parsed))
  }

  /** `walk(node, source, tokens, index, parsed)`, including its trailing fallback. */
  function Walk(node: Node, src: Source, tokens: seq<string>, index: nat, parsed: map<string, Value>): Option<Match>
    decreases |tokens| - index
  {
    if index >= |tokens| then
      if node.HasExecutor() then Some(Match(node, [], parsed)) else None
    else
      match FirstWhere(node.children, LiteralFor(src, tokens[index]))
      case Some(k) =>
        Extend(k, Walk(node.children[k], src, tokens, index + 1, parsed))
      case None =>
        match FirstWhere(node.children, ArgumentFor(src, tokens, index, Dispatching))
        case Some(k) =>
          var c := node.children[k];
          Extend(k, Walk(c, src, tokens, index + Consumed(c, tokens, index),
                         Record(parsed, c, tokens, index, Dispatching)))
        case None =>
          if node.HasExecutor() && index == |tokens| then Some(Match(node, [], parsed)) else None
  }

  /** Before the end of the line, `walk` fails where no step can be taken. */
  lemma WalkStuck(node: Node, src: Source, tokens: seq<string>, index: nat, parsed: map<string, Value>)
    requires index < |tokens| && Step(node, src, tokens, index, Dispatching).None?
    ensures Walk(node, src, tokens, index, parsed).None?
  {
    WalkArgumentStep(node, src, tokens, index, parsed, None);
  }

  /** One step of `walk` before the end of the line: the walk from the child the step takes. A
      literal consumes one token and records nothing, so both branches of `walk` are this one step. */
  lemma WalkStep(node: Node, src: Source, tokens: seq<string>, index: nat, parsed: map<string, Value>, k: nat)
    requires index < |tokens| && Step(node, src, tokens, index, Dispatching) == Some(k)
    ensures var c := node.children[k];
      Walk(node, src, tokens, index, parsed) ==
        Extend(k, Walk(c, src, tokens, index + Consumed(c, tokens, index), Record(parsed, c, tokens, index, Dispatching)))
  {
    var lit := FirstWhere(node.children, LiteralFor(src, tokens[index]));
    if lit.Some? {
      WalkLiteralStep(node, src, tokens, index, parsed, k);
      LiteralStepShape(node.children[k], tokens, index, parsed);
    } else {
      WalkArgumentStep(node, src, tokens, index, parsed, Some(k));
    }
  }

  /** `walk`'s literal branch. */
  lemma WalkLiteralStep(node: Node, src: Source, tokens: seq<string>, index: nat, parsed: map<string, Value>, k: nat)
    requires index < |tokens| && FirstWhere(node.children, LiteralFor(src, tokens[index])) == Some(k)
    ensures node.children[k].kind.LiteralKind?
    ensures Walk(node, src, tokens, index, parsed) == Extend(k, Walk(node.children[k], src, tokens, index + 1, parsed))
  {
  }

  /** A literal consumes one token and records nothing. */
  lemma LiteralStepShape(c: Node, tokens: seq<string>, index: nat, parsed: map<string, Value>)
    requires index < |tokens| && c.kind.LiteralKind?
    ensures Consumed(c, tokens, index) == 1 && Record(parsed, c, tokens, index, Dispatching) == parsed
  {
  }

  /** `walk`'s argument branch, taken when no literal fits. */
  lemma WalkArgumentStep(node: Node, src: Source, tokens: seq<string>, index: nat, parsed: map<string, Value>,
                         arg: Option<nat>)
    requires index < |tokens| && FirstWhere(node.children, LiteralFor(src, tokens[index])).None?
    requires FirstWhere(node.children, ArgumentFor(src, tokens, index, Dispatching)) == arg
    ensures arg.None? ==> Walk(node, src, tokens, index, parsed).None?
    ensures arg.Some? ==> var c := node.children[arg.value];
      Walk(node, src, tokens, index, parsed) ==
        Extend(arg.value, Walk(c, src, tokens, index + Consumed(c, tokens, index), Record(parsed, c, tokens, index, Dispatching)))
  {
  }

  /** The step `walk` takes at `index` is to the chosen child. */
  lemma WalkChosen(node: Node, src: Source, tokens: seq<string>, index: nat, parsed: map<string, Value>, k: nat)
    requires index < |tokens| && Chosen(node, src, tokens, index, k, Dispatching)
    ensures var c := node.children[k];
      Walk(node, src, tokens, index, parsed) ==
        Extend(k, Walk(c, src, tokens, index + Consumed(c, tokens, index), Record(parsed, c, tokens, index, Dispatching)))
  {
    StepIsChosen(node, src, tokens, index, Dispatching, k);
    WalkStep(node, src, tokens, index, parsed, k);
  }

  /** At the end of the line `walk` stops where it is, and no run of steps can start. */
  lemma WalkAtEnd(node: Node, src: Source, tokens: seq<string>, parsed: map<string, Value>, m: Match)
    ensures Walk(node, src, tokens, |tokens|, parsed) == if node.HasExecutor() then Some(Match(node, [], parsed)) else None
    ensures Follows(node, src, tokens, |tokens|, parsed, m.path, Dispatching, m.node, |tokens|, m.parsed) <==>
      m.path == [] && m.node == node && m.parsed == parsed
  {
    if |m.path| > 0 {
      assert !CanStep(tokens, |tokens|, Dispatching);
    }
  }

  /**
   * `walk` returns exactly the declarative resolution: a run of chosen steps that consumes every
   * token and stops at a node with an executor. So the result is unique, literals win over
   * arguments, declaration order breaks ties and nothing is retried after a failure deeper down.
   */
  lemma {:induction false} WalkIsResolution(node: Node, src: Source, tokens: seq<string>, index: nat,
                                            parsed: map<string, Value>, m: Match)
    requires index <= |tokens|
    ensures Walk(node, src, tokens, index, parsed) == Some(m) <==>
      Follows(node, src, tokens, index, parsed, m.path, Dispatching, m.node, |tokens|, m.parsed) && m.node.HasExecutor()
    decreases |tokens| - index
  {
    if Walk(node, src, tokens, index, parsed) == Some(m) {
      WalkSound(node, src, tokens, index, parsed, m);
    }
    if Follows(node, src, tokens, index, parsed, m.path, Dispatching, m.node, |tokens|, m.parsed) && m.node.HasExecutor() {
      WalkComplete(node, src, tokens, index, parsed, m);
    }
  }

  /** What `walk` returns is a resolution. */
  lemma {:induction false} WalkSound(node: Node, src: Source, tokens: seq<string>, index: nat,
                                     parsed: map<string, Value>, m: Match)
    requires index <= |tokens| && Walk(node, src, tokens, index, parsed) == Some(m)
    ensures Follows(node, src, tokens, index, parsed, m.path, Dispatching, m.node, |tokens|, m.parsed) && m.node.HasExecutor()
    decreases |tokens| - index
  {
    if index == |tokens| {
      WalkAtEnd(node, src, tokens, parsed, m);
    } else {
      var c, next, record, rest := SoundDescent(node, src, tokens, index, parsed, m);
      WalkSound(c, src, tokens, next, record, rest);
    }
  }

  /** Before the end of the line, the match `walk` returns is the chosen child's step followed by
      the match that child's walk returns, so it is a resolution when that one is. */
  lemma SoundDescent(node: Node, src: Source, tokens: seq<string>, index: nat, parsed: map<string, Value>, m: Match)
    returns (c: Node, next: nat, record: map<string, Value>, rest: Match)
    requires index < |tokens| && Walk(node, src, tokens, index, parsed) == Some(m)
    ensures index < next <= |tokens| && Walk(c, src, tokens, next, record) == Some(rest)
    ensures Follows(c, src, tokens, next, record, rest.path, Dispatching, rest.node, |tokens|, rest.parsed) ==>
      Follows(node, src, tokens, index, parsed, m.path, Dispatching, m.node, |tokens|, m.parsed)
    ensures rest.node == m.node
  {
    WalkOnPath(node, src, tokens, index, parsed, m);
    c := node.children[m.path[0]];
    next := index + Consumed(c, tokens, index);
    record := Record(parsed, c, tokens, index, Dispatching);
    rest := Match(m.node, m.path[1..], m.parsed);
    WalkChosenMatch(node, src, tokens, index, parsed, m);
    FollowsChosen(node, src, tokens, index, parsed, m);
  }

  /** A resolution is what `walk` returns. */
  lemma {:induction false} WalkComplete(node: Node, src: Source, tokens: seq<string>, index: nat,
                                        parsed: map<string, Value>, m: Match)
    requires index <= |tokens| && m.node.HasExecutor()
    requires Follows(node, src, tokens, index, parsed, m.path, Dispatching, m.node, |tokens|, m.parsed)
    ensures Walk(node, src, tokens, index, parsed) == Some(m)
    decreases |tokens| - index
  {
    if index == |tokens| {
      WalkAtEnd(node, src, tokens, parsed, m);
    } else {
      assert |m.path| > 0;
      var c := node.children[m.path[0]];
      FollowsChosen(node, src, tokens, index, parsed, m);
      WalkComplete(c, src, tokens, index + Consumed(c, tokens, index), Record(parsed, c, tokens, index, Dispatching),
                   Match(m.node, m.path[1..], m.parsed));
      WalkChosenMatch(node, src, tokens, index, parsed, m);
    }
  }

  /** `walk` returns a match through the chosen child exactly when that child's walk returns the
      rest of the match. */
  lemma WalkChosenMatch(node: Node, src: Source, tokens: seq<string>, index: nat, parsed: map<string, Value>, m: Match)
    requires index < |tokens| && |m.path| > 0 && Chosen(node, src, tokens, index, m.path[0], Dispatching)
    ensures var c := node.children[m.path[0]];
      Walk(node, src, tokens, index, parsed) == Some(m) <==>
      Walk(c, src, tokens, index + Consumed(c, tokens, index), Record(parsed, c, tokens, index, Dispatching)) ==
        Some(Match(m.node, m.path[1..], m.parsed))
  {
    var c := node.children[m.path[0]];
    WalkChosen(node, src, tokens, index, parsed, m.path[0]);
    ExtendMatch(m.path[0], Walk(node, src, tokens, index, parsed),
                Walk(c, src, tokens, index + Consumed(c, tokens, index), Record(parsed, c, tokens, index, Dispatching)), m);
  }

  /** A result extended by `k` is `m` exactly when `m` starts with `k` and the result is the rest of `m`. */
  lemma ExtendMatch(k: nat, here: Option<Match>, there: Option<Match>, m: Match)
    requires here == Extend(k, there) && |m.path| > 0 && m.path[0] == k
    ensures here == Some(m) <==> there == Some(Match(m.node, m.path[1..], m.parsed))
  {
    ExtendIs(k, there, m);
  }

  /** A run of steps whose first step is the chosen child is that step followed by a run from it. */
  lemma FollowsChosen(node: Node, src: Source, tokens: seq<string>, index: nat, parsed: map<string, Value>, m: Match)
    requires index < |tokens| && |m.path| > 0 && Chosen(node, src, tokens, index, m.path[0], Dispatching)
    ensures var c := node.children[m.path[0]];
      Follows(node, src, tokens, index, parsed, m.path, Dispatching, m.node, |tokens|, m.parsed) <==>
      Follows(c, src, tokens, index + Consumed(c, tokens, index), Record(parsed, c, tokens, index, Dispatching),
              m.path[1..], Dispatching, m.node, |tokens|, m.parsed)
  {
  }

  /** Before the end of the line, a match `walk` returns starts with the chosen child. */
  lemma WalkOnPath(node: Node, src: Source, tokens: seq<string>, index: nat, parsed: map<string, Value>, m: Match)
    requires index < |tokens| && Walk(node, src, tokens, index, parsed) == Some(m)
    ensures |m.path| > 0 && Chosen(node, src, tokens, index, m.path[0], Dispatching)
  {
    match Step(node, src, tokens, index, Dispatching)
    case None =>
      WalkStuck(node, src, tokens, index, parsed);
    case Some(j) =>
      var c := node.children[j];
      WalkStep(node, src, tokens, index, parsed, j);
      StepIsChosen(node, src, tokens, index, Dispatching, j);
      ExtendIs(j, Walk(c, src, tokens, index + Consumed(c, tokens, index), Record(parsed, c, tokens, index, Dispatching)), m);
  }

  /** `Extend(k, w)` is `m` exactly when `m`'s path starts with `k` and `w` holds the rest of `m`. */
  lemma ExtendIs(k: nat, w: Option<Match>, m: Match)
    ensures Extend(k, w) == Some(m) <==>
      |m.path| > 0 && m.path[0] == k && w == Some(Match(m.node, m.path[1..], m.parsed))
  {
    if w.Some? {
      assert ([k] + w.value.path)[1..] == w.value.path;
    }
    if |m.path| > 0 {
      assert m.path == [m.path[0]] + m.path[1..];
    }
  }

  /** A run of steps ends at the node its path leads to, entering one node per step. */
  lemma {:induction false} FollowsLeadsToEnd(node: Node, src: Source, tokens: seq<string>, index: nat,
                                             parsed: map<string, Value>, path: seq<nat>, mode: Mode,
                                             end: Node, last: nat, out: map<string, Value>)
    requires Follows(node, src, tokens, index, parsed, path, mode, end, last, out)
    ensures NodeAt(node, path) == Some(end) && |Visited(node, path)| == |path|
    decreases |path|
  {
    if |path| > 0 {
      var c := node.children[path[0]];
      FollowsLeadsToEnd(c, src, tokens, index + Consumed(c, tokens, index), Record(parsed, c, tokens, index, mode),
                        path[1..], mode, end, last, out);
    }
  }

  /** When dispatching, a greedy argument can only be the last node entered: it consumes the rest
      of the line, so its children are never reached. */
  lemma {:induction false} FollowsGreedyIsLast(node: Node, src: Source, tokens: seq<string>, index: nat,
                                               parsed: map<string, Value>, path: seq<nat>,
                                               end: Node, last: nat, out: map<string, Value>)
    requires Follows(node, src, tokens, index, parsed, path, Dispatching, end, last, out)
    ensures forall i :: 0 <= i < |Visited(node, path)| - 1 ==> !Visited(node, path)[i].Greedy()
    decreases |path|
  {
    if |path| > 0 {
      var c := node.children[path[0]];
      var next := index + Consumed(c, tokens, index);
      FollowsGreedyIsLast(c, src, tokens, next, Record(parsed, c, tokens, index, Dispatching),
                          path[1..], end, last, out);
      var rest := Visited(c, path[1..]);
      assert Visited(node, path) == [c] + rest;
      if |path| > 1 {
        assert CanStep(tokens, next, Dispatching);
        assert !c.Greedy();
      }
      forall i | 0 <= i < |Visited(node, path)| - 1 ensures !Visited(node, path)[i].Greedy() {
        if i > 0 {
          assert Visited(node, path)[i] == rest[i - 1];
        }
      }
    }
  }

  /** When dispatching, the arguments recorded along a run are the initial ones plus one entry per
      argument node entered, keyed by its descriptor's name. */
  lemma {:induction false} FollowsParsedKeys(node: Node, src: Source, tokens: seq<string>, index: nat,
                                             parsed: map<string, Value>, path: seq<nat>,
                                             end: Node, last: nat, out: map<string, Value>)
    requires Follows(node, src, tokens, index, parsed, path, Dispatching, end, last, out)
    ensures out.Keys == parsed.Keys + ArgNames(node, path)
    decreases |path|
  {
    if |path| > 0 {
      var c := node.children[path[0]];
      var p2 := Record(parsed, c, tokens, index, Dispatching);
      FollowsParsedKeys(c, src, tokens, index + Consumed(c, tokens, index), p2, path[1..], end, last, out);
      if c.kind.ArgumentKind? {
        assert ArgumentFits(src, c, tokens, index, Dispatching);
        assert p2.Keys == parsed.Keys + {c.kind.arg.name};
      } else {
        assert p2 == parsed;
      }
    }
  }

  /** The node `walk` returns has an executor and is the one its path leads to; only the last node
      entered may be greedy; the parsed map holds the initial entries plus the names of the argument
      nodes on the path. */
  lemma WalkEndsAtExecutor(node: Node, src: Source, tokens: seq<string>, index: nat, parsed: map<string, Value>)
    requires index <= |tokens| && Walk(node, src, tokens, index, parsed).Some?
    ensures var m := Walk(node, src, tokens, index, parsed).value;
      m.node.HasExecutor() && NodeAt(node, m.path) == Some(m.node) && |Visited(node, m.path)| == |m.path| &&
      (forall i :: 0 <= i < |Visited(node, m.path)| - 1 ==> !Visited(node, m.path)[i].Greedy()) &&
      m.parsed.Keys == parsed.Keys + ArgNames(node, m.path)
  {
    var m := Walk(node, src, tokens, index, parsed).value;
    WalkIsResolution(node, src, tokens, index, parsed, m);
    FollowsLeadsToEnd(node, src, tokens, index, parsed, m.path, Dispatching, m.node, |tokens|, m.parsed);
    FollowsGreedyIsLast(node, src, tokens, index, parsed, m.path, m.node, |tokens|, m.parsed);
    FollowsParsedKeys(node, src, tokens, index, parsed, m.path, m.node, |tokens|, m.parsed);
  }

  /** `walk` only ever returns a node once every token is consumed: its fallback never fires. */
  lemma WalkFallbackUnused(node: Node, src: Source, tokens: seq<string>, index: nat, parsed: map<string, Value>)
    requires index < |tokens|
    requires FirstWhere(node.children, LiteralFor(src, tokens[index])).None?
    requires FirstWhere(node.children, ArgumentFor(src, tokens, index, Dispatching)).None?
    ensures Walk(node, src, tokens, index, parsed).None?
  {
  }

  /** No backtracking: if the chosen child's subtree fails, the whole walk fails, even when a later
      sibling would have succeeded. */
  lemma NoBacktracking(node: Node, src: Source, tokens: seq<string>, index: nat, parsed: map<string, Value>, k: nat)
    requires index < |tokens| && Chosen(node, src, tokens, index, k, Dispatching)
    requires var c := node.children[k];
      Walk(c, src, tokens, index + Consumed(c, tokens, index), Record(parsed, c, tokens, index, Dispatching)).None?
    ensures Walk(node, src, tokens, index, parsed).None?
  {
    WalkChosen(node, src, tokens, index, parsed, k);
  }

  /** The first step: a literal whose name matches but whose permission fails is passed over, and
      when any literal fits the token, the step goes to a literal. */
  lemma FirstStep(node: Node, src: Source, tokens: seq<string>, index: nat, parsed: map<string, Value>, j: nat)
    requires index < |tokens| && Walk(node, src, tokens, index, parsed).Some?
    ensures var m := Walk(node, src, tokens, index, parsed).value;
      |m.path| > 0 && m.path[0] < |node.children| &&
      ((j < |node.children| && node.children[j].kind.LiteralKind? && !Passes(src, node.children[j].permission))
         ==> m.path[0] != j) &&
      ((exists i :: 0 <= i < |node.children| && LiteralFits(src, node.children[i], tokens[index]))
        ==> node.children[m.path[0]].kind.LiteralKind?)
  {
    var m := Walk(node, src, tokens, index, parsed).value;
    WalkIsResolution(node, src, tokens, index, parsed, m);
    assert |m.path| > 0;
  }

  /** An invoked executor, with the context it was handed. */
  datatype Invocation = Invocation(executor: Executor, context: CommandContext)

  /** What `dispatch` did: its return value (`None` when the executor's exception escaped) and the
      executor calls it made, in order. */
  datatype DispatchResult = DispatchResult(returned: Option<bool>, invoked: seq<Invocation>)

  /**
   * `dispatch(source, label, tokens, root)`. `raises` says which invocations throw; the exception
   * is not caught and leaves `dispatch`.
   */
  function Dispatch(src: Source, cmdLabel: string, tokens: seq<string>, root: Node, raises: Invocation -> bool): (r: DispatchResult)
    ensures |r.invoked| <= 1
    ensures r.invoked == [] <==> Walk(root, src, tokens, 0, map[]).None?
    ensures r.invoked == [] <==> r.returned == Some(false)
    ensures r.invoked != [] ==>
      var m := Walk(root, src, tokens, 0, map[]).value;
      Some(r.invoked[0].executor) == m.node.executor &&
      r.invoked[0].context == CommandContext(src, cmdLabel, tokens, m.parsed) &&
      (r.returned == Some(true) <==> !raises(r.invoked[0])) &&
      (r.returned.None? <==> raises(r.invoked[0]))
  {
    match Walk(root, src, tokens, 0, map[])
    case None => DispatchResult(Some(false), [])
    case Some(m) =>
      WalkEndsAtExecutor(root, src, tokens, 0, map[]);
      match m.node.executor
      case None => DispatchResult(Some(false), [])
      case Some(e) =>
        var inv := Invocation(e, CommandContext(src, cmdLabel, tokens, m.parsed));
        if raises(inv) then DispatchResult(None, [inv]) else DispatchResult(Some(true), [inv])
  }

  /** A full resolution of the command line from the root. */
  ghost predicate Resolves(root: Node, src: Source, tokens: seq<string>, m: Match) {
    Follows(root, src, tokens, 0, map[], m.path, Dispatching, m.node, |tokens|, m.parsed) && m.node.HasExecutor()
  }

  /** `dispatch` runs an executor exactly when the line resolves, and then runs the resolved node's
      executor once, on the arguments parsed along the way; it returns true unless that executor throws. */
  lemma DispatchIffResolves(src: Source, cmdLabel: string, tokens: seq<string>, root: Node, raises: Invocation -> bool)
    ensures var r := Dispatch(src, cmdLabel, tokens, root, raises);
      (r.invoked != [] <==> exists m :: Resolves(root, src, tokens, m)) &&
      (forall m :: Resolves(root, src, tokens, m) ==>
        r.invoked == [Invocation(m.node.executor.value, CommandContext(src, cmdLabel, tokens, m.parsed))] &&
        (r.returned == Some(true) <==> !raises(r.invoked[0])))
  {
    var r := Dispatch(src, cmdLabel, tokens, root, raises);
    var w := Walk(root, src, tokens, 0, map[]);
    if w.Some? {
      WalkIsResolution(root, src, tokens, 0, map[], w.value);
      assert Resolves(root, src, tokens, w.value);
    }
    forall m | Resolves(root, src, tokens, m)
      ensures r.invoked == [Invocation(m.node.executor.value, CommandContext(src, cmdLabel, tokens, m.parsed))]
    {
      WalkIsResolution(root, src, tokens, 0, map[], m);
    }
  }

  // ---------------------------------------------------------------- completion

  /** The visible literal children's names. */
  predicate VisibleLiteral(src: Source, c: Node) {
    c.kind.LiteralKind? && Passes(src, c.permission)
  }

  predicate VisibleArgument(src: Source, c: Node) {
    c.kind.ArgumentKind? && Passes(src, c.permission)
  }

  function NameOf(c: Node): string {
    c.name
  }

  function PrefixFor(prefix: string): string -> bool {
    v => HasPrefixIgnoreCase(v, prefix)
  }

  function GenFor(gen: (Descriptor, string, Source) -> seq<string>, prefix: string, src: Source): Node -> seq<string> {
    (c: Node) => if c.kind.ArgumentKind? then gen(c.kind.arg, prefix, src) else []
  }

  /** The literal candidates of `suggestionsForNode`: visible literal names matching the prefix. */
  function LiteralValues(node: Node, src: Source, prefix: string): seq<string> {
    Filter(Map(Filter(node.children, (c: Node) => VisibleLiteral(src, c)), NameOf), PrefixFor(prefix))
  }

  /** The argument candidates of `suggestionsForNode`: the visible arguments' suggestions matching the prefix. */
  function ArgumentValues(node: Node, src: Source, prefix: string, gen: (Descriptor, string, Source) -> seq<string>): seq<string> {
    Filter(FlatMap(Filter(node.children, (c: Node) => VisibleArgument(src, c)), GenFor(gen, prefix, src)), PrefixFor(prefix))
  }

  /** A literal candidate is the name of a visible literal child that matches the prefix. */
  lemma LiteralValuesMembers(node: Node, src: Source, prefix: string, v: string)
    ensures v in LiteralValues(node, src, prefix) <==>
      (HasPrefixIgnoreCase(v, prefix) && exists c :: c in node.children && VisibleLiteral(src, c) && c.name == v)
  {
    var visible := Filter(node.children, (c: Node) => VisibleLiteral(src, c));
    var names := Map(visible, NameOf);
    if v in names {
      var i :| 0 <= i < |names| && names[i] == v;
      assert visible[i] in visible;
    }
    if exists c :: c in visible && c.name == v {
      var c :| c in visible && c.name == v;
      var i :| 0 <= i < |visible| && visible[i] == c;
      assert names[i] == v;
    }
  }

  /** An argument candidate is a suggestion of a visible argument child that matches the prefix. */
  lemma ArgumentValuesMembers(node: Node, src: Source, prefix: string, gen: (Descriptor, string, Source) -> seq<string>, v: string)
    ensures v in ArgumentValues(node, src, prefix, gen) <==>
      (HasPrefixIgnoreCase(v, prefix) &&
       exists c :: c in node.children && VisibleArgument(src, c) && v in gen(c.kind.arg, prefix, src))
  {
    var visible := Filter(node.children, (c: Node) => VisibleArgument(src, c));
    FlatMapMembers(visible, GenFor(gen, prefix, src), v);
    if exists x :: x in visible && v in GenFor(gen, prefix, src)(x) {
      var x :| x in visible && v in GenFor(gen, prefix, src)(x);
      assert x in node.children && VisibleArgument(src, x) && v in gen(x.kind.arg, prefix, src);
    }
    if exists c :: c in node.children && VisibleArgument(src, c) && v in gen(c.kind.arg, prefix, src) {
      var c :| c in node.children && VisibleArgument(src, c) && v in gen(c.kind.arg, prefix, src);
      assert c in visible && v in GenFor(gen, prefix, src)(c);
    }
  }

  /**
   * `suggestionsForNode(node, source, prefix)`: the visible literal names and the visible arguments'
   * suggestions that start with the prefix ignoring case, each once, sorted by lower-cased value.
   */
  function ForNode(node: Node, src: Source, prefix: string, gen: (Descriptor, string, Source) -> seq<string>): (r: seq<string>)
    ensures NoDuplicates(r)
    ensures SortedBy(r, Lower)
    ensures forall v :: v in r <==> v in LiteralValues(node, src, prefix) || v in ArgumentValues(node, src, prefix, gen)
  {
    var lits := LiteralValues(node, src, prefix);
    var args := ArgumentValues(node, src, prefix, gen);
    var all := Distinct(lits + args);
    assert forall v :: v in all <==> v in lits || v in args;
    SortBySorted(all, Lower);
    SortByMembers(all, Lower);
    SortByNoDuplicates(all, Lower);
    SortBy(all, Lower)
  }

  /** A value is suggested for a node exactly when it starts with the prefix ignoring case and is the
      name of a visible literal child or a suggestion of a visible argument child. */
  lemma ForNodeMembers(node: Node, src: Source, prefix: string, gen: (Descriptor, string, Source) -> seq<string>, v: string)
    ensures v in ForNode(node, src, prefix, gen) <==>
      (HasPrefixIgnoreCase(v, prefix) &&
       ((exists c :: c in node.children && VisibleLiteral(src, c) && c.name == v) ||
        (exists c :: c in node.children && VisibleArgument(src, c) && v in gen(c.kind.arg, prefix, src))))
  {
    LiteralValuesMembers(node, src, prefix, v);
    ArgumentValuesMembers(node, src, prefix, gen, v);
  }

  /**
   * Where `complete(node, source, tokens, index, parsed)` ends up: the node whose candidates it lists
   * and the index of the token it completes, or `None` when an interior token matches no child. Its
   * recursion only navigates; `suggestionsForNode` is applied once, at the end (`Complete`).
   */
  function Reach(node: Node, src: Source, tokens: seq<string>, index: nat): Option<(Node, nat)>
    decreases |tokens| - index
  {
    if index + 1 >= |tokens| then Some((node, index))
    else
      match FirstWhere(node.children, LiteralFor(src, tokens[index]))
      case Some(k) => Reach(node.children[k], src, tokens, index + 1)
      case None =>
        match FirstWhere(node.children, ArgumentFor(src, tokens, index, Completing))
        case Some(k) =>
          var c := node.children[k];
          Reach(c, src, tokens, index + Consumed(c, tokens, index))
        case None => None
  }

  /** The prefix completion uses at index `last`: the token there, or "" past the end. */
  function PrefixAt(tokens: seq<string>, last: nat): string {
    if last < |tokens| then tokens[last] else ""
  }

  /** `complete(node, source, tokens, index, parsed)`: past the end it lists the node's candidates
      for "", at the last token those for that token, and otherwise it steps into the chosen child.
      The parsed map it fills is never read, so it is not carried. */
  function Complete(node: Node, src: Source, tokens: seq<string>, index: nat,
                    gen: (Descriptor, string, Source) -> seq<string>): (r: seq<string>)
    ensures NoDuplicates(r) && SortedBy(r, Lower)
  {
    match Reach(node, src, tokens, index)
    case None => []
    case Some((n, i)) => ForNode(n, src, PrefixAt(tokens, i), gen)
  }

  /** No child of `node` takes the token at `index`. */
  ghost predicate Stuck(node: Node, src: Source, tokens: seq<string>, index: nat, mode: Mode)
    requires index < |tokens|
  {
    forall k :: !Chosen(node, src, tokens, index, k, mode)
  }

  /** At an interior token, completion goes into the chosen child. */
  lemma ReachChosen(node: Node, src: Source, tokens: seq<string>, index: nat, k: nat)
    requires index + 1 < |tokens| && Chosen(node, src, tokens, index, k, Completing)
    ensures var c := node.children[k];
      Reach(node, src, tokens, index) == Reach(c, src, tokens, index + Consumed(c, tokens, index))
  {
    ChosenIsFirst(node, src, tokens, index, k, Completing);
  }

  /** At an interior token that no child takes, completion stops with nothing. */
  lemma ReachStuck(node: Node, src: Source, tokens: seq<string>, index: nat)
    requires index + 1 < |tokens| && Stuck(node, src, tokens, index, Completing)
    ensures Reach(node, src, tokens, index).None?
  {
    var lit := FirstWhere(node.children, LiteralFor(src, tokens[index]));
    var arg := FirstWhere(node.children, ArgumentFor(src, tokens, index, Completing));
    if lit.Some? {
      ChosenIsFirst(node, src, tokens, index, lit.value, Completing);
      assert false;
    } else if arg.Some? {
      ChosenIsFirst(node, src, tokens, index, arg.value, Completing);
      assert false;
    }
  }

  /** A run of chosen steps leads completion to where the run ends. */
  lemma {:induction false} ReachFollows(node: Node, src: Source, tokens: seq<string>, index: nat,
                                        parsed: map<string, Value>, path: seq<nat>, end: Node, last: nat,
                                        out: map<string, Value>)
    requires Follows(node, src, tokens, index, parsed, path, Completing, end, last, out)
    ensures Reach(node, src, tokens, index) == Reach(end, src, tokens, last)
    decreases |path|
  {
    if |path| > 0 {
      var k := path[0];
      var c := node.children[k];
      ReachChosen(node, src, tokens, index, k);
      ReachFollows(c, src, tokens, index + Consumed(c, tokens, index), Record(parsed, c, tokens, index, Completing),
                   path[1..], end, last, out);
    }
  }

  /**
   * Completion follows the chosen steps through the interior tokens (a greedy argument parsing
   * only its own token but consuming the rest), then lists the candidates of the node reached
   * for the token it stopped at; an interior token no child takes ends it with nothing.
   */
  lemma CompleteFollows(node: Node, src: Source, tokens: seq<string>, index: nat,
                        parsed: map<string, Value>, path: seq<nat>, end: Node, last: nat,
                        out: map<string, Value>, gen: (Descriptor, string, Source) -> seq<string>)
    requires Follows(node, src, tokens, index, parsed, path, Completing, end, last, out)
    ensures last + 1 >= |tokens| ==> Complete(node, src, tokens, index, gen) == ForNode(end, src, PrefixAt(tokens, last), gen)
    ensures last + 1 < |tokens| && (forall k :: !Chosen(end, src, tokens, last, k, Completing)) ==>
      Complete(node, src, tokens, index, gen) == []
  {
    ReachFollows(node, src, tokens, index, parsed, path, end, last, out);
    if last + 1 < |tokens| && Stuck(end, src, tokens, last, Completing) {
      ReachStuck(end, src, tokens, last);
    }
  }

  /** With no tokens, or with one, completion lists the root's candidates for "" or for that token. */
  lemma CompleteShortLines(root: Node, src: Source, token: string, gen: (Descriptor, string, Source) -> seq<string>)
    ensures Complete(root, src, [], 0, gen) == ForNode(root, src, "", gen)
    ensures Complete(root, src, [token], 0, gen) == ForNode(root, src, token, gen)
  {
    ReachShortLines(root, src, token);
  }

  /** With no tokens, or with one, completion stays at the root and completes "" or that token. */
  lemma ReachShortLines(root: Node, src: Source, token: string)
    ensures Reach(root, src, [], 0) == Some((root, 0)) && PrefixAt([], 0) == ""
    ensures Reach(root, src, [token], 0) == Some((root, 0)) && PrefixAt([token], 0) == token
  {
  }
}
