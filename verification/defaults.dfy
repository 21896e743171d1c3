/**
 * The two copies of `DefaultDispatcher`. Both dispatch with the shared tree walk; they differ only in
 * how an argument node's suggestions are obtained during completion:
 *  - the `io.github.emykr.sommand.api.v2` copy asks the descriptor for suggestion objects, which the
 *    descriptor has already filtered by permission and prefix and sorted, and keeps their values;
 *  - the `sommand.api.v2` copy asks the descriptor for plain strings, filtered by prefix and sorted
 *    in natural order.
 */
module Defaults {
  import opened Wrappers
  import opened Text
  import opened Identity
  import opened Suggestions
  import opened Argument
  import opened Nodes
  import opened Engine

  /** The io copy: `argNode.arg.suggest(prefix, source).map { it.value }`. */
  function IoGen(d: Descriptor, prefix: string, src: Source): seq<string> {
    ToValues(Argument.Suggest(d, prefix, src))
  }

  /** The sommand copy: `argNode.arg.suggest(prefix)`. */
  function LegacyGen(d: Descriptor, prefix: string, src: Source): seq<string> {
    SuggestValues(d, prefix, src)
  }

  /** `suggest(source, label, tokens, root)` of the io copy. */
  function IoSuggest(src: Source, tokens: seq<string>, root: Node): (r: seq<string>)
    ensures Seqs.NoDuplicates(r) && Sorting.SortedBy(r, Lower)
  {
    Complete(root, src, tokens, 0, IoGen)
  }

  /** `suggest(source, label, tokens, root)` of the sommand copy. */
  function LegacySuggest(src: Source, tokens: seq<string>, root: Node): (r: seq<string>)
    ensures Seqs.NoDuplicates(r) && Sorting.SortedBy(r, Lower)
  {
    Complete(root, src, tokens, 0, LegacyGen)
  }

  /** An io argument candidate is the value of a suggestion the descriptor offers, which already
      starts with the prefix and whose permission the source holds. */
  lemma IoGenMembers(d: Descriptor, prefix: string, src: Source, v: string)
    ensures v in IoGen(d, prefix, src) <==>
      exists s :: s in d.suggester(prefix, src) && s.value == v && Keep(prefix, src, s)
  {
    var list := Argument.Suggest(d, prefix, src);
    ToValuesMembers(list, v);
  }

  /** A sommand argument candidate is a string the descriptor's suggester offers that starts with the
      prefix ignoring case. */
  lemma LegacyGenMembers(d: Descriptor, prefix: string, src: Source, v: string)
    ensures v in LegacyGen(d, prefix, src) <==>
      v in ToValues(d.suggester(prefix, src)) && StartsWithIgnoreCase(v, prefix)
  {
  }

  /**
   * Completing a line whose interior tokens lead to `end` through chosen steps: a value is offered
   * by the io copy exactly when it starts with the last token ignoring case and is the name of a
   * visible literal child of `end` or the value of a permitted suggestion of a visible argument child.
   */
  lemma IoSuggestMembers(root: Node, src: Source, tokens: seq<string>, path: seq<nat>, end: Node,
                         out: map<string, Value>, v: string)
    requires |tokens| > 0
    requires Follows(root, src, tokens, 0, map[], path, Completing, end, |tokens| - 1, out)
    ensures var prefix := tokens[|tokens| - 1];
      v in IoSuggest(src, tokens, root) <==>
      (StartsWithIgnoreCase(v, prefix) &&
       ((exists c :: c in end.children && VisibleLiteral(src, c) && c.name == v) ||
        (exists c, s :: c in end.children && VisibleArgument(src, c) &&
           s in c.kind.arg.suggester(prefix, src) && s.value == v && Keep(prefix, src, s))))
  {
    var prefix := tokens[|tokens| - 1];
    CompleteFollows(root, src, tokens, 0, map[], path, end, |tokens| - 1, out, IoGen);
    ForNodeMembers(end, src, prefix, IoGen, v);
    HasPrefixIgnoreCaseIsStartsWith(v, prefix);
    IoArgumentCandidates(end, src, prefix, v);
  }

  /** Some visible argument child offers `v` exactly when one of their suggesters offers a
      suggestion with value `v` that `filterFor` keeps. */
  lemma IoArgumentCandidates(end: Node, src: Source, prefix: string, v: string)
    ensures (exists c :: c in end.children && VisibleArgument(src, c) && v in IoGen(c.kind.arg, prefix, src)) <==>
      (exists c, s :: c in end.children && VisibleArgument(src, c) &&
         s in c.kind.arg.suggester(prefix, src) && s.value == v && Keep(prefix, src, s))
  {
    if exists c :: c in end.children && VisibleArgument(src, c) && v in IoGen(c.kind.arg, prefix, src) {
      var c :| c in end.children && VisibleArgument(src, c) && v in IoGen(c.kind.arg, prefix, src);
      IoGenMembers(c.kind.arg, prefix, src, v);
    }
    if exists c, s :: c in end.children && VisibleArgument(src, c) &&
         s in c.kind.arg.suggester(prefix, src) && s.value == v && Keep(prefix, src, s) {
      var c, s :| c in end.children && VisibleArgument(src, c) &&
         s in c.kind.arg.suggester(prefix, src) && s.value == v && Keep(prefix, src, s);
      IoGenMembers(c.kind.arg, prefix, src, v);
    }
  }

  /** The same for the sommand copy, whose argument candidates are the suggester's strings. */
  lemma LegacySuggestMembers(root: Node, src: Source, tokens: seq<string>, path: seq<nat>, end: Node,
                             out: map<string, Value>, v: string)
    requires |tokens| > 0
    requires Follows(root, src, tokens, 0, map[], path, Completing, end, |tokens| - 1, out)
    ensures var prefix := tokens[|tokens| - 1];
      v in LegacySuggest(src, tokens, root) <==>
      (StartsWithIgnoreCase(v, prefix) &&
       ((exists c :: c in end.children && VisibleLiteral(src, c) && c.name == v) ||
        (exists c :: c in end.children && VisibleArgument(src, c) &&
           v in ToValues(c.kind.arg.suggester(prefix, src)))))
  {
    var prefix := tokens[|tokens| - 1];
    CompleteFollows(root, src, tokens, 0, map[], path, end, |tokens| - 1, out, LegacyGen);
    ForNodeMembers(end, src, prefix, LegacyGen, v);
    HasPrefixIgnoreCaseIsStartsWith(v, prefix);
  }
}
