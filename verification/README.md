# SommandAPI command engine in Dafny

SommandAPI is a Kotlin library for Minecraft server commands. A command is a tree:
- a root, with its aliases;
- literal children, matched by name;
- argument children, matched by a descriptor that parses the token.

A dispatcher takes a command line that is already split into tokens and walks the tree. It either finds the node whose executor runs, or lists tab-completion candidates for the last, partly typed token.

This project models that engine as pure functions over immutable values and proves properties of the model. It covers:

- **The node tree** (`Nodes`): `LiteralNode`, `ArgumentNode` and `RootNode` as one datatype. Each node has ordered children, an optional executor and an optional permission.
- **Argument descriptors** (`Argument`): `parse` is the parser followed by the validator. Both copies of `suggest` are modelled, plus the `string`, `greedyString`, `int`, `boolean` and `enum` factories.
- **Suggestions** (`Suggestions`): `Suggestions.of`/`withTooltips`, `filterFor` and `toValues`.
- **The default dispatcher** (`Engine`, `Defaults`): `dispatch`, `walk`, `parseArg`, `passesPermission`, `suggest`, `complete` and `suggestionsForNode`.
  - Both copies (`io.github.emykr.sommand.api.v2` and `sommand.api.v2`) run on one engine.
  - They differ only in where argument suggestions come from. The engine takes that source as a parameter, `gen`.
  - `Follows` describes a walk declaratively, as a run of chosen steps. The lemmas tie `Walk` and `Complete` to it.
  - `Walk` is `walk`. `Complete` is `complete`, split into `Reach`, which follows the interior tokens, and one call of `ForNode` for the last token.
- **The compat-aware dispatcher** (`Compat`): `dispatch`, `suggest`, `traverse` and `checkPermission`. Its rules differ from the default dispatcher's, and they are modelled as written:
  - a permission failure ends the walk;
  - only the first argument child is tried;
  - `greedy` is ignored;
  - an executor's `Exception` is caught and reported, while an `Error` escapes;
  - suggestions are not sorted.
- **The registry** (`Registry`): roots keyed by lower-cased name. The primary name overwrites its slot; an alias only takes a free slot.
- **The execution context** (`Context`): the typed `get` and `all`.
- **The builders** (`Builder`): the loader's `SommandBuilder`/`CommandTreeBuilder`, the DSL package's builder and the Fabric builder.
  - A block is the list of calls it makes.
  - `subcommand`/`param` (and `literal`, `literalExec`, `argument`, `argumentExec`, `group`) append one child. `executes` replaces the executor.
  - `command` builds a root named after its first alias and registers it.
- **The version resolver** (`Resolver`): the leftmost match of `\d+\.\d+\.\d+` and the version-to-compat table.
- **Number and colour-code strings** (`NumberStrings`, `NumberFormatter`):
  - null-safe number text;
  - placeholder templates;
  - `&`/`§` conversion and colour-code stripping;
  - the formatter classes, `NumericTemplate` and `ColorCodeStrategy`.

`Wrappers`, `Text`, `Seqs` and `Sorting` hold the Kotlin standard-library behaviour the code relies on:
- `Option` stands for nullable values; `Result` stands for thrown exceptions;
- case folding, `isBlank`, `joinToString`, `toString`/`toIntOrNull`;
- `firstOrNull`, `filter`, `map`, `flatMap`, `distinct`;
- a stable `sortedBy` specified by permutation, order and stability.

Where the two dispatcher copies disagree with their own imports, the model follows the code that runs:
- The `io` node file imports the `sommand.api.v2` descriptor, whose `suggest(prefix)` returns strings (src/main/kotlin/io/github/emykr/sommand/api/v2/node/SommandNode.kt:4).
- The `io` dispatcher instead calls `suggest(prefix, source)` and maps `.value` (src/main/kotlin/io/github/emykr/sommand/api/v2/impl/DefaultDispatcher.kt:161-164).
- The `io` engine therefore uses the two-argument, `filterFor`-based `suggest` (`Defaults.IoGen`). The `sommand.api.v2` engine uses the string `suggest` (`Defaults.LegacyGen`).

`CompatAwareDispatcher` calls `CommandRegistry.find`, `argument.parse(raw, Context)` returning a result, `argument.id` and `argument.suggestions(last, ctx)`. None of these is defined in the code base. They are modelled as follows:
- `find` is `Registry.Get`;
- the parse result is `Argument.Parse`, where `None` means failure;
- `id` is the descriptor name;
- the hints are the values of `Argument.Suggest`.

## Model

| member | source | states |
|---|---|---|
| Text.StartsWithIgnoreCaseIsLowerPrefix | src/main/kotlin/sommand/api/v2/impl/DefaultDispatcher.kt:146-154 | `startsWith(p, ignoreCase = true)` holds exactly when the lower-cased string starts with the lower-cased prefix, so the two copies' prefix tests agree |
| Text.HasPrefixIgnoreCaseIsStartsWith | src/main/kotlin/io/github/emykr/sommand/api/v2/impl/DefaultDispatcher.kt:150-156 | the guarded test `lowerPrefix.isEmpty() \|\| value.lowercase().startsWith(lowerPrefix)` accepts the same values as `startsWith(prefix, ignoreCase = true)` |
| Text.IntToStringRoundTrip | src/main/kotlin/com/github/emykr/CommandArgument.kt:47-53 | `toIntOrNull` reads back `toString` of every 32-bit integer |
| Text.EqualsIgnoreCaseIsLower | src/main/kotlin/io/github/emykr/sommand/api/v2/impl/DefaultDispatcher.kt:54 | `equals(token, ignoreCase = true)`, compared character by character, holds exactly when both lower-cased strings are equal |
| Seqs.FirstWhere | src/main/kotlin/io/github/emykr/sommand/api/v2/impl/DefaultDispatcher.kt:52-54 | `firstOrNull` gives a position whose element satisfies the test, with none before it; `None` exactly when no element does |
| Seqs.FirstWhereIs | src/main/kotlin/io/github/emykr/sommand/api/v2/impl/DefaultDispatcher.kt:59-61 | the search returns `k` iff `k` is the first position that satisfies the test |
| Seqs.Distinct | src/main/kotlin/io/github/emykr/sommand/api/v2/impl/DefaultDispatcher.kt:167-168 | `distinct()` has no duplicates and keeps exactly the input's elements |
| Seqs.DistinctFromAppend | src/main/kotlin/com/github/emykr/dispatcher/CompatAwareDispatcher.kt:89 | de-duplicating `a + b` is de-duplicating `a`, then adding `b`'s new elements in order |
| Sorting.SortBy | src/main/kotlin/io/github/emykr/sommand/api/v2/impl/DefaultDispatcher.kt:169 | `sortedBy` returns a permutation of its input, of the same length |
| Sorting.SortBySorted | src/main/kotlin/io/github/emykr/sommand/api/v2/impl/DefaultDispatcher.kt:169 | the result of `sortedBy` is ordered by key under `String.compareTo` |
| Sorting.SortByStable | src/main/kotlin/io/github/emykr/sommand/api/v2/SommandSuggestion.kt:54 | elements with equal keys keep their input order |
| Sorting.SortByMembers | src/main/kotlin/io/github/emykr/sommand/api/v2/impl/DefaultDispatcher.kt:167-169 | sorting neither adds nor drops an element |
| Sorting.SortByNoDuplicates | src/main/kotlin/io/github/emykr/sommand/api/v2/impl/DefaultDispatcher.kt:167-169 | sorting a duplicate-free list leaves it duplicate-free |
| Suggestions.ToValues | src/main/kotlin/io/github/emykr/sommand/api/v2/SommandSuggestion.kt:60 | `toValues` keeps length and order: element `i` is suggestion `i`'s value |
| Suggestions.ToValuesMembers | src/main/kotlin/sommand/api/v2/SommandSuggestion.kt:86 | a string is among the values iff some suggestion carries it |
| Suggestions.Of | src/main/kotlin/io/github/emykr/sommand/api/v2/SommandSuggestion.kt:28-29 | `of` gives one suggestion per value, in order, each without tooltip or permission |
| Suggestions.OfMembers | src/main/kotlin/sommand/api/v2/SommandSuggestion.kt:48-49 | the suggestions of `of` are exactly the plain ones over the given values |
| Suggestions.WithTooltips | src/main/kotlin/sommand/api/v2/SommandSuggestion.kt:54-55 | one suggestion per map entry: value = key, tooltip = entry value, no permission |
| Suggestions.FilterFor | src/main/kotlin/io/github/emykr/sommand/api/v2/SommandSuggestion.kt:45-55 | `filterFor` returns an empty list unchanged. It keeps exactly the suggestions whose permission passes and whose value starts with the prefix ignoring case, as a permutation of the filtered input, sorted by lower-cased value |
| Suggestions.FilterForStable | src/main/kotlin/io/github/emykr/sommand/api/v2/SommandSuggestion.kt:54 | suggestions with the same lower-cased value keep their input order |
| Suggestions.FilterForEmptyPrefix | src/main/kotlin/sommand/api/v2/SommandSuggestion.kt:76-79 | with an empty prefix every suggestion the source may see is kept |
| Argument.Parse | src/main/kotlin/com/github/emykr/CommandArgument.kt:19-22 | `parse` is `null` iff the parser gives `null` or the validator rejects; otherwise it is the parser's value unchanged |
| Argument.Suggest | src/main/kotlin/com/github/emykr/CommandArgument.kt:24-25 | `suggest(prefix, source)` keeps exactly the suggester's suggestions that `filterFor` keeps, sorted by lower-cased value |
| Argument.SuggestValues | src/main/kotlin/sommand/api/v2/CommandArgument.kt:35-37 | `suggest(prefix)` is a permutation of the suggester's strings that start with the prefix ignoring case, in natural case-sensitive order |
| Argument.StringArg | src/main/kotlin/com/github/emykr/CommandArgument.kt:31-37 | `string` accepts a token iff it is non-empty or `allowEmpty` holds, returns it unchanged, and suggests nothing |
| Argument.GreedyStringArg | src/main/kotlin/sommand/api/v2/CommandArgument.kt:52-58 | `greedyString` accepts every string unchanged and suggests nothing |
| Argument.IntArg | src/main/kotlin/com/github/emykr/CommandArgument.kt:47-53 | `int` accepts exactly the tokens the model's `toIntOrNull` reads (an optional sign and ASCII decimal digits, within 32 bits) that lie within the inclusive bounds (a missing bound does not constrain), yielding that integer |
| Argument.IntArgRoundTrip | src/main/kotlin/sommand/api/v2/CommandArgument.kt:60-69 | every in-range 32-bit value parses back from its decimal spelling |
| Argument.IntArgEmptyRange | src/main/kotlin/com/github/emykr/CommandArgument.kt:47-53 | `min > max` is not refused at construction; such a descriptor rejects every token |
| Argument.BoolArg | src/main/kotlin/com/github/emykr/CommandArgument.kt:63-80 | `boolean` (suggestion copy) parses with the fixed word lists, whose meaning `Argument.BoolVocabulary` states, and its suggester gives "true" then "false" before filtering |
| Argument.LegacyBoolArg | src/main/kotlin/sommand/api/v2/CommandArgument.kt:82-94 | `boolean` (string copy) parses with the same word lists (meaning in `Argument.BoolVocabulary`), and its suggester gives "true" then "false" before filtering |
| Argument.BoolVocabulary | src/main/kotlin/com/github/emykr/CommandArgument.kt:67-72 | true iff the lower-cased token is one of true/yes/y/on/1, false iff one of false/no/n/off/0, `null` otherwise |
| Argument.BoolExamples | src/main/kotlin/sommand/api/v2/CommandArgument.kt:86-91 | "YES" reads as true, "Off" as false, "maybe" as `null` |
| Argument.BoolSuggestions | src/main/kotlin/com/github/emykr/CommandArgument.kt:74-79 | with an empty prefix the suggestion copy offers "false" then "true" (sorted by `filterFor`) |
| Argument.LegacyBoolSuggestions | src/main/kotlin/sommand/api/v2/CommandArgument.kt:93 | with an empty prefix the string copy offers "false" then "true" |
| Argument.LegacyBoolSuggestionsUpper | src/main/kotlin/sommand/api/v2/CommandArgument.kt:35-37 | the prefix "T" keeps only "true": the prefix test ignores case |
| Argument.EnumParser | src/main/kotlin/com/github/emykr/CommandArgument.kt:103-105 | a token parses iff some constant equals it ignoring case |
| Argument.EnumNames | src/main/kotlin/sommand/api/v2/CommandArgument.kt:116-119 | the enum's suggestions are the lower-cased constant names that start with the lower-cased prefix |
| Argument.EnumArg | src/main/kotlin/com/github/emykr/CommandArgument.kt:98-114 | `enum` is named as given, typed by the enum, and parses with the first-match parser |
| Argument.EnumParseFirst | src/main/kotlin/sommand/api/v2/CommandArgument.kt:113-115 | the constant read is the first in declaration order equal to the token ignoring case |
| Argument.EnumSuggestions | src/main/kotlin/com/github/emykr/CommandArgument.kt:106-112 | a value is suggested iff it is a lower-cased constant name starting with the lower-cased prefix |
| Nodes.NewLiteral | src/main/kotlin/io/github/emykr/sommand/api/v2/node/SommandNode.kt:10-39 | a new literal node has the given name, description and permission, no children, no executor, `greedy = false` and no argument |
| Nodes.NewArgument | src/main/kotlin/io/github/emykr/sommand/api/v2/node/SommandNode.kt:41-51 | an argument node is named after its descriptor, its `argument` is that descriptor, `greedy` is the constructor flag, and it starts with no children or executor |
| Nodes.NewRoot | src/main/kotlin/sommand/api/v2/node/SommandNode.kt:56-61 | a root keeps its alias list verbatim and starts with no children, executor or argument |
| Context.Get | src/main/kotlin/com/github/emykr/CommandContext.kt:16-23 | `get` fails with "not provided" iff the name is absent, and with a type error iff the value is present but not an instance of the class (its own class, a JDK supertype of it, or `Any`); otherwise it returns the stored value |
| Context.GetAgreesWithAll | src/main/kotlin/sommand/api/v2/CommandContext.kt:21-35 | every entry of `all()` is what `get` returns under its own class, any of that class's supertypes, or `Any`; every other class, a primitive class object included, fails with a type error naming both classes |
| Context.GetThroughSupertypes | src/main/kotlin/sommand/api/v2/CommandContext.kt:21-28 | `isInstance` accepts supertypes: an `Int` is a `Number` but not an `int`, a `String` is a `CharSequence` but not a `Number`, and an enum constant is an `Enum` |
| Registry.PutIfAbsent | src/main/kotlin/io/github/emykr/sommand/api/v2/CommandRegistry.kt:15-17 | the alias loop adds exactly the lower-cased aliases as keys, leaves existing entries as they were and maps new keys to the root |
| Registry.Add | src/main/kotlin/com/github/emykr/CommandRegistry.kt:12-18 | `add` touches only the lower-cased name and alias keys; the name slot is overwritten with the root, and other existing keys keep their root |
| Registry.Get | src/main/kotlin/com/github/emykr/CommandRegistry.kt:20 | `get(n)` is found iff `n.lowercase()` is a key, and is that key's root |
| Registry.Clear | src/main/kotlin/io/github/emykr/sommand/api/v2/CommandRegistry.kt:24 | after `clear`, `get` finds nothing under any name |
| Registry.GetAfterAdd | src/main/kotlin/io/github/emykr/sommand/api/v2/CommandRegistry.kt:12-20 | after `add(r)`, `get(n)` returns `r` for any `n` equal to `r.name` ignoring case |
| Registry.AliasFirstWins | src/main/kotlin/com/github/emykr/CommandRegistry.kt:15-17 | an alias key already held keeps its earlier root; a free one gets the new root |
| Registry.AddLeavesOthers | src/main/kotlin/io/github/emykr/sommand/api/v2/CommandRegistry.kt:12-18 | names that are neither the root's name nor an alias look up as before |
| Registry.AllDistinctAfterAdd | src/main/kotlin/com/github/emykr/CommandRegistry.kt:22 | after `add(r)`, `allDistinct` contains `r` and otherwise only roots that were there before |
| Registry.ClearForgetsAll | src/main/kotlin/io/github/emykr/sommand/api/v2/CommandRegistry.kt:22-24 | after `clear`, `allDistinct` is empty |
| Engine.Consumed | src/main/kotlin/io/github/emykr/sommand/api/v2/impl/DefaultDispatcher.kt:64 | a step consumes at least one token and no more than remain; it consumes all the rest iff the argument is greedy or only one token is left |
| Engine.ChosenIsFirst | src/main/kotlin/io/github/emykr/sommand/api/v2/impl/DefaultDispatcher.kt:52-61 | the child a step takes is the first literal (in declaration order) with a matching name and passing permission, or, if there is none, the first argument child whose permission passes and that parses |
| Engine.WalkIsResolution | src/main/kotlin/io/github/emykr/sommand/api/v2/impl/DefaultDispatcher.kt:39-69 | `walk` returns a match iff the match is a run of chosen steps that consumes every token and ends at a node with an executor |
| Engine.WalkSound | src/main/kotlin/io/github/emykr/sommand/api/v2/impl/DefaultDispatcher.kt:39-69 | whatever `walk` returns is a run of chosen steps that consumes every token and ends at a node with an executor |
| Engine.WalkComplete | src/main/kotlin/io/github/emykr/sommand/api/v2/impl/DefaultDispatcher.kt:39-69 | every run of chosen steps that consumes every token and ends at a node with an executor is what `walk` returns |
| Engine.FollowsLeadsToEnd | src/main/kotlin/sommand/api/v2/impl/DefaultDispatcher.kt:41-70 | a run of steps arrives at the node its path of child indices leads to, entering one node per step |
| Engine.FollowsGreedyIsLast | src/main/kotlin/io/github/emykr/sommand/api/v2/impl/DefaultDispatcher.kt:46-65 | while dispatching, a greedy argument can only be the last node entered, so its children are never reached |
| Engine.FollowsParsedKeys | src/main/kotlin/io/github/emykr/sommand/api/v2/impl/DefaultDispatcher.kt:71-89 | the parsed map gets one key per argument node entered, the descriptor name, and nothing else |
| Engine.WalkEndsAtExecutor | src/main/kotlin/sommand/api/v2/impl/DefaultDispatcher.kt:48-50 | the node `walk` returns has an executor and is the node its path leads to; only its last node may be greedy; its keys are the argument names on the path |
| Engine.WalkFallbackUnused | src/main/kotlin/sommand/api/v2/impl/DefaultDispatcher.kt:69 | with tokens left and no child taking the token, `walk` returns `null`: the trailing fallback never returns a node |
| Engine.NoBacktracking | src/main/kotlin/io/github/emykr/sommand/api/v2/impl/DefaultDispatcher.kt:55-66 | when the chosen child's subtree fails, the whole walk fails, whatever later siblings would do |
| Engine.FirstStep | src/main/kotlin/io/github/emykr/sommand/api/v2/impl/DefaultDispatcher.kt:54-61 | a literal whose permission fails is never the first step, and when any literal fits the token the step goes to a literal |
| Engine.Dispatch | src/main/kotlin/io/github/emykr/sommand/api/v2/impl/DefaultDispatcher.kt:17-37 | at most one executor runs; none runs iff the walk fails, and then `false` is returned. Otherwise the matched node's executor runs on a context with the label, the tokens and the parsed map; `true` is returned unless it throws, and then the exception escapes |
| Engine.DispatchIffResolves | src/main/kotlin/sommand/api/v2/impl/DefaultDispatcher.kt:19-39 | an executor runs iff the line resolves. For any resolution it is exactly that node's executor, run once on that resolution's arguments |
| Engine.LiteralValuesMembers | src/main/kotlin/io/github/emykr/sommand/api/v2/impl/DefaultDispatcher.kt:152-156 | a literal candidate is the name of a literal child whose permission passes and that matches the prefix |
| Engine.ArgumentValuesMembers | src/main/kotlin/io/github/emykr/sommand/api/v2/impl/DefaultDispatcher.kt:158-165 | an argument candidate is a suggestion of a permitted argument child that matches the prefix |
| Engine.ForNode | src/main/kotlin/io/github/emykr/sommand/api/v2/impl/DefaultDispatcher.kt:145-170 | `suggestionsForNode` has no duplicates, is sorted by lower-cased value, and holds exactly the literal and argument candidates |
| Engine.ForNodeMembers | src/main/kotlin/sommand/api/v2/impl/DefaultDispatcher.kt:141-157 | a value is listed iff it starts with the prefix ignoring case and is a visible literal's name or a visible argument's suggestion |
| Engine.Complete | src/main/kotlin/io/github/emykr/sommand/api/v2/impl/DefaultDispatcher.kt:106-143 | completion output never repeats a value and is sorted by lower-cased value |
| Engine.CompleteFollows | src/main/kotlin/sommand/api/v2/impl/DefaultDispatcher.kt:106-139 | completion follows the chosen steps through the interior tokens (a greedy argument parses only its own token and consumes the rest). It lists the reached node's candidates for the token it stops at, and nothing when an interior token matches no child |
| Engine.ReachFollows | src/main/kotlin/io/github/emykr/sommand/api/v2/impl/DefaultDispatcher.kt:122-140 | navigating from a node lands where navigating from the end of any run of chosen completion steps lands, so interior tokens are followed step by step |
| Engine.CompleteShortLines | src/main/kotlin/io/github/emykr/sommand/api/v2/impl/DefaultDispatcher.kt:113-120 | an empty line completes the root's candidates for the prefix ""; a one-token line completes them for that token |
| Defaults.IoSuggest | src/main/kotlin/io/github/emykr/sommand/api/v2/impl/DefaultDispatcher.kt:96-104 | `suggest` of the `io` copy is duplicate-free and sorted by lower-cased value |
| Defaults.LegacySuggest | src/main/kotlin/sommand/api/v2/impl/DefaultDispatcher.kt:96-104 | `suggest` of the `sommand.api.v2` copy is duplicate-free and sorted by lower-cased value |
| Defaults.IoGenMembers | src/main/kotlin/io/github/emykr/sommand/api/v2/impl/DefaultDispatcher.kt:161-164 | an `io` argument candidate is the value of a suggester suggestion that `filterFor` keeps |
| Defaults.LegacyGenMembers | src/main/kotlin/sommand/api/v2/impl/DefaultDispatcher.kt:151-154 | a `sommand.api.v2` argument candidate is a suggester string that starts with the prefix ignoring case |
| Defaults.IoArgumentCandidates | src/main/kotlin/io/github/emykr/sommand/api/v2/impl/DefaultDispatcher.kt:158-165 | some visible argument child offers `v` iff one of their suggesters offers a kept suggestion with value `v` |
| Defaults.IoSuggestMembers | src/main/kotlin/io/github/emykr/sommand/api/v2/impl/DefaultDispatcher.kt:106-170 | when the interior tokens lead to a node, `v` is suggested iff it starts with the last token ignoring case and is a visible literal's name or the value of a kept suggestion of a visible argument |
| Defaults.LegacySuggestMembers | src/main/kotlin/sommand/api/v2/impl/DefaultDispatcher.kt:106-157 | the same for the `sommand.api.v2` copy, whose argument candidates are the suggester's strings |
| Compat.TraverseShape | src/main/kotlin/com/github/emykr/dispatcher/CompatAwareDispatcher.kt:96-148 | a traversal that reaches a node has taken one child per remaining token (greedy is not consulted), sent no message, and collected one value per argument node. A failed one sends at most one message, and none in suggestion mode |
| Compat.TraverseReached | src/main/kotlin/com/github/emykr/dispatcher/CompatAwareDispatcher.kt:101-148 | a traversal that reaches a node took one child per remaining token, sent nothing, and collected one value per argument node entered |
| Compat.TraverseMessages | src/main/kotlin/com/github/emykr/dispatcher/CompatAwareDispatcher.kt:105-145 | a traversal sends at most one message, and none in suggestion mode |
| Compat.LiteralPermissionEndsWalk | src/main/kotlin/com/github/emykr/dispatcher/CompatAwareDispatcher.kt:108-115 | when the first literal named by the token is not permitted, the traversal fails with the no-permission message (none in suggestion mode) and no other child is tried |
| Compat.ArgumentPermissionEndsWalk | src/main/kotlin/com/github/emykr/dispatcher/CompatAwareDispatcher.kt:122-128 | when no literal is named by the token and the first argument child is not permitted, the traversal fails with the no-permission message (none in suggestion mode), whatever later argument children allow |
| Compat.FirstArgumentDecides | src/main/kotlin/com/github/emykr/dispatcher/CompatAwareDispatcher.kt:122-139 | when no literal matches and the first argument child rejects the token, the traversal fails with that child's refusal message (none in suggestion mode); later argument children are never tried |
| Compat.Dispatch | src/main/kotlin/com/github/emykr/dispatcher/CompatAwareDispatcher.kt:24-60 | `false` iff the label is not registered, and then nothing is sent or run; at most one executor runs |
| Compat.DispatchInvokes | src/main/kotlin/com/github/emykr/dispatcher/CompatAwareDispatcher.kt:24-60 | an executor runs iff the root is registered, its permission passes and the traversal ends at a node with an executor. That executor runs once on the collected arguments; the error message is sent iff it throws an `Exception`, and `true` is returned unless it throws an `Error`, which escapes. At most two messages are ever sent |
| Compat.DispatchRefusals | src/main/kotlin/com/github/emykr/dispatcher/CompatAwareDispatcher.kt:25-41 | a found root whose permission fails sends only the no-permission message and returns `true`; otherwise, when nothing runs, the traversal's message (if any) is followed by the unknown-subcommand message naming the first alias, or an exception escapes when the root has no alias |
| Compat.DispatchHandled | src/main/kotlin/com/github/emykr/dispatcher/CompatAwareDispatcher.kt:28-58 | once the root is found (and has an alias to name), `false` is never returned, and `dispatch` returns `true` unless an executor's `Error` escapes |
| Compat.Suggest | src/main/kotlin/com/github/emykr/dispatcher/CompatAwareDispatcher.kt:66-90 | suggestions never repeat, and are empty when the label is not registered or when the traversal of the whole token list, last token included, fails |
| Compat.SuggestLiteralsFirst | src/main/kotlin/com/github/emykr/dispatcher/CompatAwareDispatcher.kt:75-89 | the result is the distinct literal names followed by the hints not among them, unsorted |
| Compat.SuggestLiteralMembers | src/main/kotlin/com/github/emykr/dispatcher/CompatAwareDispatcher.kt:73-79 | a literal is offered iff it starts with the last token (or "") ignoring case and names a permitted literal child |
| Compat.SuggestEmptyLine | src/main/kotlin/com/github/emykr/dispatcher/CompatAwareDispatcher.kt:66-79 | with no tokens, every permitted literal child of the root is offered |
| Compat.SuggestPartialToken | src/main/kotlin/com/github/emykr/dispatcher/CompatAwareDispatcher.kt:69-70 | the last token is traversed too. A partly typed token that names no literal child, with no argument child present, gives no suggestions |
| Builder.Fresh | src/main/kotlin/com/github/emykr/loader/SommandLoader.kt:87-129 | `subcommand` creates a literal and `param` an argument node with the greedy flag. Each has the given description, permission and executor, and no children |
| Builder.Apply | src/main/kotlin/com/github/emykr/loader/SommandLoader.kt:87-136 | a call keeps the node's kind, name, description and permission. `executes` replaces only the executor; any other call keeps the existing children and appends one |
| Builder.Run | src/main/kotlin/com/github/emykr/loader/SommandLoader.kt:75-144 | running a block keeps the node's own fields and the existing children as a prefix |
| Builder.RunAppends | src/main/kotlin/com/github/emykr/dsl/SommandBuilder.kt:57-117 | a block appends exactly one child per `subcommand`/`param` call, in call order; the executor is the last `executes` call's |
| Builder.BuiltChild | src/main/kotlin/com/github/emykr/loader/SommandLoader.kt:94-102 | a child built by `subcommand`/`param` holds its nested block's children; its executor is its block's last `executes`, or the `executes` argument |
| Builder.NoExecutesKeepsExecutor | src/main/kotlin/com/github/emykr/loader/SommandLoader.kt:134-136 | a block without `executes` calls leaves the executor as it was |
| Builder.LiteralExecAppendsLeaf | src/main/kotlin/com/github/emykr/dsl/SommandBuilder.kt:71-80 | `literalExec` appends one literal leaf carrying the executor |
| Builder.ArgumentExecAppendsLeaf | src/main/kotlin/com/github/emykr/dsl/SommandBuilder.kt:100-110 | `argumentExec` appends one argument leaf with the greedy flag and the executor |
| Builder.BlockCallsAppend | fabric/src/main/kotlin/com/github/emykr/fabric/dsl/SommandBuilder.kt:43-95 | `literal`, `argument` and `group` (with no `executes` inside) append one child without an executor, holding the nested block's children |
| Builder.BuildRoot | src/main/kotlin/com/github/emykr/loader/SommandLoader.kt:30-43 | `command` fails iff the alias list is empty. Otherwise the root is named after the first alias and keeps the whole list, the description and the permission |
| Builder.SimpleIsLeaf | src/main/kotlin/com/github/emykr/loader/SommandLoader.kt:48-57 | `simple` builds a root with the executor and no children |
| Builder.Load | fabric/src/main/kotlin/com/github/emykr/fabric/dsl/SommandBuilder.kt:98-101 | a sequence of top-level calls ends without error iff every declaration has an alias |
| Builder.LoadOne | src/main/kotlin/com/github/emykr/dsl/SommandBuilder.kt:16-28 | a `command` registers its root once, after building it |
| Builder.LoadAppend | fabric/src/main/kotlin/com/github/emykr/fabric/dsl/SommandBuilder.kt:13-25 | loading `a + b` is loading `a`, then `b` only if `a` did not fail |
| Builder.LoadedRootFound | src/main/kotlin/com/github/emykr/loader/SommandLoader.kt:36-42 | the registered root is found under its first alias |
| Resolver.MatchAt | src/main/kotlin/com/github/emykr/compat/CompatResolver.kt:50 | a match at `i` ends after `i`, inside the string |
| Resolver.MatchAtIsLongest | src/main/kotlin/com/github/emykr/compat/CompatResolver.kt:50-51 | the pattern matches at `i` iff `MatchAt` finds a match, and the match found is the longest; no digit follows it |
| Resolver.FindFrom | src/main/kotlin/com/github/emykr/compat/CompatResolver.kt:50-51 | a match found from `i` lies in the string, at or after `i` |
| Resolver.FindFromIsLeftmost | src/main/kotlin/com/github/emykr/compat/CompatResolver.kt:50-51 | the search fails iff the pattern matches nowhere; otherwise it returns the leftmost match |
| Resolver.ParseMcVersionFinds | src/main/kotlin/com/github/emykr/compat/CompatResolver.kt:46-52 | `parseMcVersion` is `null` for `null`, blank or matchless input. Otherwise it is the leftmost `\d+\.\d+\.\d+` substring, with greedy digit runs |
| Resolver.SnapshotExample | src/main/kotlin/com/github/emykr/compat/CompatResolver.kt:11-12 | "1.21.4-R0.1-SNAPSHOT" gives "1.21.4" |
| Resolver.PaperExample | src/main/kotlin/com/github/emykr/compat/CompatResolver.kt:11-13 | "git-Paper-123 (MC: 1.21.9)" gives "1.21.9" |
| Resolver.NoMatchBeforeGap | src/main/kotlin/com/github/emykr/compat/CompatResolver.kt:50 | no match starts where a non-digit comes before the next dot |
| Resolver.ForVersion | src/main/kotlin/com/github/emykr/compat/CompatResolver.kt:22-27 | exactly "1.21.4", "1.21.9" and "1.21.10" get their own compat; anything else falls back carrying that string. Every compat reports the version it was chosen for |
| Resolver.ExtractServerVersion | src/main/kotlin/com/github/emykr/compat/CompatResolver.kt:33-41 | the Bukkit version string is tried first, then the full version string, then "unknown" |
| Resolver.ResolveReportsVersion | src/main/kotlin/com/github/emykr/compat/CompatResolver.kt:20-28 | the resolved compat reports the extracted version; with none readable it is the fallback for "unknown" |
| Resolver.ResolveExample | src/main/kotlin/com/github/emykr/compat/CompatResolver.kt:20-28 | a server reporting "1.21.4-R0.1-SNAPSHOT" gets the 1.21.4 compat |
| NumberStrings.BasicReadsBack | src/main/kotlin/com/github/emykr/util/NumberStrings.kt:31-34 | `basic(null, t)` is `t`; a number's text reads back with `toIntOrNull` when it fits in 32 bits and is refused otherwise |
| NumberStrings.WithLocale | src/main/kotlin/com/github/emykr/util/NumberStrings.kt:41-50 | `null` gives `nullText`; a number goes to `DecimalFormat("#,##0.###")` in the locale |
| NumberStrings.WithPattern | src/main/kotlin/com/github/emykr/util/NumberStrings.kt:57-68 | a blank pattern is refused even for `null`; otherwise `null` gives `nullText` without building a `DecimalFormat`, a number with a pattern `DecimalFormat` cannot parse is refused, and any other number goes to `DecimalFormat(pattern)` |
| NumberStrings.Custom | src/main/kotlin/com/github/emykr/util/NumberStrings.kt:75-83 | `null` gives `nullText`; a number gives the formatter's text |
| NumberStrings.CustomIgnoresFormatterOnNull | src/main/kotlin/com/github/emykr/util/NumberStrings.kt:80-82 | for `null` the result does not depend on the formatter |
| NumberStrings.CustomWithLocale | src/main/kotlin/com/github/emykr/util/NumberStrings.kt:90-99 | `null` gives `nullText`; a number gives the formatter's text for the locale |
| NumberStrings.WithPrefix | src/main/kotlin/com/github/emykr/util/NumberStrings.kt:106-112 | the result starts with the prefix, and the rest is `basic` |
| NumberStrings.WithSuffix | src/main/kotlin/com/github/emykr/util/NumberStrings.kt:119-125 | the result ends with the suffix, and what comes before it is `basic` |
| NumberStrings.ReplaceAllAbsent | src/main/kotlin/com/github/emykr/util/NumberStrings.kt:141 | `replace` leaves a string without the placeholder unchanged |
| NumberStrings.ReplaceAllFirst | src/main/kotlin/com/github/emykr/util/NumberStrings.kt:141 | `replace` turns the leftmost occurrence of the placeholder into the replacement and resumes the scan right after it, so occurrences never overlap; with `NumberStrings.ReplaceAllAbsent` this determines `replace` on every input |
| NumberStrings.ReplaceAllSelf | src/main/kotlin/com/github/emykr/util/NumberStrings.kt:141 | replacing the placeholder by itself changes nothing |
| NumberStrings.ReplaceAllOneChar | src/main/kotlin/com/github/emykr/util/NumberStrings.kt:141-151 | the string and character overloads of `replace` agree on one-character strings |
| NumberStrings.Template | src/main/kotlin/com/github/emykr/util/NumberStrings.kt:132-142 | `template` fails iff the template or the placeholder is empty, and reports the template first; what it produces is stated by `NumberStrings.TemplateFirst` and `NumberStrings.TemplateWithoutPlaceholder` |
| NumberStrings.TemplateFirst | src/main/kotlin/com/github/emykr/util/NumberStrings.kt:132-142 | with non-empty strings, the first placeholder in the template becomes `basic(value, nullText)` and the rest of the template after it is filled the same way, left to right |
| NumberStrings.TemplateWithoutPlaceholder | src/main/kotlin/com/github/emykr/util/NumberStrings.kt:132-142 | a template without the placeholder comes back as it is |
| NumberStrings.TemplateOneChar | src/main/kotlin/com/github/emykr/util/NumberStrings.kt:140-141 | a one-character placeholder and value replace character by character |
| NumberStrings.ConvertMarker | src/main/kotlin/com/github/emykr/util/NumberStrings.kt:149-158 | `ampersandToSection` and `sectionToAmpersand`: `null` gives ""; otherwise the length is kept, every '&' (or '§') becomes the other marker, other characters stay, and none of the replaced marker is left |
| NumberStrings.AmpersandRoundTrip | src/main/kotlin/com/github/emykr/util/NumberStrings.kt:149-158 | `sectionToAmpersand(ampersandToSection(t)) == t` for `t` without '§' |
| NumberStrings.StripCodes | src/main/kotlin/com/github/emykr/util/NumberStrings.kt:163 | stripping only removes characters |
| NumberStrings.StripColors | src/main/kotlin/com/github/emykr/util/NumberStrings.kt:161-164 | `null` gives ""; otherwise the result is no longer than the input and uses only its characters |
| NumberStrings.StripWithoutMarkers | src/main/kotlin/com/github/emykr/util/NumberStrings.kt:163 | text without '&' or '§' passes through unchanged |
| NumberStrings.StripCommutesWithMarkerSwap | src/main/kotlin/com/github/emykr/util/NumberStrings.kt:149-164 | swapping one marker for the other before stripping gives the same result as swapping it after |
| NumberStrings.StripAfterConversion | src/main/kotlin/com/github/emykr/util/NumberStrings.kt:149-164 | converting markers and stripping colours can be done in either order |
| NumberStrings.StripIsSinglePass | src/main/kotlin/com/github/emykr/util/NumberStrings.kt:161-164 | stripping is one left-to-right pass: "&&aa" becomes "&a", which would strip further |
| NumberFormatter.NewPattern | src/main/kotlin/com/github/emykr/util/NumberFormatter.kt:42-52 | constructing a pattern formatter fails iff the pattern is blank; a malformed pattern is not checked at construction |
| NumberFormatter.FormatIsNullSafe | src/main/kotlin/com/github/emykr/util/NumberFormatter.kt:11-85 | every formatter answers `null` with its `nullText`; the custom ones answer a number with their lambda's result, the pattern and locale ones with `DecimalFormat`'s. The only failure is a pattern formatter given a number when `DecimalFormat` refuses its pattern |
| NumberFormatter.BasicFormatterIsBasic | src/main/kotlin/com/github/emykr/util/NumberFormatter.kt:21-26 | the basic formatter is `NumberStrings.basic` with its `nullText` |
| NumberFormatter.StandardPatternBuilds | src/main/kotlin/com/github/emykr/util/NumberFormatter.kt:163-167 | no standard pattern is blank, so `standardPattern` always builds |
| NumberFormatter.NewTemplate | src/main/kotlin/com/github/emykr/util/NumberFormatter.kt:109-116 | constructing a `NumericTemplate` fails iff the template or the placeholder is empty, the template checked first |
| NumberFormatter.Apply | src/main/kotlin/com/github/emykr/util/NumberFormatter.kt:121-124 | `apply` keeps the raw value, and fails exactly when the formatter does, with the formatter's error |
| NumberFormatter.ApplyAgreesWithTemplate | src/main/kotlin/com/github/emykr/util/NumberFormatter.kt:121-124 | with the basic formatter `apply` succeeds and its text is `NumberStrings.template`'s; a template without its placeholder comes back as it is |
| NumberFormatter.ApplyFillsFirst | src/main/kotlin/com/github/emykr/util/NumberFormatter.kt:121-124 | with any formatter that succeeds, `apply` keeps the raw value and its text is the template with the first placeholder replaced by the formatted number and the rest filled the same way |
| NumberFormatter.ApplyWithoutPlaceholder | src/main/kotlin/com/github/emykr/util/NumberFormatter.kt:121-124 | with any formatter that succeeds, a template without its placeholder comes back as it is |
| NumberFormatter.ApplyStrategy | src/main/kotlin/com/github/emykr/util/NumberFormatter.kt:136-143 | `KEEP` gives the input, or "" for `null` |
| NumberFormatter.StrategiesOnText | src/main/kotlin/com/github/emykr/util/NumberFormatter.kt:130-144 | every strategy maps `null` and "" to ""; only `KEEP` leaves every text as it is |
| NumberFormatter.StrategiesRoundTrip | src/main/kotlin/com/github/emykr/util/NumberFormatter.kt:136-143 | the two conversion strategies undo each other on text without '§'; stripping commutes with conversion |

## Left out

- Case folding covers only ASCII A-Z, so `lowercase(Locale.ROOT)` of non-ASCII letters is not modelled. `String.compareTo` is taken on whole characters, not UTF-16 code units.
- `double(...)` descriptors and the non-integer `Number`s of the number utilities are floating point and are not modelled. Numbers are integers, written by `Int.toString()`.
- `java.text.DecimalFormat` is two parameters. `decimal` is what `withLocale`, `withPattern`, `LocaleNumberFormatter` and `PatternNumberFormatter` output, and `wellFormed` is whether its constructor accepts a pattern. Neither DecimalFormat's pattern grammar nor its output is modelled, nor the text of the exception it throws for a malformed pattern.
- The `player(...)` descriptors depend on the Bukkit player lookup and are not modelled. The Bukkit descriptive helpers of `NumberStrings` and the thin wrappers in `NumberStringExtensions.kt` are also left out.
- The sender is modelled only as its `hasPermission` test (`Identity.Source`). Sending a message is recorded as a `Compat.Message` kind; the message texts of the compat layers are not modelled.
- Argument.IntArg: accepts only ASCII decimal digits, because the model's `toIntOrNull` does. Kotlin's reads any character `Character.digit` takes as a decimal digit (fullwidth "３", Arabic-Indic "٣"); the Unicode digit table is not modelled, so such tokens are refused here where the source accepts them.
- Text.ToIntOrNull: reads ASCII digits only, for the reason given for `Argument.IntArg`. Its sign and 32-bit range rules are modelled as written.
- Context.Get: the class hierarchy modelled is the JDK 17 one of the values the factories produce (`String`, `Integer`, `Boolean`, an enum class). The interfaces an enum class declares itself, and the supertypes of any other value class, are not modelled, so asking for those fails here where `isInstance` may succeed.
- `Compat.Message`: `ArgumentParseFailed` carries no reason, because the result type whose `error` the code reads is not defined in the code base.
- Executor bodies are opaque. An executor is known by its identity, and a run is recorded as an `Invocation` with its context. Whether it throws is the parameter `raises`.
- `Engine.Complete` does not carry the `parsed` map that `complete` fills, because the map is never read.
- `Suggestions.WithTooltips` takes the map as its entry list in iteration order.
- Nodes and roots are values: reference identity becomes value equality (this matters to `allDistinct`). `Registry.AllDistinct` is therefore ghost.
- The registries' `ConcurrentHashMap` is a sequential map; concurrency is not modelled.
- Brigadier adapters, the Fabric and Bukkit registrars, the `sommand.api.v2` loader (command map reflection) and the compat layers other than `serverVersion` are host glue over APIs that are not part of this model.
- `CustomNumberFormatter` and `LocaleAwareCustomNumberFormatter` check that the lambda is not null; the lambda is never null in this model, so the check is omitted.
- `sommandFabric` and `sommand` are modelled by `Builder.Load`, which runs the top-level calls on a registry value.
- `Builder.Apply`: `subcommand`/`param` add their child and then run the nested block on it. The model builds the child first and appends it once complete. This covers blocks made only of builder calls. The builder receivers carry no `@DslMarker`, so a nested block in the source could also call an outer builder while its child is already attached; such blocks are not modelled.
- `NumberFormatter.Apply`: its `ensures` states the raw value and when it fails, not the text. The text is characterised for every formatter by `NumberFormatter.ApplyFillsFirst` and `NumberFormatter.ApplyWithoutPlaceholder`, and for the basic formatter by `NumberFormatter.ApplyAgreesWithTemplate`.
