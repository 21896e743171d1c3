/**
 * `CommandRegistry`: root commands keyed by lower-cased name. A root is stored under its own name,
 * replacing whatever was there, and under each alias only where that key is still free.
 */
module Registry {
  import opened Wrappers
  import opened Text
  import opened Nodes

  datatype Registry = Registry(slots: map<string, Node>)

  /** The registry before anything is added. */
  function Empty(): (r: Registry)
    ensures r.slots == map[]
  {
    Registry(map[])
  }

  /** `aliases.forEach { roots.putIfAbsent(it.lowercase(), root) }`. */
  function PutIfAbsent(slots: map<string, Node>, aliases: seq<string>, root: Node): (r: map<string, Node>)
    ensures r.Keys == slots.Keys + set a | a in aliases :: Lower(a)
    ensures forall k :: k in slots ==> r[k] == slots[k]
    ensures forall k :: k in r && k !in slots ==> r[k] == root
    decreases |aliases|
  {
    if |aliases| == 0 then slots
    else
      var k := Lower(aliases[0]);
      var next := if k in slots then slots else slots[k := root];
      LoweredSplit(aliases);
      PutIfAbsent(next, aliases[1..], root)
  }

  /** The lower-cased aliases are the first one's and the rest's. */
  lemma LoweredSplit(aliases: seq<string>)
    requires |aliases| > 0
    ensures (set a | a in aliases :: Lower(a)) == {Lower(aliases[0])} + set a | a in aliases[1..] :: Lower(a)
  {
    assert forall a :: a in aliases <==> a == aliases[0] || a in aliases[1..] by {
      assert aliases == [aliases[0]] + aliases[1..];
    }
  }

  /** `add(root)`. */
  function Add(reg: Registry, root: Node): (r: Registry)
    requires root.kind.RootKind?
    ensures r.slots.Keys == reg.slots.Keys + {Lower(root.name)} + set a | a in root.kind.aliases :: Lower(a)
    ensures r.slots[Lower(root.name)] == root
    ensures forall k :: k in reg.slots && k != Lower(root.name) ==> r.slots[k] == reg.slots[k]
    ensures forall k :: k in r.slots && k !in reg.slots ==> r.slots[k] == root
  {
    Registry(PutIfAbsent(reg.slots[Lower(root.name) := root], root.kind.aliases, root))
  }

  /** `get(name)`: the lookup ignores the case of `name`. */
  function Get(reg: Registry, name: string): (r: Option<Node>)
    ensures r.Some? <==> Lower(name) in reg.slots
    ensures r.Some? ==> r.value == reg.slots[Lower(name)]
  {
    if Lower(name) in reg.slots then Some(reg.slots[Lower(name)]) else None
  }

  /** `allDistinct()`: every registered root once, however many keys lead to it. */
  ghost function AllDistinct(reg: Registry): set<Node> {
    set k | k in reg.slots :: reg.slots[k]
  }

  /** `clear()`. */
  function Clear(reg: Registry): (r: Registry)
    ensures forall name :: Get(r, name).None?
  {
    Empty()
  }

  /** A root is found under its own name, in any case, right after it is added. */
  lemma GetAfterAdd(reg: Registry, root: Node, name: string)
    requires root.kind.RootKind? && EqualsIgnoreCase(name, root.name)
    ensures Get(Add(reg, root), name) == Some(root)
  {
    EqualsIgnoreCaseIsLower(name, root.name);
  }

  /** An alias only claims a free key: a key some earlier root already held keeps that root. */
  lemma AliasFirstWins(reg: Registry, root: Node, alias: string)
    requires root.kind.RootKind? && alias in root.kind.aliases && !EqualsIgnoreCase(alias, root.name)
    ensures Get(Add(reg, root), alias) == if Lower(alias) in reg.slots then Some(reg.slots[Lower(alias)]) else Some(root)
  {
    EqualsIgnoreCaseIsLower(alias, root.name);
    assert Lower(alias) in set a | a in root.kind.aliases :: Lower(a);
  }

  /** Keys that are neither the root's name nor one of its aliases are left as they were. */
  lemma AddLeavesOthers(reg: Registry, root: Node, name: string)
    requires root.kind.RootKind? && !EqualsIgnoreCase(name, root.name)
    requires forall a :: a in root.kind.aliases ==> !EqualsIgnoreCase(name, a)
    ensures Get(Add(reg, root), name) == Get(reg, name)
  {
    EqualsIgnoreCaseIsLower(name, root.name);
    forall a | a in root.kind.aliases ensures Lower(name) != Lower(a) {
      EqualsIgnoreCaseIsLower(name, a);
    }
    assert Lower(name) !in set a | a in root.kind.aliases :: Lower(a);
  }

  /** Adding a root puts it among the distinct roots and only adds or displaces entries. */
  lemma AllDistinctAfterAdd(reg: Registry, root: Node)
    requires root.kind.RootKind?
    ensures AllDistinct(Add(reg, root)) <= AllDistinct(reg) + {root}
    ensures root in AllDistinct(Add(reg, root))
  {
    var r := Add(reg, root);
    assert r.slots[Lower(root.name)] == root;
  }

  /** After `clear` no root is left. */
  lemma ClearForgetsAll(reg: Registry)
    ensures AllDistinct(Clear(reg)) == {}
  {
  }
}
