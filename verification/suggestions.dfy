/**
 * `SommandSuggestion`: a completion candidate with an optional tooltip and an optional permission,
 * the `Suggestions` factories, and the `filterFor`/`toValues` list helpers.
 */
module Suggestions {
  import opened Wrappers
  import opened Text
  import opened Seqs
  import opened Sorting
  import opened Identity

  /** `SimpleSommandSuggestion`. */
  datatype Suggestion = Suggestion(value: string, tooltip: Option<string>, permission: Option<string>)

  /** `toValues()`: the values, in order. */
  function ToValues(list: seq<Suggestion>): (r: seq<string>)
    ensures |r| == |list|
    ensures forall i :: 0 <= i < |list| ==> r[i] == list[i].value
  {
    Map(list, (s: Suggestion) => s.value)
  }

  /** A value is listed iff some suggestion carries it. */
  lemma ToValuesMembers(list: seq<Suggestion>, v: string)
    ensures v in ToValues(list) <==> exists s :: s in list && s.value == v
  {
    if v in ToValues(list) {
      var i :| 0 <= i < |list| && ToValues(list)[i] == v;
      assert list[i] in list;
    }
    if exists s :: s in list && s.value == v {
      var s :| s in list && s.value == v;
      var i :| 0 <= i < |list| && list[i] == s;
      assert ToValues(list)[i] == v;
    }
  }

  /** `Suggestions.of(values)`: one plain suggestion per value. */
  function Of(values: seq<string>): (r: seq<Suggestion>)
    ensures ToValues(r) == values
    ensures forall i :: 0 <= i < |r| ==> r[i].tooltip.None? && r[i].permission.None?
  {
    Map(values, (v: string) => Suggestion(v, None, None))
  }

  /** The suggestions `Of` builds are exactly the plain ones over the given values. */
  lemma OfMembers(values: seq<string>, s: Suggestion)
    ensures s in Of(values) <==> s.value in values && s.tooltip.None? && s.permission.None?
  {
    var r := Of(values);
    if s in r {
      var i :| 0 <= i < |r| && r[i] == s;
      assert ToValues(r)[i] == values[i];
    }
    if s.value in values && s.tooltip.None? && s.permission.None? {
      var i :| 0 <= i < |values| && values[i] == s.value;
      assert ToValues(r)[i] == values[i];
      assert r[i] == s;
    }
  }

  /** `Suggestions.withTooltips(map)`, the map given as its entry list in iteration order:
      one suggestion per entry, the key as value and the entry's value as tooltip. */
  function WithTooltips(entries: seq<(string, string)>): (r: seq<Suggestion>)
    ensures |r| == |entries|
    ensures forall i :: 0 <= i < |r| ==>
      r[i].value == entries[i].0 && r[i].tooltip == Some(entries[i].1) && r[i].permission.None?
  {
    Map(entries, (e: (string, string)) => Suggestion(e.0, Some(e.1), None))
  }

  /** The sort key of `filterFor`. */
  function LowerValue(s: Suggestion): string {
    Lower(s.value)
  }

  /** The test `filterFor` keeps a suggestion by: a passing permission and a matching prefix. */
  predicate Keep(prefix: string, src: Source, s: Suggestion) {
    Passes(src, s.permission) && HasPrefixIgnoreCase(s.value, prefix)
  }

  function KeepFor(prefix: string, src: Source): Suggestion -> bool {
    s => Keep(prefix, src, s)
  }

  /**
   * `filterFor(prefix, source)`: the suggestions the source may see whose value starts with the
   * prefix ignoring case, sorted stably by lower-cased value; an empty list is returned as is.
   */
  function FilterFor(list: seq<Suggestion>, prefix: string, src: Source): (r: seq<Suggestion>)
    ensures |list| == 0 ==> r == list
    ensures multiset(r) == multiset(Filter(list, KeepFor(prefix, src)))
    ensures multiset(r) <= multiset(list)
    ensures forall s :: s in r <==> s in list && Keep(prefix, src, s)
    ensures SortedBy(r, LowerValue)
  {
    if |list| == 0 then list
    else
      var kept := Filter(list, KeepFor(prefix, src));
      SortBySorted(kept, LowerValue);
      SortByMembers(kept, LowerValue);
      SortBy(kept, LowerValue)
  }

  /** `filterFor` on two suggestions that both pass: the two in order of lower-cased value. */
  lemma FilterForPair(a: Suggestion, b: Suggestion, prefix: string, src: Source)
    requires Keep(prefix, src, a) && Keep(prefix, src, b)
    ensures FilterFor([a, b], prefix, src) ==
      if LexLessEq(LowerValue(a), LowerValue(b)) then [a, b] else [b, a]
  {
    FilterPair(a, b, KeepFor(prefix, src));
    SortPair(a, b, LowerValue);
  }

  /** Suggestions sharing a lower-cased value keep their input order. */
  lemma FilterForStable(list: seq<Suggestion>, prefix: string, src: Source, k: string)
    ensures WithKey(FilterFor(list, prefix, src), LowerValue, k)
         == WithKey(Filter(list, KeepFor(prefix, src)), LowerValue, k)
  {
    if |list| > 0 {
      SortByStable(Filter(list, KeepFor(prefix, src)), LowerValue, k);
    }
  }

  /** With an empty prefix every suggestion the source may see is kept. */
  lemma FilterForEmptyPrefix(list: seq<Suggestion>, src: Source, s: Suggestion)
    ensures s in FilterFor(list, "", src) <==> s in list && Passes(src, s.permission)
  {
  }
}
