/**
 * `CompatResolver`: find the server's "major.minor.patch" version in the strings the server reports
 * and pick the compat layer for it. The version search is the leftmost match of the regular
 * expression `\d+\.\d+\.\d+` over ASCII digits.
 */
module Resolver {
  import opened Wrappers
  import opened Text

  // ---------------------------------------------------------------- the pattern

  /** Every position from `a` up to (not including) `b` holds a digit. */
  ghost predicate DigitsBetween(s: string, a: nat, b: nat) {
    forall k :: a <= k < b && k < |s| ==> IsDigit(s[k])
  }

  /** `s[i..e]` is digits, a dot at `p`, digits, a dot at `q`, digits. */
  ghost predicate FormAt(s: string, i: nat, e: nat, p: nat, q: nat) {
    i < p && p + 1 < q && q + 1 < e <= |s| && s[p] == '.' && s[q] == '.' &&
    DigitsBetween(s, i, p) && DigitsBetween(s, p + 1, q) && DigitsBetween(s, q + 1, e)
  }

  /** The strings the whole pattern matches. */
  ghost predicate VersionForm(t: string) {
    exists p: nat, q: nat :: FormAt(t, 0, |t|, p, q)
  }

  /** The pattern matches some prefix of `s[i..]`. */
  ghost predicate MatchesAt(s: string, i: nat) {
    exists e: nat, p: nat, q: nat :: FormAt(s, i, e, p, q)
  }

  /** The end of the run of digits starting at `i`. */
  function DigitRunEnd(s: string, i: nat): (r: nat)
    requires i <= |s|
    ensures i <= r <= |s|
    ensures r == |s| || !IsDigit(s[r])
    decreases |s| - i
  {
    if i < |s| && IsDigit(s[i]) then DigitRunEnd(s, i + 1) else i
  }

  /** Everything the run covers is a digit. */
  lemma {:induction false} DigitRunEndDigits(s: string, i: nat)
    requires i <= |s|
    ensures DigitsBetween(s, i, DigitRunEnd(s, i))
    decreases |s| - i
  {
    if i < |s| && IsDigit(s[i]) {
      DigitRunEndDigits(s, i + 1);
    }
  }

  /** Any digit run starting at `i` ends at or before `DigitRunEnd(s, i)`, and exactly there when
      a non-digit or the end of the string follows it. */
  lemma DigitRunEndIsMaximal(s: string, i: nat, m: nat)
    requires i <= m <= |s| && DigitsBetween(s, i, m)
    ensures m <= DigitRunEnd(s, i)
    ensures (m == |s| || !IsDigit(s[m])) ==> m == DigitRunEnd(s, i)
  {
    DigitRunEndDigits(s, i);
  }

  /** Where a match starting at `i` ends, each `\d+` taking its longest run (the only choice that
      lets the rest of this pattern match). */
  function MatchAt(s: string, i: nat): (r: Option<nat>)
    requires i <= |s|
    ensures r.Some? ==> i < r.value <= |s|
  {
    var j := DigitRunEnd(s, i);
    if j == i || j == |s| || s[j] != '.' then None
    else
      var k := DigitRunEnd(s, j + 1);
      if k == j + 1 || k == |s| || s[k] != '.' then None
      else
        var l := DigitRunEnd(s, k + 1);
        if l == k + 1 then None else Some(l)
  }

  /** The two dots of a match at `i` sit exactly where the first two digit runs end, and the last
      run reaches at least its end. */
  lemma SplitsOf(s: string, i: nat, e: nat, p: nat, q: nat)
    requires FormAt(s, i, e, p, q)
    ensures p == DigitRunEnd(s, i) && q == DigitRunEnd(s, p + 1) && e <= DigitRunEnd(s, q + 1)
  {
    DigitRunEndIsMaximal(s, i, p);
    DigitRunEndIsMaximal(s, p + 1, q);
    DigitRunEndIsMaximal(s, q + 1, e);
  }

  /** `MatchAt` finds a match exactly when the pattern matches at `i`, and it finds the longest one,
      which no further digit could extend. */
  lemma MatchAtIsLongest(s: string, i: nat)
    requires i <= |s|
    ensures MatchAt(s, i).Some? <==> MatchesAt(s, i)
    ensures MatchAt(s, i).Some? ==>
      var l := MatchAt(s, i).value;
      (exists p: nat, q: nat :: FormAt(s, i, l, p, q)) && (l == |s| || !IsDigit(s[l])) &&
      forall e: nat, p: nat, q: nat :: FormAt(s, i, e, p, q) ==> e <= l
  {
    var j := DigitRunEnd(s, i);
    if MatchAt(s, i).Some? {
      var k := DigitRunEnd(s, j + 1);
      var l := DigitRunEnd(s, k + 1);
      DigitRunEndDigits(s, i);
      DigitRunEndDigits(s, j + 1);
      DigitRunEndDigits(s, k + 1);
      assert FormAt(s, i, l, j, k);
      forall e: nat, p: nat, q: nat | FormAt(s, i, e, p, q) ensures e <= l {
        SplitsOf(s, i, e, p, q);
      }
    }
    if MatchesAt(s, i) {
      var e: nat, p: nat, q: nat :| FormAt(s, i, e, p, q);
      SplitsOf(s, i, e, p, q);
    }
  }

  /** A match found in `s` is, cut out, a string of the pattern's form. */
  lemma FormCutOut(s: string, i: nat, e: nat, p: nat, q: nat)
    requires FormAt(s, i, e, p, q)
    ensures VersionForm(s[i..e])
  {
    var t := s[i..e];
    assert FormAt(t, 0, |t|, p - i, q - i);
  }

  /** `regex.find(s)`, from position `i` on: the first position where the pattern matches. */
  function FindFrom(s: string, i: nat): (r: Option<(nat, nat)>)
    requires i <= |s|
    ensures r.Some? ==> i <= r.value.0 < r.value.1 <= |s|
    decreases |s| - i
  {
    match MatchAt(s, i)
    case Some(l) => Some((i, l))
    case None => if i == |s| then None else FindFrom(s, i + 1)
  }

  /**
   * `parseMcVersion(source)`: nothing for a missing or blank string, otherwise the leftmost match
   * of `\d+\.\d+\.\d+`.
   */
  function ParseMcVersion(source: Option<string>): Option<string> {
    if source.None? || IsBlank(source.value) then None
    else
      match FindFrom(source.value, 0)
      case None => None
      case Some(m) => Some(source.value[m.0..m.1])
  }

  /** The search returns the leftmost position where the pattern matches, and the longest match there. */
  lemma {:induction false} FindFromIsLeftmost(s: string, i: nat)
    requires i <= |s|
    ensures FindFrom(s, i).None? <==> forall j :: i <= j <= |s| ==> !MatchesAt(s, j)
    ensures FindFrom(s, i).Some? ==>
      var (a, l) := FindFrom(s, i).value;
      (forall j :: i <= j < a ==> !MatchesAt(s, j)) && MatchAt(s, a) == Some(l)
    decreases |s| - i
  {
    MatchAtIsLongest(s, i);
    if MatchAt(s, i).None? && i < |s| {
      FindFromIsLeftmost(s, i + 1);
    }
  }

  /** `parseMcVersion` finds a version exactly when the string is present, not blank, and holds a
      match of the pattern; what it finds has the pattern's form, starts at the leftmost match, and
      is followed by no digit. */
  lemma ParseMcVersionFinds(source: Option<string>)
    ensures ParseMcVersion(source).Some? <==>
      (source.Some? && !IsBlank(source.value) && exists j :: 0 <= j <= |source.value| && MatchesAt(source.value, j))
    ensures ParseMcVersion(source).Some? ==>
      var s := source.value;
      var (a, l) := FindFrom(s, 0).value;
      ParseMcVersion(source).value == s[a..l] && VersionForm(s[a..l]) &&
      (forall j :: 0 <= j < a ==> !MatchesAt(s, j)) && (l == |s| || !IsDigit(s[l])) &&
      (forall e: nat, p: nat, q: nat :: FormAt(s, a, e, p, q) ==> e <= l)
  {
    if source.Some? && !IsBlank(source.value) {
      var s := source.value;
      FindFromIsLeftmost(s, 0);
      if FindFrom(s, 0).Some? {
        var (a, l) := FindFrom(s, 0).value;
        MatchAtIsLongest(s, a);
        var p: nat, q: nat :| FormAt(s, a, l, p, q);
        FormCutOut(s, a, l, p, q);
      }
    }
  }

  /** The first version string quoted in the resolver's documentation. */
  lemma SnapshotExample()
    ensures ParseMcVersion(Some("1.21.4-R0.1-SNAPSHOT")) == Some("1.21.4")
  {
    var s := "1.21.4-R0.1-SNAPSHOT";
    assert !IsWhitespace(s[0]);
    assert DigitRunEnd(s, 1) == 1 && DigitRunEnd(s, 0) == 1;
    assert DigitRunEnd(s, 4) == 4 && DigitRunEnd(s, 3) == 4 && DigitRunEnd(s, 2) == 4;
    assert DigitRunEnd(s, 6) == 6 && DigitRunEnd(s, 5) == 6;
    assert MatchAt(s, 0) == Some(6);
    assert FindFrom(s, 0) == Some((0, 6));
    assert s[0..6] == "1.21.4";
  }

  /** The second one: the search passes over the build number, which no two dotted runs follow. */
  lemma PaperExample()
    ensures ParseMcVersion(Some("git-Paper-123 (MC: 1.21.9)")) == Some("1.21.9")
  {
    var u := "git-Paper-123 (MC: 1.21.9)";
    assert !IsWhitespace(u[0]);
    PaperSkipsBuild(u);
    PaperFindsVersion(u);
  }

  /** In the second example a match of six characters starts at the version's first digit. */
  lemma PaperFindsVersion(u: string)
    requires u == "git-Paper-123 (MC: 1.21.9)"
    ensures FindFrom(u, 19) == Some((19, 25)) && u[19..25] == "1.21.9"
  {
    assert DigitRunEnd(u, 20) == 20 && DigitRunEnd(u, 19) == 20;
    assert DigitRunEnd(u, 23) == 23 && DigitRunEnd(u, 22) == 23 && DigitRunEnd(u, 21) == 23;
    assert DigitRunEnd(u, 25) == 25 && DigitRunEnd(u, 24) == 25;
    assert MatchAt(u, 19) == Some(25);
  }

  /** In the second example no match starts before the version's own first digit. */
  lemma PaperSkipsBuild(u: string)
    requires u == "git-Paper-123 (MC: 1.21.9)"
    ensures FindFrom(u, 0) == FindFrom(u, 19)
  {
    assert !IsDigit(u[18]);
    assert forall m :: 0 <= m < 20 ==> u[m] != '.';
    forall k | 0 <= k < 19 ensures MatchAt(u, k).None? {
      NoMatchBeforeGap(u, k, 18, 20);
    }
    FindFromSkips(u, 0, 19);
  }

  /** No match starts at `k` when a non-digit at `g` comes before the first dot at or after `k`. */
  lemma NoMatchBeforeGap(s: string, k: nat, g: nat, d: nat)
    requires k <= g < d <= |s| && !IsDigit(s[g])
    requires forall m :: k <= m < d ==> s[m] != '.'
    ensures MatchAt(s, k).None?
  {
    DigitRunEndDigits(s, k);
  }

  /** The search passes over positions where no match starts. */
  lemma {:induction false} FindFromSkips(s: string, i: nat, j: nat)
    requires i <= j <= |s|
    requires forall k :: i <= k < j ==> MatchAt(s, k).None?
    ensures FindFrom(s, i) == FindFrom(s, j)
    decreases j - i
  {
    if i < j {
      FindFromSkips(s, i + 1, j);
    }
  }

  // ---------------------------------------------------------------- the compat table

  /** The compat layers: one per supported version, and a fallback carrying whatever was found. */
  datatype Compat = V1_21_4 | V1_21_9 | V1_21_10 | Fallback(version: string)

  /** `serverVersion` of each compat layer. */
  function ServerVersion(c: Compat): string {
    match c
    case V1_21_4 => "1.21.4"
    case V1_21_9 => "1.21.9"
    case V1_21_10 => "1.21.10"
    case Fallback(v) => v
  }

  /** The `when` table of `resolve`. */
  function ForVersion(version: string): (r: Compat)
    ensures r.Fallback? <==> version !in {"1.21.4", "1.21.9", "1.21.10"}
    ensures ServerVersion(r) == version
  {
    if version == "1.21.4" then V1_21_4
    else if version == "1.21.9" then V1_21_9
    else if version == "1.21.10" then V1_21_10
    else Fallback(version)
  }

  /** `extractServerVersion()`: the Bukkit version string first, then the full version string
      (`None` where reading it threw), then "unknown". */
  function ExtractServerVersion(bukkitVersion: Option<string>, fullVersion: Option<string>): (r: string)
    ensures ParseMcVersion(bukkitVersion).Some? ==> r == ParseMcVersion(bukkitVersion).value
    ensures ParseMcVersion(bukkitVersion).None? && ParseMcVersion(fullVersion).Some? ==> r == ParseMcVersion(fullVersion).value
    ensures ParseMcVersion(bukkitVersion).None? && ParseMcVersion(fullVersion).None? ==> r == "unknown"
  {
    match ParseMcVersion(bukkitVersion)
    case Some(v) => v
    case None => ParseMcVersion(fullVersion).GetOr("unknown")
  }

  /** `resolve()`. */
  function Resolve(bukkitVersion: Option<string>, fullVersion: Option<string>): Compat {
    ForVersion(ExtractServerVersion(bukkitVersion, fullVersion))
  }

  /** The chosen compat layer reports the version that was extracted; with no readable version it is
      the fallback for "unknown". */
  lemma ResolveReportsVersion(bukkitVersion: Option<string>, fullVersion: Option<string>)
    ensures ServerVersion(Resolve(bukkitVersion, fullVersion)) == ExtractServerVersion(bukkitVersion, fullVersion)
    ensures ParseMcVersion(bukkitVersion).None? && ParseMcVersion(fullVersion).None? ==>
      Resolve(bukkitVersion, fullVersion) == Fallback("unknown")
  {
  }

  /** The server of the documentation's first example resolves to the 1.21.4 layer, whatever the
      full version string says. */
  lemma ResolveExample(fullVersion: Option<string>)
    ensures Resolve(Some("1.21.4-R0.1-SNAPSHOT"), fullVersion) == V1_21_4
  {
    SnapshotExample();
  }
}
