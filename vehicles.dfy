/**
 * `_vehicle_from_content`: the vehicle name guessed from a matched line, or
 * from the log file's name, with the three regular expressions of the source
 * matched as Python's `re` does (leftmost start, greedy with backtracking).
 */
module Vehicles {
  import opened Wrappers
  import opened Text
  import opened Report

  const ConfigLabel: string := "Configuration file:"

  /** `[^_\\/ \t]`: a character of the name after the configuration label. */
  predicate NameChar(c: char) {
    c != '_' && c != '\\' && c != '/' && c != ' ' && c != '\t'
  }

  /** `([^_\\/ \t]+)_` from `j`: the greedy run must be followed by '_'. */
  function GroupAt(s: string, j: nat): (r: Option<string>)
    requires j <= |s|
    ensures r.Some? ==> r.value != [] && j + |r.value| < |s| && s[j..j + |r.value|] == r.value
                        && s[j + |r.value|] == '_' && forall t :: 0 <= t < |r.value| ==> NameChar(r.value[t])
  {
    var e := RunEnd(s, j, NameChar);
    if j < e < |s| && s[e] == '_' then Some(s[j..e]) else None
  }

  /**
   * `\s*` before the group: with `at` giving the group tried after `j`
   * white-space characters of the `k` available, the first success trying
   * `k`, then `k - 1`, and so on down to none.
   */
  function Backtrack(b: nat, k: nat, at: nat -> Option<string>): (r: Option<string>)
    decreases k
    ensures r.Some? ==> exists j :: b <= j <= b + k && at(j) == r
  {
    var g := at(b + k);
    if g.Some? then g else if k == 0 then None else Backtrack(b, k - 1, at)
  }

  /** The group tried at each position of `s`. */
  function GroupFinder(s: string): nat -> Option<string> {
    (j: nat) => if j <= |s| then GroupAt(s, j) else None
  }

  /** The first pattern tried at start `i`. */
  function ConfigNameAt(s: string, i: nat): (r: Option<string>)
    requires i <= |s|
    ensures r.Some? ==> r.value != [] && OccursAt(s, ConfigLabel, i)
  {
    if OccursAt(s, ConfigLabel, i) then AfterLabel(s, i + |ConfigLabel|) else None
  }

  /** `\s*([^_\\/ \t]+)_` from `b`, the position after the label. */
  function AfterLabel(s: string, b: nat): (r: Option<string>)
    requires b <= |s|
    ensures r.Some? ==> r.value != []
  {
    Backtrack(b, RunEnd(s, b, IsSpace) - b, GroupFinder(s))
  }

  /**
   * `re.search` for a pattern whose match at each start is given by `at`: the
   * match at the first start from `i` to `n` where there is one.
   */
  function SearchFrom(n: nat, i: nat, at: nat -> Option<string>): (r: Option<string>)
    requires i <= n
    decreases n - i
    ensures r.Some? ==> exists k :: i <= k <= n && at(k) == r
  {
    var r := at(i);
    if r.Some? || i == n then r else SearchFrom(n, i + 1, at)
  }

  /** The search stops at the first start with a match. */
  lemma {:induction false} SearchFromFirst(n: nat, i: nat, k: nat, at: nat -> Option<string>)
    requires i <= k <= n && at(k).Some?
    requires forall t :: i <= t < k ==> at(t).None?
    ensures SearchFrom(n, i, at) == at(k)
    decreases k - i
  {
    if i < k {
      SearchFromFirst(n, i + 1, k, at);
    }
  }

  /** The search finds nothing exactly when there is a match at no start. */
  lemma {:induction false} SearchFromNone(n: nat, i: nat, at: nat -> Option<string>)
    requires i <= n
    ensures SearchFrom(n, i, at).None? <==> forall t :: i <= t <= n ==> at(t).None?
    decreases n - i
  {
    if i < n {
      SearchFromNone(n, i + 1, at);
    }
  }

  /** The configuration pattern at each start of `s`. */
  function ConfigAt(s: string): nat -> Option<string> {
    (k: nat) => if k <= |s| then ConfigNameAt(s, k) else None
  }

  /** `re.search(r'Configuration file:\s*([^_\\/ \t]+)_', s)` from start `i` on. */
  function ConfigNameFrom(s: string, i: nat): (r: Option<string>)
    requires i <= |s|
    ensures r.Some? ==> r.value != []
  {
    SearchFrom(|s|, i, ConfigAt(s))
  }

  /** The position just after a label that starts at `i`. */
  function LabelEnd(i: nat): nat {
    i + |ConfigLabel|
  }

  /** From `b`, the end of the label: white space up to `j`, then the group `g`, then '_'. */
  predicate GroupFound(s: string, b: nat, j: nat, g: string) {
    && b <= j && j + |g| < |s|
    && (forall t :: b <= t < j ==> IsSpace(s[t]))
    && s[j..j + |g|] == g && s[j + |g|] == '_'
  }

  /**
   * A name is found only after the label and some white space, as a non-empty
   * run of name characters that a '_' follows.
   */
  lemma ConfigNameShape(s: string, i: nat)
    requires i <= |s| && ConfigNameAt(s, i).Some?
    ensures OccursAt(s, ConfigLabel, i)
    ensures exists j :: GroupFound(s, LabelEnd(i), j, ConfigNameAt(s, i).value)
  {
    var b := LabelEnd(i);
    var r := AfterLabel(s, b);
    assert ConfigNameAt(s, i) == r;
    GroupShape(s, b);
  }

  /** The position after the label's white space where the group was found. */
  lemma GroupStart(s: string, b: nat) returns (j: nat)
    requires b <= |s| && AfterLabel(s, b).Some?
    ensures b <= j <= RunEnd(s, b, IsSpace) && GroupAt(s, j) == AfterLabel(s, b)
  {
    var w := RunEnd(s, b, IsSpace);
    j :| b <= j <= b + (w - b) && GroupFinder(s)(j) == AfterLabel(s, b);
  }

  /** The group after the label and some white space. */
  lemma GroupShape(s: string, b: nat)
    requires b <= |s| && AfterLabel(s, b).Some?
    ensures exists j :: GroupFound(s, b, j, AfterLabel(s, b).value)
  {
    var j := GroupStart(s, b);
    var w := RunEnd(s, b, IsSpace);
    var g := GroupAt(s, j).value;
    assert g == AfterLabel(s, b).value;
    assert j + |g| < |s| && s[j..j + |g|] == g && s[j + |g|] == '_';
    forall t | b <= t < j ensures IsSpace(s[t]) {
      assert t < w;
    }
    assert GroupFound(s, b, j, g);
  }

  /**
   * The usual case: the label, its white space, then a run of name characters
   * ended by '_' gives that run.
   */
  lemma ConfigNameDirect(s: string, i: nat, w: nat, g: string)
    requires OccursAt(s, ConfigLabel, i) && w == RunEnd(s, i + |ConfigLabel|, IsSpace)
    requires g != [] && w + |g| < |s| && s[w..w + |g|] == g && s[w + |g|] == '_'
    requires forall t :: 0 <= t < |g| ==> NameChar(g[t])
    ensures ConfigNameAt(s, i) == Some(g)
  {
    GroupDirect(s, w, g);
    assert ConfigNameAt(s, i) == AfterLabel(s, i + |ConfigLabel|);
  }

  /** The greedy run of name characters from `w` is `g` when a '_' ends it. */
  lemma GroupDirect(s: string, w: nat, g: string)
    requires g != [] && w + |g| < |s| && s[w..w + |g|] == g && s[w + |g|] == '_'
    requires forall t :: 0 <= t < |g| ==> NameChar(g[t])
    ensures GroupAt(s, w) == Some(g)
  {
    forall t | w <= t < w + |g| ensures NameChar(s[t]) {
      assert s[t] == g[t - w];
    }
    assert RunEnd(s, w, NameChar) == w + |g|;
  }

  /** `\b([A-Za-z0-9]+)_BEV3` at start `i`. */
  function BevNameAt(s: string, i: nat): (r: Option<string>)
    requires i <= |s|
    ensures r.Some? ==> r.value != [] && i + |r.value| <= |s| && s[i..i + |r.value|] == r.value
                        && AllAlnum(r.value) && OccursAt(s, "_BEV3", i + |r.value|)
                        && (i == 0 || !IsWordChar(s[i - 1]))
  {
    var e := RunEnd(s, i, IsAlnum);
    if i < e && Boundary(s, i) && OccursAt(s, "_BEV3", e) then Some(s[i..e]) else None
  }

  predicate AllAlnum(s: string) { forall t :: 0 <= t < |s| ==> IsAlnum(s[t]) }

  /** The `_BEV3` pattern at each start of `s`. */
  function BevAt(s: string): nat -> Option<string> {
    (k: nat) => if k <= |s| then BevNameAt(s, k) else None
  }

  /** `re.search(r'\b([A-Za-z0-9]+)_BEV3', s)` from start `i` on. */
  function BevNameFrom(s: string, i: nat): (r: Option<string>)
    requires i <= |s|
    ensures r.Some? ==> r.value != [] && AllAlnum(r.value)
  {
    SearchFrom(|s|, i, BevAt(s))
  }

  /** `re.match(r'([A-Za-z0-9]+)_\d{8}_T', base)`, anchored at the start. */
  function FileNamePrefix(base: string): (r: Option<string>)
    ensures r.Some? ==> r.value != [] && AllAlnum(r.value) && StartsWith(base, r.value)
                        && |r.value| + 11 <= |base| && base[|r.value|] == '_'
                        && AllDigits(base[|r.value| + 1..|r.value| + 9])
                        && base[|r.value| + 9..|r.value| + 11] == "_T"
  {
    var e := RunEnd(base, 0, IsAlnum);
    if 0 < e && e + 11 <= |base| && base[e] == '_' && AllDigits(base[e + 1..e + 9]) && base[e + 9..e + 11] == "_T"
    then Some(base[..e])
    else None
  }

  /** A base name of the shape `<alnum run>_<8 digits>_T` gives the run. */
  lemma FileNamePrefixDirect(base: string, g: string)
    requires g != [] && AllAlnum(g) && |g| + 11 <= |base| && base[..|g|] == g && base[|g|] == '_'
    requires AllDigits(base[|g| + 1..|g| + 9]) && base[|g| + 9..|g| + 11] == "_T"
    ensures FileNamePrefix(base) == Some(g)
  {
    forall t | 0 <= t < |g| ensures IsAlnum(base[t]) {
      assert base[t] == g[t];
    }
    assert RunEnd(base, 0, IsAlnum) == |g|;
  }

  /** `_vehicle_from_content(filename, content)`. */
  function VehicleFromContent(filename: string, content: string): (r: string)
    ensures r != []
  {
    var c := ConfigNameFrom(content, 0);
    if c.Some? then c.value
    else
      var b := BevNameFrom(content, 0);
      if b.Some? then b.value
      else
        var f := FileNamePrefix(Basename(filename));
        if f.Some? then f.value else "Unknown"
  }

  /** A '_' just before the name is a word character, so `\b` fails there and no `_BEV3` name starts after it. */
  lemma NoBoundaryAfterUnderscore(s: string, i: nat)
    requires 0 < i <= |s| && s[i - 1] == '_'
    ensures BevNameAt(s, i).None?
  {
  }

  /** `re.search` finds the first start at which the configuration pattern matches. */
  lemma ConfigNameFromFirst(s: string, i: nat, k: nat)
    requires i <= k <= |s| && ConfigNameAt(s, k).Some?
    requires forall t :: i <= t < k ==> ConfigNameAt(s, t).None?
    ensures ConfigNameFrom(s, i) == ConfigNameAt(s, k)
  {
    SearchFromFirst(|s|, i, k, ConfigAt(s));
  }

  /** `re.search` finds nothing exactly when the pattern matches at no start. */
  lemma ConfigNameFromNone(s: string, i: nat)
    requires i <= |s|
    ensures ConfigNameFrom(s, i).None? <==> forall t :: i <= t <= |s| ==> ConfigNameAt(s, t).None?
  {
    SearchFromNone(|s|, i, ConfigAt(s));
    assert forall t: nat :: i <= t <= |s| ==> ConfigAt(s)(t) == ConfigNameAt(s, t);
  }

  lemma BevNameFromFirst(s: string, i: nat, k: nat)
    requires i <= k <= |s| && BevNameAt(s, k).Some?
    requires forall t :: i <= t < k ==> BevNameAt(s, t).None?
    ensures BevNameFrom(s, i) == BevNameAt(s, k)
  {
    SearchFromFirst(|s|, i, k, BevAt(s));
  }

  lemma BevNameFromNone(s: string, i: nat)
    requires i <= |s|
    ensures BevNameFrom(s, i).None? <==> forall t :: i <= t <= |s| ==> BevNameAt(s, t).None?
  {
    SearchFromNone(|s|, i, BevAt(s));
    assert forall t: nat :: i <= t <= |s| ==> BevAt(s)(t) == BevNameAt(s, t);
  }

  /** Rule 1: the name of the leftmost configuration-file match wins. */
  lemma VehicleFromConfig(filename: string, content: string, k: nat)
    requires k <= |content| && ConfigNameAt(content, k).Some?
    requires forall t :: 0 <= t < k ==> ConfigNameAt(content, t).None?
    ensures VehicleFromContent(filename, content) == ConfigNameAt(content, k).value
  {
    ConfigNameFromFirst(content, 0, k);
  }

  /** Rule 2: without a configuration-file match, the leftmost `_BEV3` name wins. */
  lemma VehicleFromBev(filename: string, content: string, k: nat)
    requires forall t :: 0 <= t <= |content| ==> ConfigNameAt(content, t).None?
    requires k <= |content| && BevNameAt(content, k).Some?
    requires forall t :: 0 <= t < k ==> BevNameAt(content, t).None?
    ensures VehicleFromContent(filename, content) == BevNameAt(content, k).value
  {
    ConfigNameFromNone(content, 0);
    BevNameFromFirst(content, 0, k);
  }

  /** Rules 3 and 4: with neither pattern in the content, the file's base name decides. */
  lemma VehicleFromFileName(filename: string, content: string)
    requires forall t :: 0 <= t <= |content| ==> ConfigNameAt(content, t).None?
    requires forall t :: 0 <= t <= |content| ==> BevNameAt(content, t).None?
    ensures var f := FileNamePrefix(Basename(filename));
      VehicleFromContent(filename, content) == if f.Some? then f.value else "Unknown"
  {
    ConfigNameFromNone(content, 0);
    BevNameFromNone(content, 0);
  }
}
