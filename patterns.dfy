/**
  The three regular expressions of scripts/populate.py, written out as
  scanners over the suffixes of a string. `re.search` and `re.sub` try a
  match at each position from the left; `re.sub` resumes after the match it
  replaced.
 */
module Patterns {
  import opened Wrappers
  import opened Text
  import opened Seqs

  // ---------------------------------------------------------------------------
  // r"\((.*?)\)" -- a parenthesised group; '.' does not match a newline, and
  // the lazy '.*?' stops at the first ')'.
  // ---------------------------------------------------------------------------

  /** Where `.*?\)` stops in `u`: the first ')', provided no newline comes before it. */
  function LazyClose(u: string): (r: Option<nat>)
    ensures r.Some? ==> r.value < |u| && u[r.value] == ')'
    ensures r.Some? ==> forall i :: 0 <= i < r.value ==> u[i] != ')' && u[i] != '\n'
  {
    if u == [] then None
    else if u[0] == ')' then Some(0)
    else if u[0] == '\n' then None
    else match LazyClose(u[1..])
      case None => None
      case Some(m) => Some(m + 1)
  }

  /** A match of `\((.*?)\)` at the start of `t`: the length of the group's text. */
  function GroupAt(t: string): (r: Option<nat>)
    ensures r.Some? ==> r.value + 2 <= |t| && t[0] == '(' && t[r.value + 1] == ')'
  {
    if t != [] && t[0] == '(' then LazyClose(t[1..]) else None
  }

  /** No match of `\((.*?)\)` starts anywhere in `s`. */
  predicate NoGroup(s: string) {
    forall j :: 0 <= j < |s| ==> GroupAt(s[j..]).None?
  }

  /** The group `(u)`. */
  function Paren(u: string): string {
    "(" + u + ")"
  }

  /** A match of `\((.*?)\)` starts at `j` and at no earlier position. */
  predicate FirstGroupStart(s: string, j: nat) {
    j < |s| && GroupAt(s[j..]).Some? && forall i :: 0 <= i < j ==> GroupAt(s[i..]).None?
  }

  /**
    `re.search(r"\((.*?)\)", s).group(1)`, or None when `re.search` finds
    nothing. FirstGroupSpec states which text it is.
   */
  function FirstGroup(s: string): (r: Option<string>)
    ensures r.Some? ==> forall c :: c in r.value ==> c in s
    ensures r.Some? ==> ')' !in r.value && '\n' !in r.value
    decreases |s|
  {
    if s == [] then None
    else match GroupAt(s)
      case Some(m) => Some(s[1..m + 1])
      case None =>
        var r := FirstGroup(s[1..]);
        assert r.Some? ==> forall c :: c in r.value ==> c in s[1..];
        r
  }

  /** re.search finds a group exactly when some position starts one. */
  lemma {:induction false} FirstGroupFound(s: string)
    ensures FirstGroup(s).None? <==> NoGroup(s)
    decreases |s|
  {
    if s != [] {
      FirstGroupFound(s[1..]);
      forall j | 1 <= j < |s| ensures s[j..] == s[1..][j - 1..] { }
      assert s[0..] == s;
      if GroupAt(s).None? && NoGroup(s[1..]) {
        forall j | 0 <= j < |s| ensures GroupAt(s[j..]).None? {
          if j > 0 { assert GroupAt(s[1..][j - 1..]).None?; }
        }
      }
    }
  }

  /** `re.sub(r"\((.*?)\)", "", s)`: delete every group, scanning from the left. */
  function RemoveGroups(s: string): (r: string)
    ensures |r| <= |s|
    ensures forall c :: c in r ==> c in s
    ensures IsSubsequence(r, s)
    decreases |s|
  {
    if s == [] then []
    else match GroupAt(s)
      case Some(m) =>
        var rest := RemoveGroups(s[m + 2..]);
        SliceSubsequence(s, m + 2, |s|);
        assert s[m + 2..|s|] == s[m + 2..];
        SubsequenceTrans(rest, s[m + 2..], s);
        rest
      case None =>
        var rest := RemoveGroups(s[1..]);
        assert s == [s[0]] + s[1..];
        SubsequencePrepend(rest, s[1..], s[0]);
        [s[0]] + rest
  }

  /**
    When the first group of `s` starts at `j`, `re.search` returns its text:
    with FirstGroupFound, this fixes the result for every string.
   */
  lemma {:induction false} FirstGroupAt(s: string, j: nat)
    requires j < |s| && GroupAt(s[j..]).Some?
    requires forall i :: 0 <= i < j ==> GroupAt(s[i..]).None?
    ensures FirstGroup(s) == Some(s[j + 1..j + 1 + GroupAt(s[j..]).value])
    decreases j
  {
    if j == 0 {
      assert s[0..] == s;
    } else {
      assert s[0..] == s;
      var t := s[1..];
      assert t[j - 1..] == s[j..];
      forall i | 0 <= i < j - 1 ensures GroupAt(t[i..]).None? {
        assert t[i..] == s[i + 1..];
      }
      FirstGroupAt(t, j - 1);
      var m := GroupAt(s[j..]).value;
      assert t[j..j + m] == s[j + 1..j + 1 + m];
    }
  }

  /**
    `re.search` fails exactly when no group starts anywhere; otherwise it
    returns the text of the group that starts first.
   */
  lemma FirstGroupSpec(s: string)
    ensures FirstGroup(s).None? <==> NoGroup(s)
    ensures FirstGroup(s).Some? ==>
      exists j: nat :: FirstGroupStart(s, j) && FirstGroup(s).value == s[j + 1..j + 1 + GroupAt(s[j..]).value]
  {
    FirstGroupFound(s);
    if !NoGroup(s) {
      var j := EarliestGroup(s);
      FirstGroupAt(s, j);
      assert FirstGroup(s).value == s[j + 1..j + 1 + GroupAt(s[j..]).value];
    }
  }

  /** Where the first match starts, in a string that has one. */
  lemma EarliestGroup(s: string) returns (j: nat)
    requires !NoGroup(s)
    ensures FirstGroupStart(s, j)
  {
    var k :| 0 <= k < |s| && GroupAt(s[k..]).Some?;
    j := 0;
    while GroupAt(s[j..]).None?
      invariant 0 <= j <= k
      invariant forall i :: 0 <= i < j ==> GroupAt(s[i..]).None?
      decreases k - j
    {
      j := j + 1;
    }
  }

  /**
    When the first group of `s` starts at `j`, `re.sub` keeps everything
    before it, deletes it, and carries on after its ')'.
   */
  lemma RemoveGroupsAt(s: string, j: nat)
    requires j < |s| && GroupAt(s[j..]).Some?
    requires forall i :: 0 <= i < j ==> GroupAt(s[i..]).None?
    ensures RemoveGroups(s) == s[..j] + RemoveGroups(s[j + GroupAt(s[j..]).value + 2..])
  {
    var t := s[j..];
    var m := GroupAt(t).value;
    RemoveGroupsCopies(s, j);
    assert RemoveGroups(s) == s[..j] + RemoveGroups(t);
    var u := s[j + m + 2..];
    assert t[m + 2..] == u;
    RemoveGroupsSkips(t);
    assert RemoveGroups(t) == RemoveGroups(u);
  }

  /** A group at the start is deleted. */
  lemma RemoveGroupsSkips(t: string)
    requires GroupAt(t).Some?
    ensures RemoveGroups(t) == RemoveGroups(t[GroupAt(t).value + 2..])
  {
  }

  /** Where no group starts, `re.sub` copies characters through. */
  lemma {:induction false} RemoveGroupsCopies(s: string, k: nat)
    requires k <= |s|
    requires forall i :: 0 <= i < k ==> GroupAt(s[i..]).None?
    ensures RemoveGroups(s) == s[..k] + RemoveGroups(s[k..])
  {
    if k > 0 {
      RemoveGroupsCopies(s, k - 1);
      var t := s[k - 1..];
      assert RemoveGroups(t) == [t[0]] + RemoveGroups(t[1..]);
      assert t[1..] == s[k..];
      AppendLast(s, k, RemoveGroups(s[k..]));
    } else {
      assert s[0..] == s;
    }
  }

  /** `.*?\)` stops at the first ')' when no newline comes before it. */
  lemma {:induction false} LazyCloseOf(u: string, q: string)
    requires ')' !in u && '\n' !in u
    ensures LazyClose(u + ")" + q) == Some(|u|)
    decreases |u|
  {
    var t := u + ")" + q;
    if u == [] {
      assert t[0] == ')';
    } else {
      assert t[0] == u[0];
      assert t[1..] == u[1..] + ")" + q;
      LazyCloseOf(u[1..], q);
    }
  }

  /** `\((.*?)\)` matches `(u)` at the start of `(u)q`. */
  lemma GroupAtParen(u: string, q: string)
    requires ')' !in u && '\n' !in u
    ensures GroupAt(Paren(u) + q) == Some(|u|)
  {
    var g := Paren(u) + q;
    assert g[1..] == u + ")" + q;
    LazyCloseOf(u, q);
  }

  /**
    A header `p(u)q` whose prefix `p` has no '(': the search returns `u`, and
    the removal keeps `p` and goes on in `q`.
   */
  lemma GroupAfterPlainPrefix(p: string, u: string, q: string)
    requires '(' !in p && ')' !in u && '\n' !in u
    ensures FirstGroup(p + Paren(u) + q) == Some(u)
    ensures RemoveGroups(p + Paren(u) + q) == p + RemoveGroups(q)
  {
    var s := p + Paren(u) + q;
    PlainPrefixStart(p, u, q);
    PlainPrefixSlices(p, u, q);
    FirstGroupOfStart(s, |p|, u);
    RemoveAfterFirstStart(s, |p|, q);
  }

  /** When the first match of `s` starts at `j` and holds `u`, the search returns `u`. */
  lemma FirstGroupOfStart(s: string, j: nat, u: string)
    requires FirstGroupStart(s, j) && s[j + 1..j + 1 + GroupAt(s[j..]).value] == u
    ensures FirstGroup(s) == Some(u)
  {
    FirstGroupAt(s, j);
  }

  /** When the first match of `s` starts at `j` and `q` follows it, the removal keeps `s[..j]` and goes on in `q`. */
  lemma RemoveAfterFirstStart(s: string, j: nat, q: string)
    requires FirstGroupStart(s, j) && s[j + GroupAt(s[j..]).value + 2..] == q
    ensures RemoveGroups(s) == s[..j] + RemoveGroups(q)
  {
    RemoveGroupsAt(s, j);
  }

  /** The pieces of `p(u)q`. */
  lemma PlainPrefixSlices(p: string, u: string, q: string)
    ensures |p + Paren(u) + q| == |p| + |u| + 2 + |q|
    ensures (p + Paren(u) + q)[..|p|] == p
    ensures (p + Paren(u) + q)[|p| + 1..|p| + 1 + |u|] == u
    ensures (p + Paren(u) + q)[|p| + |u| + 2..] == q
  {
    var s := p + Paren(u) + q;
    assert s == p + "(" + u + ")" + q;
  }

  /** In `p(u)q` with no '(' in `p`, the first match starts right after `p` and holds `u`. */
  lemma PlainPrefixStart(p: string, u: string, q: string)
    requires '(' !in p && ')' !in u && '\n' !in u
    ensures FirstGroupStart(p + Paren(u) + q, |p|)
    ensures GroupAt((p + Paren(u) + q)[|p|..]) == Some(|u|)
  {
    var s := p + Paren(u) + q;
    SplitAtPrefix(p, Paren(u) + q);
    assert s == p + (Paren(u) + q);
    GroupAtParen(u, q);
    forall i | 0 <= i < |p| ensures GroupAt(s[i..]).None? {
      assert s[i..][0] == p[i];
    }
  }

  /** The two halves of `p + t`. */
  lemma SplitAtPrefix(p: string, t: string)
    ensures (p + t)[..|p|] == p && (p + t)[|p|..] == t
  {
  }

  /** A string with no group is left as it is. */
  lemma {:induction false} RemoveGroupsNoGroup(s: string)
    requires NoGroup(s)
    ensures RemoveGroups(s) == s
    decreases |s|
  {
    if s != [] {
      assert s[0..] == s;
      assert NoGroup(s[1..]) by {
        forall j | 0 <= j < |s[1..]| ensures GroupAt(s[1..][j..]).None? {
          assert s[1..][j..] == s[j + 1..];
        }
      }
      RemoveGroupsNoGroup(s[1..]);
    }
  }

  /** If `.*?\)` cannot close in `u`, it cannot close in what is left of `u` after the groups go. */
  lemma {:induction false} UnclosedStaysUnclosed(u: string)
    requires LazyClose(u).None?
    ensures LazyClose(RemoveGroups(u)).None?
    decreases |u|
  {
    if u != [] && u[0] != '\n' {
      UnclosedStaysUnclosed(u[1..]);
      assert RemoveGroups(u) == [u[0]] + RemoveGroups(u[1..]);
      assert RemoveGroups(u)[1..] == RemoveGroups(u[1..]);
    }
  }

  /** Removing the groups leaves no group behind: deletions never join a new one together. */
  lemma {:induction false} RemoveGroupsLeavesNone(s: string)
    ensures NoGroup(RemoveGroups(s))
    decreases |s|
  {
    if s != [] {
      match GroupAt(s)
      case Some(m) =>
        RemoveGroupsLeavesNone(s[m + 2..]);
      case None =>
        var rest := RemoveGroups(s[1..]);
        var r := [s[0]] + rest;
        RemoveGroupsLeavesNone(s[1..]);
        if s[0] == '(' {
          UnclosedStaysUnclosed(s[1..]);
        }
        assert r[1..] == rest;
        forall j | 0 <= j < |r| ensures GroupAt(r[j..]).None? {
          if j == 0 {
            assert r[0..] == r;
          } else {
            assert r[j..] == rest[j - 1..];
          }
        }
    }
  }

  /** Cutting characters off the ends of a string cannot create a group. */
  lemma {:induction false} NoGroupSlice(s: string, a: nat, b: nat)
    requires a <= b <= |s| && NoGroup(s)
    ensures NoGroup(s[a..b])
  {
    var t := s[a..b];
    forall j | 0 <= j < |t| ensures GroupAt(t[j..]).None? {
      assert GroupAt(s[a + j..]).None?;
      if t[j] == '(' {
        assert s[a + j..][1..] == s[a + j + 1..];
        assert t[j..][1..] == s[a + j + 1..b];
        LazyCloseExtend(s[a + j + 1..b], s[b..]);
        assert s[a + j + 1..b] + s[b..] == s[a + j + 1..];
      }
    }
  }

  /** A close found in a prefix is found, at the same place, in the whole string. */
  lemma {:induction false} LazyCloseExtend(u: string, v: string)
    ensures LazyClose(u).Some? ==> LazyClose(u + v) == LazyClose(u)
    decreases |u|
  {
    if u != [] && u[0] != ')' && u[0] != '\n' {
      LazyCloseExtend(u[1..], v);
      assert (u + v)[1..] == u[1..] + v;
    }
  }

  /**
    The name part of a header: `re.sub(r"\((.*?)\)", "", col).strip("_")`.
    Used for measure names and for the final food-table headers.
   */
  function BaseName(col: string): (r: string)
    ensures NoGroup(r)
    ensures r != [] ==> r[0] != '_' && r[|r| - 1] != '_'
    ensures IsSubsequence(r, col)
  {
    var removed := RemoveGroups(col);
    RemoveGroupsLeavesNone(col);
    var r := StripChar(removed, '_');
    var a, b :| 0 <= a <= b <= |removed| && r == removed[a..b];
    NoGroupSlice(removed, a, b);
    SliceSubsequence(removed, a, b);
    SubsequenceTrans(r, removed, col);
    r
  }

  /** A header without a group only loses its outer underscores. */
  lemma BaseNameNoGroup(col: string)
    requires NoGroup(col)
    ensures BaseName(col) == StripChar(col, '_')
  {
    RemoveGroupsNoGroup(col);
  }

  /**
    A header `n(u)` with the unit at the end: the name is `n` without its
    outer underscores, and the unit is `u`.
   */
  lemma UnitHeader(n: string, u: string)
    requires '(' !in n && ')' !in u && '\n' !in u
    ensures BaseName(n + Paren(u)) == StripChar(n, '_')
    ensures FirstGroup(n + Paren(u)) == Some(u)
  {
    assert n + Paren(u) + [] == n + Paren(u);
    GroupAfterPlainPrefix(n, u, []);
    assert n + [] == n;
  }

  /** A name as it stands in front of `_(unit)`: no '(' and no `_` at either end. */
  predicate PlainName(name: string) {
    '(' !in name && (name != [] ==> name[0] != '_' && name[|name| - 1] != '_')
  }

  /**
    The headers of the cleaned sheet have the form `name_(unit)`: the measure
    is called `name` and its unit is `unit`.
   */
  lemma UnderscoredUnitHeader(name: string, u: string)
    requires PlainName(name)
    requires ')' !in u && '\n' !in u
    ensures BaseName(name + "_" + Paren(u)) == name
    ensures FirstGroup(name + "_" + Paren(u)) == Some(u)
  {
    UnitHeader(name + "_", u);
    StripCharTrailing(name, "_", '_');
  }

  /** The energy column: name `energie_kilojoules`, unit `kj`. */
  lemma EnergyHeaderExample()
    ensures BaseName("energie_kilojoules_(kj)") == "energie_kilojoules"
    ensures FirstGroup("energie_kilojoules_(kj)") == Some("kj")
  {
    var name := "energie_kilojoules";
    assert "energie_kilojoules_(kj)" == name + "_" + Paren("kj");
    UnderscoredUnitHeader(name, "kj");
  }

  // ---------------------------------------------------------------------------
  // r"\s*\([^)]+\)(?=\s*\([^)]+\))" -- a group, with the whitespace before it,
  // that is followed (after optional whitespace) by another group. '[^)]'
  // matches any character but ')', a newline included.
  // ---------------------------------------------------------------------------

  /** A match of `\s*\([^)]+\)` at the start of `t`: its length. */
  function SpacedGroup(t: string): (r: Option<nat>)
    ensures r.Some? ==> 3 <= r.value <= |t| && t[r.value - 1] == ')'
  {
    var n := LeadingCount(t, IsSpace);
    if n < |t| && t[n] == '(' then
      match IndexOf(t[n + 1..], ')')
      case Some(m) => if m >= 1 then Some(n + m + 2) else None
      case None => None
    else None
  }

  /** A match of the whole pattern at the start of `t` (the lookahead consumes nothing). */
  function DoubleGroup(t: string): (r: Option<nat>)
    ensures r.Some? ==> 3 <= r.value <= |t|
  {
    match SpacedGroup(t)
    case Some(e) => if SpacedGroup(t[e..]).Some? then Some(e) else None
    case None => None
  }

  /** `re.sub(double_parenthesis_pattern, "", s)`. */
  function StripDoubleGroups(s: string): (r: string)
    ensures |r| <= |s|
    decreases |s|
  {
    if s == [] then []
    else match DoubleGroup(s)
      case Some(e) => StripDoubleGroups(s[e..])
      case None => [s[0]] + StripDoubleGroups(s[1..])
  }

  /** No match of the pattern starts at position `p` of `s`. */
  predicate NoMatchAt(s: string, p: nat)
    requires p <= |s|
  {
    DoubleGroup(s[p..]).None?
  }

  /** Where no match starts, StripDoubleGroups copies characters through. */
  lemma {:induction false} StripDoubleGroupsCopies(s: string, k: nat)
    requires k <= |s|
    requires forall p :: 0 <= p < k ==> NoMatchAt(s, p)
    ensures StripDoubleGroups(s) == s[..k] + StripDoubleGroups(s[k..])
  {
    if k > 0 {
      StripDoubleGroupsCopies(s, k - 1);
      assert NoMatchAt(s, k - 1);
      CopyStep(s, k);
    } else {
      assert s[0..] == s;
    }
  }

  lemma CopyStep(s: string, k: nat)
    requires 0 < k <= |s| && DoubleGroup(s[k - 1..]).None?
    ensures s[..k - 1] + StripDoubleGroups(s[k - 1..]) == s[..k] + StripDoubleGroups(s[k..])
  {
    var t := s[k - 1..];
    CopyOne(t);
    assert t[1..] == s[k..];
    AppendLast(s, k, StripDoubleGroups(s[k..]));
  }

  lemma CopyOne(t: string)
    requires t != [] && DoubleGroup(t).None?
    ensures StripDoubleGroups(t) == [t[0]] + StripDoubleGroups(t[1..])
  { }

  lemma AppendLast(s: string, k: nat, x: string)
    requires 0 < k <= |s|
    ensures s[..k - 1] + ([s[k - 1]] + x) == s[..k] + x
  {
    assert s[..k - 1] + [s[k - 1]] == s[..k];
  }

  /** `\s*\(` cannot start inside a name that has no '(' and does not end in whitespace. */
  lemma NoSpacedGroupInName(name: string, y: string, p: nat)
    requires p < |name| && '(' !in name && !IsSpace(name[|name| - 1])
    ensures SpacedGroup((name + y)[p..]).None?
  {
    var t := (name + y)[p..];
    var n := LeadingCount(t, IsSpace);
    assert t[|name| - 1 - p] == name[|name| - 1];
    assert n <= |name| - 1 - p;
    assert t[n] == name[p + n];
  }

  /** Every character of `w` is whitespace. */
  predicate AllSpace(w: string) {
    forall i :: 0 <= i < |w| ==> IsSpace(w[i])
  }

  /** Leading whitespace in front of `y` is counted before `y`'s own. */
  lemma {:induction false} LeadingSpaces(w: string, y: string)
    requires AllSpace(w)
    ensures LeadingCount(w + y, IsSpace) == |w| + LeadingCount(y, IsSpace)
    decreases |w|
  {
    if w == [] {
      assert w + y == y;
    } else {
      assert (w + y)[1..] == w[1..] + y;
      LeadingSpaces(w[1..], y);
    }
  }

  /** `\s*\([^)]+\)` on whitespace `w`, a group `(a)` with `a` free of ')', and `rest`. */
  lemma SpacedGroupOf(w: string, a: string, rest: string)
    requires AllSpace(w) && a != [] && ')' !in a
    ensures SpacedGroup(w + Paren(a) + rest) == Some(|w| + |a| + 2)
  {
    var y := Paren(a) + rest;
    var t := w + Paren(a) + rest;
    ParenAfterSpace(w, a, rest);
    assert t[|w| + 1..] == a + ")" + rest;
    IndexOfClose(a, rest);
  }

  /** In `w(a)rest`, the whitespace is `w` and a '(' follows it. */
  lemma ParenAfterSpace(w: string, a: string, rest: string)
    requires AllSpace(w)
    ensures LeadingCount(w + Paren(a) + rest, IsSpace) == |w|
    ensures |w| < |w + Paren(a) + rest| && (w + Paren(a) + rest)[|w|] == '('
  {
    var y := Paren(a) + rest;
    assert w + Paren(a) + rest == w + y;
    LeadingSpaces(w, y);
    assert LeadingCount(y, IsSpace) == 0;
  }

  /** The first ')' of `a)rest` is the one after `a` when `a` has none. */
  lemma IndexOfClose(a: string, rest: string)
    requires ')' !in a
    ensures IndexOf(a + ")" + rest, ')') == Some(|a|)
  {
    var z := a + ")" + rest;
    assert z[|a|] == ')' && z[..|a|] == a;
  }

  /** In a string whose only ')' is its last character, no match of the pattern starts. */
  lemma NoDoubleGroupBeforeLastClose(t: string)
    requires forall i :: 0 <= i < |t| - 1 ==> t[i] != ')'
    ensures DoubleGroup(t).None?
  {
    match SpacedGroup(t)
    case None =>
    case Some(e) =>
      assert e == |t|;
      assert t[e..] == [];
  }

  /**
    A group followed, after any whitespace, by another group is removed with
    all the whitespace before it: `name w1(a) w2(b)` becomes `name w2(b)`.
    A name ending in whitespace is covered by moving that whitespace into `w1`.
   */
  lemma DoubleGroupRemoved(name: string, w1: string, a: string, w2: string, b: string)
    requires '(' !in name && (name == [] || !IsSpace(name[|name| - 1]))
    requires AllSpace(w1) && AllSpace(w2)
    requires a != [] && ')' !in a && b != [] && ')' !in b
    ensures StripDoubleGroups(name + w1 + Paren(a) + w2 + Paren(b)) == name + w2 + Paren(b)
  {
    var last := w2 + Paren(b);
    var y := w1 + Paren(a) + last;
    var s := name + w1 + Paren(a) + w2 + Paren(b);
    Regroup(name, w1, Paren(a), w2, Paren(b));
    NameIsCopied(name, y);
    FirstOfTwoRemoved(w1, a, w2, b, y, last);
    LastGroupKept(w2, b, last);
    calc {
      StripDoubleGroups(s);
      StripDoubleGroups(name + y);
      name + StripDoubleGroups(y);
      name + StripDoubleGroups(last);
      name + last;
    }
  }

  lemma Regroup(n: string, w1: string, g1: string, w2: string, g2: string)
    ensures n + w1 + g1 + w2 + g2 == n + (w1 + g1 + (w2 + g2))
    ensures n + w2 + g2 == n + (w2 + g2)
  {
  }

  lemma NameIsCopied(name: string, y: string)
    requires '(' !in name && (name == [] || !IsSpace(name[|name| - 1]))
    ensures StripDoubleGroups(name + y) == name + StripDoubleGroups(y)
  {
    var s := name + y;
    forall p | 0 <= p < |name| ensures NoMatchAt(s, p) {
      NoSpacedGroupInName(name, y, p);
    }
    StripDoubleGroupsCopies(s, |name|);
    assert s[..|name|] == name && s[|name|..] == y;
  }

  lemma FirstOfTwoRemoved(w1: string, a: string, w2: string, b: string, y: string, last: string)
    requires AllSpace(w1) && AllSpace(w2)
    requires a != [] && ')' !in a && b != [] && ')' !in b
    requires last == w2 + Paren(b) && y == w1 + Paren(a) + last
    ensures StripDoubleGroups(y) == StripDoubleGroups(last)
  {
    SpacedGroupOf(w1, a, last);
    assert last + [] == last;
    SpacedGroupOf(w2, b, []);
    var e := |w1| + |a| + 2;
    assert y[e..] == last;
    MatchDropped(y, e, last);
  }

  /** At a match, the matched text is dropped. */
  lemma MatchDropped(t: string, e: nat, u: string)
    requires e <= |t| && t[e..] == u && SpacedGroup(t) == Some(e) && SpacedGroup(u).Some?
    ensures StripDoubleGroups(t) == StripDoubleGroups(u)
  { }

  lemma LastGroupKept(w2: string, b: string, last: string)
    requires AllSpace(w2) && ')' !in b && last == w2 + Paren(b)
    ensures StripDoubleGroups(last) == last
  {
    forall i | 0 <= i < |last| - 1 ensures last[i] != ')' {
      if i < |w2| {
        assert IsSpace(last[i]);
      } else if i > |w2| {
        assert last[i] == b[i - |w2| - 1];
      }
    }
    forall p | 0 <= p < |last| ensures NoMatchAt(last, p) {
      NoDoubleGroupBeforeLastClose(last[p..]);
    }
    StripDoubleGroupsCopies(last, |last|);
    assert last[..|last|] == last && last[|last|..] == [];
  }

  /** The case the cleaning step is written for: one space before each group. */
  lemma DoubleGroupExample()
    ensures StripDoubleGroups("X (a) (b)") == "X (b)"
  {
    DoubleGroupInstance(" ", "X (a) (b)", "X (b)");
  }

  /** `\s*` also matches no whitespace at all. */
  lemma DoubleGroupNoSpaceExample()
    ensures StripDoubleGroups("X(a)(b)") == "X(b)"
  {
    DoubleGroupInstance("", "X(a)(b)", "X(b)");
  }

  /** `\s*` takes all the whitespace before the first group, and the lookahead keeps the rest. */
  lemma DoubleGroupWideSpaceExample()
    ensures StripDoubleGroups("X  (a)  (b)") == "X  (b)"
  {
    DoubleGroupInstance("  ", "X  (a)  (b)", "X  (b)");
  }

  lemma DoubleGroupInstance(w: string, s: string, r: string)
    requires AllSpace(w)
    requires s == "X" + w + Paren("a") + w + Paren("b") && r == "X" + w + Paren("b")
    ensures StripDoubleGroups(s) == r
  {
    DoubleGroupRemoved("X", w, "a", w, "b");
  }

  /** A header without '(' is not changed. */
  lemma {:induction false} StripDoubleGroupsNoParen(s: string)
    requires '(' !in s
    ensures StripDoubleGroups(s) == s
  {
    forall p | 0 <= p < |s| ensures NoMatchAt(s, p) {
      var t := s[p..];
      var n := LeadingCount(t, IsSpace);
      if n < |t| { assert t[n] == s[p + n]; }
    }
    StripDoubleGroupsCopies(s, |s|);
    assert s[..|s|] == s && s[|s|..] == [];
  }
}
