/**
  String primitives that the Python code takes from `str`: case folding,
  whitespace, substring search, stripping and character replacement.
  Strings are `seq<char>` of Unicode scalar values, as Python 3 `str` is.
 */
module Text {
  import opened Wrappers
  import opened Seqs

  /** The characters Python's `str.isspace` accepts; also the class `\s` of a `str` regex. */
  predicate IsSpace(c: char) {
    || c == ' '
    || ('\t' <= c <= '\r')
    || ('\U{1C}' <= c <= '\U{1F}')
    || c == '\U{85}' || c == '\U{A0}' || c == '\U{1680}'
    || ('\U{2000}' <= c <= '\U{200A}')
    || c == '\U{2028}' || c == '\U{2029}' || c == '\U{202F}' || c == '\U{205F}' || c == '\U{3000}'
  }

  /**
    Python's `str.lower` on one character, for the characters that occur in the
    nutrition data: ASCII, the Latin-1 capitals, Œ and Ÿ. Every other character
    is its own lower-case form here.
   */
  function LowerChar(c: char): (r: char)
    ensures 'A' <= c <= 'Z' ==> 'a' <= r <= 'z'
    ensures !IsUpper(r)
    ensures c < '\U{80}' <==> r < '\U{80}'
    ensures !IsUpper(c) ==> r == c
  {
    if 'A' <= c <= 'Z' || ('\U{C0}' <= c <= '\U{D6}') || ('\U{D8}' <= c <= '\U{DE}') then
      (c as int + 32) as char
    else if c == 'Œ' then 'œ'
    else if c == 'Ÿ' then 'ÿ'
    else c
  }

  /** The characters LowerChar changes. */
  predicate IsUpper(c: char) {
    'A' <= c <= 'Z' || ('\U{C0}' <= c <= '\U{D6}') || ('\U{D8}' <= c <= '\U{DE}') || c == 'Œ' || c == 'Ÿ'
  }

  /** Python's `s.lower()`, character by character. */
  function Lower(s: string): (r: string)
    ensures |r| == |s|
    ensures forall i :: 0 <= i < |s| ==> r[i] == LowerChar(s[i])
  {
    seq(|s|, i requires 0 <= i < |s| => LowerChar(s[i]))
  }

  /** A string is lower-case when lowering it changes nothing. */
  predicate IsLower(s: string) {
    forall i :: 0 <= i < |s| ==> !IsUpper(s[i])
  }

  lemma LowerIsLower(s: string)
    ensures IsLower(Lower(s))
    ensures Lower(Lower(s)) == Lower(s)
  {
  }

  /** A lower-case ASCII letter is missing from `Lower(s)` when both its cases are missing from `s`. */
  lemma LowerAvoids(s: string, l: char)
    requires 'a' <= l <= 'z' && l !in s && (l as int - 32) as char !in s
    ensures l !in Lower(s)
  {
    forall i | 0 <= i < |s| ensures Lower(s)[i] != l {
      assert s[i] != l && s[i] != (l as int - 32) as char;
    }
  }

  /** Characters below 'A' are never the lower-case form of another character. */
  lemma LowerAvoidsMark(s: string, c: char)
    requires c < 'A' && c !in s
    ensures c !in Lower(s)
  {
    forall i | 0 <= i < |s| ensures Lower(s)[i] != c {
      assert s[i] != c;
    }
  }

  /** Lowering a lower-case string changes nothing. */
  lemma LowerOfLower(s: string)
    requires IsLower(s)
    ensures Lower(s) == s
  {
  }

  /** `k` occurs in `s` starting at index `i`. */
  predicate OccursAt(s: string, k: string, i: int) {
    0 <= i <= |s| - |k| && s[i..i + |k|] == k
  }

  /** Python's `k in s` on strings: `k` is a substring of `s`. */
  predicate Contains(s: string, k: string) {
    exists i :: 0 <= i <= |s| - |k| && OccursAt(s, k, i)
  }

  /** `k` cannot occur in `s` when one of its characters does not. */
  lemma AbsentCharNotContained(s: string, k: string, j: nat)
    requires j < |k| && k[j] !in s
    ensures !Contains(s, k)
  {
  }

  /** Python's `s.startswith(p)`. */
  predicate StartsWith(s: string, p: string) {
    |p| <= |s| && s[..|p|] == p
  }

  /** Index of the first `c` in `s`, the way `str.find` reports it. */
  function IndexOf(s: string, c: char): (r: Option<nat>)
    ensures r.None? ==> c !in s
    ensures r.Some? ==> r.value < |s| && s[r.value] == c && c !in s[..r.value]
  {
    if s == [] then None
    else if s[0] == c then Some(0)
    else match IndexOf(s[1..], c)
      case None => None
      case Some(i) => assert s[1..][..i] == s[1..i + 1]; Some(i + 1)
  }

  /** Number of leading characters of `s` that satisfy `drop`. */
  function LeadingCount(s: string, drop: char -> bool): (n: nat)
    ensures n <= |s|
    ensures forall i :: 0 <= i < n ==> drop(s[i])
    ensures n < |s| ==> !drop(s[n])
  {
    if s == [] || !drop(s[0]) then 0 else 1 + LeadingCount(s[1..], drop)
  }

  /** Number of trailing characters of `s` that satisfy `drop`. */
  function TrailingCount(s: string, drop: char -> bool): (n: nat)
    ensures n <= |s|
    ensures forall i :: |s| - n <= i < |s| ==> drop(s[i])
    ensures n < |s| ==> !drop(s[|s| - n - 1])
  {
    if s == [] || !drop(s[|s| - 1]) then 0 else 1 + TrailingCount(s[..|s| - 1], drop)
  }

  /**
    Python's `s.strip(chars)`: the middle slice of `s` left once every
    leading and every trailing character satisfying `drop` is cut off.
   */
  function Trim(s: string, drop: char -> bool): (r: string)
    ensures exists a, b ::
      && 0 <= a <= b <= |s| && r == s[a..b]
      && (forall i :: 0 <= i < a ==> drop(s[i]))
      && (forall i :: b <= i < |s| ==> drop(s[i]))
    ensures r != [] ==> !drop(r[0]) && !drop(r[|r| - 1])
  {
    var a := LeadingCount(s, drop);
    var n := TrailingCount(s[a..], drop);
    TrimBounds(s, drop, a, n);
    s[a..|s| - n]
  }

  /**
    The bounds Trim cuts at, given `a` dropped characters in front and `n`
    behind them: everything outside the bounds is dropped, and the
    characters just inside them are not.
   */
  lemma TrimBounds(s: string, drop: char -> bool, a: nat, n: nat)
    requires a <= |s| && n <= |s| - a
    requires forall i :: 0 <= i < a ==> drop(s[i])
    requires a < |s| ==> !drop(s[a])
    requires forall i :: |s| - a - n <= i < |s| - a ==> drop(s[a..][i])
    requires n < |s| - a ==> !drop(s[a..][|s| - a - n - 1])
    ensures forall i :: |s| - n <= i < |s| ==> drop(s[i])
    ensures a < |s| - n ==> !drop(s[a]) && !drop(s[|s| - n - 1])
  {
    var t := s[a..];
    forall i | |s| - n <= i < |s| ensures drop(s[i]) {
      assert s[i] == t[i - a];
    }
  }

  /** Stripping a string whose ends are kept changes nothing. */
  lemma TrimKeeps(s: string, drop: char -> bool)
    requires s != [] ==> !drop(s[0]) && !drop(s[|s| - 1])
    ensures Trim(s, drop) == s
  {
    if s != [] {
      assert LeadingCount(s, drop) == 0;
      assert s[0..] == s;
      assert TrailingCount(s, drop) == 0;
    }
  }

  /** Python's `s.strip()`. */
  function StripSpace(s: string): (r: string)
    ensures exists a, b ::
      && 0 <= a <= b <= |s| && r == s[a..b]
      && (forall i :: 0 <= i < a ==> IsSpace(s[i]))
      && (forall i :: b <= i < |s| ==> IsSpace(s[i]))
    ensures r != [] ==> !IsSpace(r[0]) && !IsSpace(r[|r| - 1])
  {
    Trim(s, IsSpace)
  }

  /** Python's `s.strip(c)` for a one-character argument. */
  function StripChar(s: string, c: char): (r: string)
    ensures exists a, b ::
      && 0 <= a <= b <= |s| && r == s[a..b]
      && (forall i :: 0 <= i < a ==> s[i] == c)
      && (forall i :: b <= i < |s| ==> s[i] == c)
    ensures r != [] ==> r[0] != c && r[|r| - 1] != c
  {
    Trim(s, x => x == c)
  }

  /** Stripping `c` from a string whose ends are not `c`, followed by only `c`s, gives the string back. */
  lemma StripCharTrailing(n: string, k: string, c: char)
    requires n != [] ==> n[0] != c && n[|n| - 1] != c
    requires forall i :: 0 <= i < |k| ==> k[i] == c
    ensures StripChar(n + k, c) == n
  {
    var s := n + k;
    var r := StripChar(s, c);
    var a, b :| 0 <= a <= b <= |s| && r == s[a..b] &&
      (forall i :: 0 <= i < a ==> s[i] == c) && (forall i :: b <= i < |s| ==> s[i] == c);
    if n != [] {
      assert s[0] == n[0] && s[|n| - 1] == n[|n| - 1];
      assert a == 0;
      assert b >= |n|;
      assert s[..|n|] == n;
    }
  }

  /** Python's `s.replace(c, "")`: the other characters stay, in order and with their repeats. */
  function RemoveChar(s: string, c: char): (r: string)
    ensures c !in r
    ensures forall x :: x != c ==> (x in r <==> x in s)
    ensures c !in s ==> r == s
    ensures IsSubsequence(r, s)
    ensures forall x :: multiset(r)[x] == if x == c then 0 else multiset(s)[x]
  {
    var drop := x => x == c;
    RejectElements(s, drop);
    RejectSubsequence(s, drop);
    RejectCount(s, drop);
    RejectNothingWhen(s, drop);
    Reject(s, drop)
  }

  /** Python's `s.replace(c, d)` for one-character arguments. */
  function ReplaceChar(s: string, c: char, d: char): (r: string)
    ensures |r| == |s|
    ensures forall i :: 0 <= i < |s| ==> r[i] == if s[i] == c then d else s[i]
  {
    seq(|s|, i requires 0 <= i < |s| => if s[i] == c then d else s[i])
  }

  /**
    After `replace(c, d)` with `d` different from `c`, no `c` is left; the
    characters are those of `s` other than `c`, plus `d` when `c` occurred.
   */
  lemma ReplaceCharMembers(s: string, c: char, d: char)
    requires c != d
    ensures c !in ReplaceChar(s, c, d)
    ensures forall x :: x in ReplaceChar(s, c, d) <==> (x in s && x != c) || (x == d && c in s)
  {
    var r := ReplaceChar(s, c, d);
    forall x ensures x in r <==> (x in s && x != c) || (x == d && c in s) {
      if x in r {
        var i :| 0 <= i < |r| && r[i] == x;
        assert s[i] == c || s[i] == x;
      }
      if x in s && x != c {
        var i :| 0 <= i < |s| && s[i] == x;
        assert r[i] == x;
      }
      if x == d && c in s {
        var i :| 0 <= i < |s| && s[i] == c;
        assert r[i] == d;
      }
    }
  }

  /** Replacing a character that does not occur changes nothing. */
  lemma ReplaceAbsent(s: string, c: char, d: char)
    requires c !in s
    ensures ReplaceChar(s, c, d) == s
  {
  }

  predicate IsAscii(s: string) {
    forall i :: 0 <= i < |s| ==> s[i] < '\U{80}'
  }

  /** A character outside ASCII. */
  predicate NonAscii(c: char) {
    c >= '\U{80}'
  }

  /**
    `s.encode("ascii", "ignore").decode()`: drop every character outside
    ASCII; the ASCII characters stay, in order and with their repeats.
   */
  function AsciiOnly(s: string): (r: string)
    ensures IsAscii(r)
    ensures forall x :: x in r <==> x in s && x < '\U{80}'
    ensures IsAscii(s) ==> r == s
    ensures IsSubsequence(r, s)
    ensures forall x :: multiset(r)[x] == if x < '\U{80}' then multiset(s)[x] else 0
  {
    var r := Reject(s, NonAscii);
    RejectElements(s, NonAscii);
    AsciiWhenNoneOutside(r);
    RejectSubsequence(s, NonAscii);
    RejectCount(s, NonAscii);
    RejectNothingWhen(s, NonAscii);
    r
  }

  lemma AsciiWhenNoneOutside(r: string)
    requires forall x :: x in r ==> !NonAscii(x)
    ensures IsAscii(r)
  {
    forall i | 0 <= i < |r| ensures r[i] < '\U{80}' {
      assert r[i] in r;
    }
  }
}
