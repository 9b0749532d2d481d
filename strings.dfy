/**
 * The string operations the core relies on: `lowercase()` and
 * `contains(other, ignoreCase)` from the Kotlin standard library.
 * Case folding is restricted to ASCII letters.
 */
module Strings {

  /** ASCII lower-casing of one character; every other character is unchanged. */
  function LowerChar(c: char): char
  {
    if 'A' <= c <= 'Z' then (c as int + 32) as char else c
  }

  /** `s.lowercase()`, restricted to ASCII. */
  function Lower(s: string): (r: string)
    ensures |r| == |s|
    ensures forall i :: 0 <= i < |s| ==> r[i] == LowerChar(s[i])
  {
    if s == [] then [] else [LowerChar(s[0])] + Lower(s[1..])
  }

  /** Character comparison as `Char.equals(other, ignoreCase)` does it. */
  predicate CharEquals(a: char, b: char, ignoreCase: bool)
  {
    if ignoreCase then LowerChar(a) == LowerChar(b) else a == b
  }

  /** `sub` occurs in `s` starting at offset `i`. */
  predicate RegionMatches(s: string, i: int, sub: string, ignoreCase: bool)
  {
    0 <= i && i + |sub| <= |s| &&
    forall j :: 0 <= j < |sub| ==> CharEquals(s[i + j], sub[j], ignoreCase)
  }

  /**
   * `s.indexOf(sub, from, ignoreCase)`: the first offset at or after `from`
   * where `sub` occurs, or -1 when there is none.
   */
  function IndexOf(s: string, sub: string, from: nat, ignoreCase: bool): (r: int)
    decreases |s| - from
    ensures r == -1 || (from <= r && RegionMatches(s, r, sub, ignoreCase))
    ensures r != -1 ==> forall i :: from <= i < r ==> !RegionMatches(s, i, sub, ignoreCase)
    ensures r == -1 <==> forall i :: from <= i ==> !RegionMatches(s, i, sub, ignoreCase)
  {
    if from + |sub| > |s| then -1
    else if RegionMatches(s, from, sub, ignoreCase) then from
    else IndexOf(s, sub, from + 1, ignoreCase)
  }

  /** `s.contains(sub, ignoreCase)`: `sub` occurs somewhere in `s`. */
  predicate Contains(s: string, sub: string, ignoreCase: bool)
    ensures Contains(s, sub, ignoreCase) ==> |sub| <= |s|
    ensures sub == [] ==> Contains(s, sub, ignoreCase)
  {
    assert sub == [] ==> RegionMatches(s, 0, sub, ignoreCase);
    exists i | 0 <= i <= |s| - |sub| :: RegionMatches(s, i, sub, ignoreCase)
  }

  /** Kotlin defines `contains` as `indexOf(sub, 0, ignoreCase) >= 0`; the two agree. */
  lemma ContainsIsIndexOf(s: string, sub: string, ignoreCase: bool)
    ensures Contains(s, sub, ignoreCase) <==> IndexOf(s, sub, 0, ignoreCase) >= 0
  {
    var r := IndexOf(s, sub, 0, ignoreCase);
    if r >= 0 {
      assert RegionMatches(s, r, sub, ignoreCase);
    }
  }

  /** A character of `sub` that matches no character of `s` rules out an occurrence. */
  lemma AbsentCharRulesOut(s: string, sub: string, ignoreCase: bool, j: nat)
    requires j < |sub|
    requires forall k :: 0 <= k < |s| ==> !CharEquals(s[k], sub[j], ignoreCase)
    ensures !Contains(s, sub, ignoreCase)
  {
    forall i | 0 <= i <= |s| - |sub|
      ensures !RegionMatches(s, i, sub, ignoreCase)
    {
      assert !CharEquals(s[i + j], sub[j], ignoreCase);
    }
  }

  /** An occurrence of a longer word carries an occurrence of each of its infixes. */
  lemma ContainsInfix(s: string, word: string, start: nat, end: nat, ignoreCase: bool)
    requires start <= end <= |word|
    requires Contains(s, word, ignoreCase)
    ensures Contains(s, word[start..end], ignoreCase)
  {
    var r := IndexOf(s, word, 0, ignoreCase);
    var sub := word[start..end];
    forall j | 0 <= j < |sub|
      ensures CharEquals(s[r + start + j], sub[j], ignoreCase)
    {
      assert sub[j] == word[start + j];
    }
    assert RegionMatches(s, r + start, sub, ignoreCase);
  }

  /**
   * Matching ignoring case is matching exactly once both the haystack and
   * the needle are lower-cased.
   */
  lemma LoweredContains(s: string, sub: string)
    ensures Contains(s, sub, true) <==> Contains(Lower(s), Lower(sub), false)
  {
    var ls, lsub := Lower(s), Lower(sub);
    forall i
      ensures RegionMatches(s, i, sub, true) <==> RegionMatches(ls, i, lsub, false)
    {
      if 0 <= i && i + |sub| <= |s| {
        forall j | 0 <= j < |sub|
          ensures CharEquals(s[i + j], sub[j], true) <==> CharEquals(ls[i + j], lsub[j], false)
        {
        }
      }
    }
  }

  /**
   * Lower-casing the haystack and matching case-sensitively against an
   * already lower-case needle is the same as matching ignoring case.
   */
  lemma LowerThenContains(s: string, sub: string)
    requires Lower(sub) == sub
    ensures Contains(Lower(s), sub, false) <==> Contains(s, sub, true)
  {
    LoweredContains(s, sub);
  }
}
