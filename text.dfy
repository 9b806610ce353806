/**
 * The string primitives the backend and the admission agent rely on:
 * Python's `str.strip()`, `str.lower()` / SQL `LOWER`, and the substring
 * test `p in s`.  Only the ASCII range is modelled.
 */
module Text {

  /** A character `str.strip()` removes: the ASCII characters for which Python's `str.isspace()` holds. */
  predicate IsSpace(c: char) {
    c == ' ' || ('\t' <= c <= '\r') || ('\U{1C}' <= c <= '\U{1F}')
  }

  /** Every character of `s[lo..hi]` is whitespace. */
  predicate SpaceBetween(s: string, lo: int, hi: int) {
    forall k :: lo <= k < hi && 0 <= k < |s| ==> IsSpace(s[k])
  }

  predicate AllSpace(s: string) {
    SpaceBetween(s, 0, |s|)
  }

  /** The index of the first non-whitespace character at or after `i`, or `|s|`. */
  function SkipSpace(s: string, i: int): (j: int)
    requires 0 <= i <= |s|
    ensures i <= j <= |s| && SpaceBetween(s, i, j)
    ensures j == |s| || !IsSpace(s[j])
    decreases |s| - i
  {
    if i == |s| || !IsSpace(s[i]) then i else SkipSpace(s, i + 1)
  }

  /** The index just past the last non-whitespace character of `s[lo..j]`, or `lo`. */
  function SkipSpaceBack(s: string, lo: int, j: int): (e: int)
    requires 0 <= lo <= j <= |s|
    ensures lo <= e <= j && SpaceBetween(s, e, j)
    ensures e == lo || !IsSpace(s[e - 1])
    decreases j
  {
    if j == lo || !IsSpace(s[j - 1]) then j else SkipSpaceBack(s, lo, j - 1)
  }

  /** `r` is what is left of `s` after removing the whitespace prefix `s[..i]` and a whitespace suffix. */
  predicate StrippedAt(s: string, r: string, i: int) {
    0 <= i <= |s| - |r| && r == s[i..i + |r|] && SpaceBetween(s, 0, i) && SpaceBetween(s, i + |r|, |s|)
  }

  /**
   * `s.strip()`: the slice of `s` left after removing whitespace at both
   * ends.  It is empty exactly when `s` is all whitespace.
   */
  function Strip(s: string): (r: string)
    ensures r == [] <==> AllSpace(s)
    ensures r == [] || (!IsSpace(r[0]) && !IsSpace(r[|r| - 1]))
    ensures exists i :: StrippedAt(s, r, i)
  {
    var i := SkipSpace(s, 0);
    var j := SkipSpaceBack(s, i, |s|);
    assert StrippedAt(s, s[i..j], i);
    assert i < j ==> !IsSpace(s[i]) && !IsSpace(s[j - 1]);
    s[i..j]
  }

  predicate IsUpper(c: char) {
    'A' <= c <= 'Z'
  }

  /** One character of `str.lower()` (ASCII letters only). */
  function ToLower(c: char): char {
    if IsUpper(c) then (c as int + 32) as char else c
  }

  /** `s.lower()` and SQL `LOWER(s)`: every character mapped through ToLower. */
  function Lower(s: string): (r: string)
    ensures |r| == |s|
    ensures forall i :: 0 <= i < |s| ==> r[i] == ToLower(s[i]) && !IsUpper(r[i])
  {
    if s == [] then [] else [ToLower(s[0])] + Lower(s[1..])
  }

  /** Lowercasing twice is lowercasing once. */
  lemma LowerIdempotent(s: string)
    ensures Lower(Lower(s)) == Lower(s)
  {
    var once := Lower(s);
    assert forall i :: 0 <= i < |s| ==> Lower(once)[i] == once[i];
  }

  /** Python's `p in s` on strings. */
  function Contains(s: string, p: string): (found: bool)
    ensures found ==> |p| <= |s|
    ensures p == [] ==> found
    decreases |s|
  {
    |p| <= |s| && (s[..|p|] == p || (s != [] && Contains(s[1..], p)))
  }

  /** `p` occurs in `s` starting at position `i`. */
  predicate OccursAt(p: string, s: string, i: int) {
    0 <= i && i + |p| <= |s| && s[i..i + |p|] == p
  }

  /** `p` occurs in `s` at some position. */
  ghost predicate Occurs(p: string, s: string) {
    exists i :: OccursAt(p, s, i)
  }

  lemma {:induction false} ContainsIff(s: string, p: string)
    ensures Contains(s, p) <==> Occurs(p, s)
    decreases |s|
  {
    if |p| <= |s| {
      if s[..|p|] == p {
        assert OccursAt(p, s, 0);
      } else if s != [] {
        ContainsIff(s[1..], p);
        if Contains(s[1..], p) {
          var i :| OccursAt(p, s[1..], i);
          var inTail, inWhole := s[1..][i..i + |p|], s[i + 1..i + 1 + |p|];
          assert forall k :: 0 <= k < |p| ==> inTail[k] == inWhole[k];
          assert OccursAt(p, s, i + 1);
        }
        if Occurs(p, s) {
          var i :| OccursAt(p, s, i);
          assert i != 0;
          assert s[1..][i - 1..i - 1 + |p|] == s[i..i + |p|];
          assert OccursAt(p, s[1..], i - 1);
        }
      }
    }
  }
}
