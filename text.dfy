/**
 * Character-level primitives shared by the response gate and the tag
 * searches: Ruby's `String#include?`, the regular-expression class `\s`,
 * ASCII case folding as `/i` applies it to the letters of `body` and `head`,
 * and the two scans the tag patterns are built from (a run of `\s` and a
 * run of `[^>]`).
 */
module Text {
  import opened Wrappers

  /** The characters of Ruby's `\s`: space, tab, line feed, vertical tab, form feed, carriage return. */
  predicate IsSpace(c: char) {
    c == ' ' || c == '\t' || c == '\n' || c == '\U{B}' || c == '\U{C}' || c == '\r'
  }

  /** ASCII lower-casing; every other character is left alone. */
  function Lower(c: char): (d: char)
    ensures 'A' <= c <= 'Z' ==> 'a' <= d <= 'z' && d as int - c as int == 32
    ensures !('A' <= c <= 'Z') ==> d == c
  {
    if 'A' <= c <= 'Z' then (c as int + 32) as char else c
  }

  /** `t` occurs in `s` starting at index `i` (the reference meaning of `include?`). */
  ghost predicate OccursAt(s: string, t: string, i: int) {
    0 <= i && i + |t| <= |s| && s[i..i + |t|] == t
  }

  /** Ruby's `String#include?`: a case-sensitive substring test. */
  function Contains(s: string, t: string): (r: bool)
    ensures r <==> exists i :: OccursAt(s, t, i)
    decreases |s|
  {
    if |s| < |t| then false
    else if s[..|t|] == t then (assert OccursAt(s, t, 0); true)
    else
      var r := Contains(s[1..], t);
      assert forall i :: OccursAt(s[1..], t, i) <==> OccursAt(s, t, i + 1);
      assert !r ==> forall i :: !OccursAt(s, t, i) by {
        forall i | OccursAt(s, t, i) ensures r {
          assert i != 0;
          assert OccursAt(s[1..], t, i - 1);
        }
      }
      r
  }

  /** A character of `t` that `s` lacks rules out `t` occurring in `s`. */
  lemma MissingCharNotContained(s: string, t: string, c: char)
    requires c in t && c !in s
    ensures !Contains(s, t)
  {
  }

  /**
   * The literal `name` (lower-case ASCII) at index `j` of `s`, compared
   * case-insensitively.
   */
  predicate NameAt(s: string, j: nat, name: string) {
    j + |name| <= |s| && forall k :: 0 <= k < |name| ==> Lower(s[j + k]) == name[k]
  }

  /** Greedy `\s*` from index `k`: the first index at or after `k` that is not whitespace. */
  function SkipSpace(s: string, k: nat): (j: nat)
    requires k <= |s|
    ensures k <= j <= |s|
    ensures forall m :: k <= m < j ==> IsSpace(s[m])
    ensures j < |s| ==> !IsSpace(s[j])
    decreases |s| - k
  {
    if k < |s| && IsSpace(s[k]) then SkipSpace(s, k + 1) else k
  }

  /** Greedy `[^>]*` followed by `>` from index `k`: the index of the first `>` at or after `k`. */
  function FindGt(s: string, k: nat): (r: Option<nat>)
    requires k <= |s|
    ensures r.Some? ==> k <= r.value < |s| && s[r.value] == '>'
    ensures r.Some? ==> forall m :: k <= m < r.value ==> s[m] != '>'
    ensures r.None? ==> forall m :: k <= m < |s| ==> s[m] != '>'
    decreases |s| - k
  {
    if k == |s| then None
    else if s[k] == '>' then Some(k)
    else FindGt(s, k + 1)
  }
}
