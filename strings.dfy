/** The string primitives the core relies on: `indexOf`, `lastIndexOf`, `includes`,
    and the whitespace class `\s` of regular expressions (restricted to ASCII). */
module Strings {
  import opened Wrappers

  /** ASCII approximation of `\s`: space, tab, line feed, vertical tab, form feed, carriage return. */
  predicate IsSpace(c: char) {
    c == ' ' || '\t' <= c <= '\r'
  }

  /** Every character of `s[lo..hi]` is whitespace. */
  predicate SpacesBetween(s: string, lo: int, hi: int) {
    0 <= lo <= hi <= |s| && forall k :: lo <= k < hi ==> IsSpace(s[k])
  }

  /** `pat` occurs in `s` starting at index `k`. */
  predicate OccursAt(s: string, pat: string, k: int) {
    0 <= k && k + |pat| <= |s| && s[k..k + |pat|] == pat
  }

  /** JavaScript's `s.includes(pat)`, as a specification. */
  ghost predicate Occurs(s: string, pat: string) {
    exists k :: OccursAt(s, pat, k)
  }

  /** The first index at or after `from` where `pat` occurs. */
  function FindFrom(s: string, pat: string, from: nat): (r: Option<nat>)
    ensures r.Some? ==> from <= r.value && OccursAt(s, pat, r.value)
    ensures forall k :: from <= k && (r.None? || k < r.value) ==> !OccursAt(s, pat, k)
    decreases |s| - from
  {
    if from + |pat| > |s| then None
    else if s[from..from + |pat|] == pat then Some(from)
    else FindFrom(s, pat, from + 1)
  }

  /** JavaScript's `s.includes(pat)`. */
  function Includes(s: string, pat: string): (b: bool)
    ensures b <==> Occurs(s, pat)
  {
    var r := FindFrom(s, pat, 0);
    if r.Some? then
      assert OccursAt(s, pat, r.value);
      true
    else
      false
  }

  /** JavaScript's `s.indexOf(c)` for a one-character pattern: -1 when absent. */
  function IndexOf(s: string, c: char): (r: int)
    ensures -1 <= r < |s|
    ensures 0 <= r ==> s[r] == c
    ensures forall k :: 0 <= k < |s| && (r < 0 || k < r) ==> s[k] != c
  {
    if |s| == 0 then -1
    else if s[0] == c then 0
    else
      var r := IndexOf(s[1..], c);
      if r < 0 then -1 else r + 1
  }

  /** JavaScript's `s.lastIndexOf(c)` for a one-character pattern: -1 when absent. */
  function LastIndexOf(s: string, c: char): (r: int)
    ensures -1 <= r < |s|
    ensures 0 <= r ==> s[r] == c
    ensures forall k :: r < k < |s| ==> s[k] != c
  {
    if |s| == 0 then -1
    else if s[|s| - 1] == c then |s| - 1
    else LastIndexOf(s[..|s| - 1], c)
  }

  /** The end of the whitespace run that starts at `from`: what a greedy `\s*` consumes. */
  function SkipSpaces(s: string, from: nat): (r: nat)
    requires from <= |s|
    ensures SpacesBetween(s, from, r)
    ensures r < |s| ==> !IsSpace(s[r])
    decreases |s| - from
  {
    if from < |s| && IsSpace(s[from]) then SkipSpaces(s, from + 1) else from
  }

  /** The start of the whitespace run that ends at `hi`, never going below `lo`. */
  function SpaceRunStart(s: string, lo: nat, hi: nat): (r: nat)
    requires lo <= hi <= |s|
    ensures lo <= r && SpacesBetween(s, r, hi)
    ensures lo < r ==> !IsSpace(s[r - 1])
    decreases hi
  {
    if lo < hi && IsSpace(s[hi - 1]) then SpaceRunStart(s, lo, hi - 1) else hi
  }
}
