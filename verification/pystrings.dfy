/** The few Python `str` operations the controller relies on, with Python's
    semantics written out: `startswith`, `find`, `in` and slicing with
    negative or out-of-range bounds. */
module PyStrings {

  /** `s.startswith(p)` */
  predicate StartsWith(s: string, p: string)
  {
    |p| <= |s| && s[..|p|] == p
  }

  /** A prefix is a character-by-character agreement at the start. */
  lemma StartsWithChars(s: string, p: string)
    ensures StartsWith(s, p) <==> |p| <= |s| && forall k :: 0 <= k < |p| ==> s[k] == p[k]
  {
    if |p| <= |s| && forall k :: 0 <= k < |p| ==> s[k] == p[k] {
      assert s[..|p|] == p;
    }
  }

  /** `sub` occurs in `s` at position `i`. */
  predicate OccursAt(s: string, sub: string, i: int)
  {
    0 <= i && i + |sub| <= |s| && s[i..i + |sub|] == sub
  }

  /** `sub` occurs somewhere in `s` (the meaning of Python's `sub in s`). */
  ghost predicate Occurs(s: string, sub: string)
  {
    exists i :: OccursAt(s, sub, i)
  }

  /** `p` is the first position at which `sub` occurs in `s`. */
  ghost predicate FirstAt(s: string, sub: string, p: int)
  {
    OccursAt(s, sub, p) && forall j :: 0 <= j < p ==> !OccursAt(s, sub, j)
  }

  /** There is at most one first occurrence. */
  lemma FirstAtUnique(s: string, sub: string)
    ensures forall p, q :: FirstAt(s, sub, p) && FirstAt(s, sub, q) ==> p == q
  {
  }

  lemma OccursAtZero(s: string, sub: string)
    ensures OccursAt(s, sub, 0) <==> StartsWith(s, sub)
  {
  }

  /** The scan behind `s.find(sub)`, starting at position `from`. */
  function FindFrom(s: string, sub: string, from: nat): (r: int)
    ensures r == -1 || (from <= r && OccursAt(s, sub, r))
    ensures r >= 0 ==> forall j :: from <= j < r ==> !OccursAt(s, sub, j)
    ensures r == -1 ==> forall j :: from <= j ==> !OccursAt(s, sub, j)
    decreases |s| - from
  {
    if from + |sub| > |s| then -1
    else if s[from..from + |sub|] == sub then from
    else FindFrom(s, sub, from + 1)
  }

  /** `s.find(sub)`: the lowest index at which `sub` occurs, or -1. */
  function Find(s: string, sub: string): (r: int)
    ensures r == -1 <==> !Occurs(s, sub)
    ensures r != -1 ==> FirstAt(s, sub, r)
  {
    FindFrom(s, sub, 0)
  }

  /** `sub in s` */
  function In(sub: string, s: string): (r: bool)
    ensures r <==> Occurs(s, sub)
  {
    Find(s, sub) != -1
  }

  /** How Python normalises a slice bound `i` against a length `n`:
      negative bounds count from the end, and the result is clamped to [0, n]. */
  function SliceBound(i: int, n: nat): (r: nat)
    ensures r <= n
    ensures 0 <= i <= n ==> r == i
    ensures i < 0 && 0 <= n + i ==> r == n + i
    ensures n + i < 0 ==> r == 0
    ensures n < i ==> r == n
  {
    if i < 0 then (if i + n < 0 then 0 else i + n)
    else if i > n then n
    else i
  }

  /** `s[i:j]` */
  function Slice(s: string, i: int, j: int): (r: string)
    ensures var a, b := SliceBound(i, |s|), SliceBound(j, |s|);
            && |r| == (if a < b then b - a else 0)
            && forall k :: 0 <= k < |r| ==> r[k] == s[a + k]
  {
    var a := SliceBound(i, |s|);
    var b := SliceBound(j, |s|);
    if a < b then s[a..b] else ""
  }
}
