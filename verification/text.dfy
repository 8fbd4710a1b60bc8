/**
 * The two string primitives the directory filter is built on: JavaScript's
 * `String.prototype.toLowerCase` (restricted to ASCII letters) and
 * `String.prototype.includes`.
 */
module Text {

  predicate IsUpper(c: char) {
    'A' <= c <= 'Z'
  }

  /** Lower-cases one ASCII letter; every other character is kept. */
  function LowerChar(c: char): (r: char)
    ensures !IsUpper(r)
    ensures IsUpper(c) ==> r as int == c as int + 32
    ensures !IsUpper(c) ==> r == c
  {
    if IsUpper(c) then (c as int + 32) as char else c
  }

  /** `s.toLowerCase()` */
  function Lower(s: string): (r: string)
    ensures |r| == |s|
    ensures forall i :: 0 <= i < |r| ==> !IsUpper(r[i])
    ensures forall i :: 0 <= i < |s| ==> r[i] == LowerChar(s[i])
  {
    seq(|s|, i requires 0 <= i < |s| => LowerChar(s[i]))
  }

  /** Lower-casing twice is lower-casing once. */
  lemma LowerIdempotent(s: string)
    ensures Lower(Lower(s)) == Lower(s)
  {
  }

  /** `t` occurs in `s` starting at offset `i`. */
  ghost predicate OccursAt(t: string, s: string, i: int) {
    0 <= i && i + |t| <= |s| && s[i..i + |t|] == t
  }

  /** Specification of `s.includes(t)`: `t` occurs somewhere in `s`. */
  ghost predicate OccursIn(t: string, s: string) {
    exists i :: OccursAt(t, s, i)
  }

  /** `s.includes(t)` restricted to offsets `i` and later: a left-to-right scan. */
  function IncludesFrom(s: string, t: string, i: nat): (b: bool)
    ensures b <==> exists j :: i <= j && OccursAt(t, s, j)
    decreases |s| - i
  {
    if i + |t| > |s| then false
    else if s[i..i + |t|] == t then
      assert OccursAt(t, s, i);
      true
    else
      var rest := IncludesFrom(s, t, i + 1);
      assert forall j :: i <= j && OccursAt(t, s, j) ==> j == i || i + 1 <= j;
      rest
  }

  /** `s.includes(t)` */
  function Includes(s: string, t: string): (b: bool)
    ensures b <==> OccursIn(t, s)
  {
    IncludesFrom(s, t, 0)
  }

  /** Every string includes the empty string. */
  lemma IncludesEmpty(s: string)
    ensures Includes(s, "")
  {
    assert OccursAt("", s, 0);
  }

  /** An occurrence in a suffix is an occurrence in the whole string. */
  lemma OccursInSuffix(t: string, s: string, d: nat)
    requires d <= |s| && OccursIn(t, s[d..])
    ensures OccursIn(t, s)
  {
    var i :| OccursAt(t, s[d..], i);
    assert s[d..][i..i + |t|] == s[i + d..i + d + |t|];
    assert OccursAt(t, s, i + d);
  }

  /** Occurring in is transitive. */
  lemma OccursInTransitive(a: string, b: string, c: string)
    requires OccursIn(a, b) && OccursIn(b, c)
    ensures OccursIn(a, c)
  {
    var i :| OccursAt(a, b, i);
    var j :| OccursAt(b, c, j);
    forall k | 0 <= k < |a|
      ensures c[j + i + k] == a[k]
    {
      assert c[j..j + |b|][i + k] == b[i + k];
      assert b[i..i + |a|][k] == a[k];
    }
    assert c[j + i..j + i + |a|] == a;
    assert OccursAt(a, c, j + i);
  }

  /** Lower-casing both strings keeps an occurrence. */
  lemma LowerKeepsOccurrence(t: string, s: string)
    requires OccursIn(t, s)
    ensures OccursIn(Lower(t), Lower(s))
  {
    var i :| OccursAt(t, s, i);
    assert Lower(s)[i..i + |t|] == Lower(t);
    assert OccursAt(Lower(t), Lower(s), i);
  }
}
