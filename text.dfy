/**
 * String helpers shared by the filters, the orderings and the URL rewrite:
 * ASCII lower-casing (standing in for Go's strings.ToLower and SQL LOWER),
 * prefix and substring tests (SQL LIKE '%x%'), and the code-point
 * lexicographic order used for ORDER BY on names.
 */
module Text {

  /** Lower-cases one ASCII letter; every other character is unchanged. */
  function LowerChar(c: char): char
  {
    if 'A' <= c <= 'Z' then (c as int + 32) as char else c
  }

  /** Lower-cases a string character by character. */
  function Lower(s: string): (r: string)
    ensures |r| == |s|
    ensures forall i :: 0 <= i < |s| ==> r[i] == LowerChar(s[i])
  {
    if s == [] then [] else [LowerChar(s[0])] + Lower(s[1..])
  }

  predicate IsPrefix(p: string, s: string)
  {
    |p| <= |s| && s[..|p|] == p
  }

  /** `p` occurs in `s` starting at index `i`. */
  predicate OccursAt(s: string, p: string, i: nat)
  {
    i + |p| <= |s| && s[i..i + |p|] == p
  }

  /** `p` is a substring of `s`: what `s LIKE '%' || p || '%'` tests when `p` holds no wildcard. */
  predicate Contains(s: string, p: string)
  {
    exists i: nat :: i <= |s| && OccursAt(s, p, i)
  }

  /** A `p` that occurs in the tail of `s` occurs in `s`, one place further on. */
  lemma ContainsTail(s: string, p: string)
    requires |s| > 0 && Contains(s[1..], p)
    ensures Contains(s, p)
  {
    var i: nat :| i <= |s[1..]| && OccursAt(s[1..], p, i);
    assert s[i + 1..i + 1 + |p|] == s[1..][i..i + |p|];
    assert OccursAt(s, p, i + 1);
  }

  /** Code-point lexicographic order on strings: a proper prefix sorts first. */
  predicate LeqString(a: string, b: string)
  {
    if a == [] then true
    else if b == [] then false
    else if a[0] != b[0] then a[0] < b[0]
    else LeqString(a[1..], b[1..])
  }

  lemma {:induction false} LeqStringTotal(a: string, b: string)
    ensures LeqString(a, b) || LeqString(b, a)
  {
    if a != [] && b != [] && a[0] == b[0] {
      LeqStringTotal(a[1..], b[1..]);
    }
  }

  lemma {:induction false} LeqStringTransitive(a: string, b: string, c: string)
    requires LeqString(a, b) && LeqString(b, c)
    ensures LeqString(a, c)
  {
    if a != [] && b != [] && c != [] && a[0] == b[0] && b[0] == c[0] {
      LeqStringTransitive(a[1..], b[1..], c[1..]);
    }
  }

  lemma {:induction false} LeqStringAntisymmetric(a: string, b: string)
    requires LeqString(a, b) && LeqString(b, a)
    ensures a == b
  {
    if a != [] && b != [] {
      LeqStringAntisymmetric(a[1..], b[1..]);
      assert a == [a[0]] + a[1..];
      assert b == [b[0]] + b[1..];
    }
  }
}
