/** The two library string operations the repository relies on: Swift's
    `lowercased()` (restricted here to ASCII letters) and `contains`. */
module Text {

  /** `c` is not an ASCII capital letter (digits and punctuation included). */
  predicate NotCapital(c: char)
  {
    !('A' <= c <= 'Z')
  }

  /** Lower-cases one character: capitals become the matching small letter. */
  function LowerChar(c: char): (d: char)
    ensures NotCapital(d)
    ensures NotCapital(c) ==> d == c
    ensures 'A' <= c <= 'Z' ==> d as int - c as int == 'a' as int - 'A' as int
  {
    if 'A' <= c <= 'Z' then (c as int - 'A' as int + 'a' as int) as char else c
  }

  /** No capital letter occurs in `s`. */
  predicate HasNoCapital(s: string)
  {
    forall i :: 0 <= i < |s| ==> NotCapital(s[i])
  }

  /** `String.lowercased()`, character by character. */
  function Lower(s: string): (r: string)
    ensures |r| == |s|
    ensures HasNoCapital(r)
    ensures HasNoCapital(s) ==> r == s
  {
    seq(|s|, i requires 0 <= i < |s| => LowerChar(s[i]))
  }

  /** Lower-casing twice is lower-casing once. */
  lemma LowerIdempotent(s: string)
    ensures Lower(Lower(s)) == Lower(s)
  {
  }

  /** Lower-casing a concatenation lower-cases each part. */
  lemma LowerAppend(a: string, b: string)
    ensures Lower(a + b) == Lower(a) + Lower(b)
  {
    assert forall i :: 0 <= i < |a + b| ==> Lower(a + b)[i] == (Lower(a) + Lower(b))[i];
  }

  /** `q` occurs in `s` at position `i`. */
  predicate OccursAt(s: string, q: string, i: int)
  {
    0 <= i && i + |q| <= |s| && s[i..i + |q|] == q
  }

  /** An occurrence in `s[1..]` is an occurrence in `s`, one position later. */
  lemma OccursShift(s: string, q: string)
    requires s != []
    ensures forall i :: 0 <= i ==> (OccursAt(s[1..], q, i) <==> OccursAt(s, q, i + 1))
  {
    forall i | 0 <= i ensures OccursAt(s[1..], q, i) <==> OccursAt(s, q, i + 1) {
      if i + |q| <= |s| - 1 {
        assert s[1..][i..i + |q|] == s[i + 1..i + 1 + |q|];
      }
    }
  }

  /** `s.contains(q)`: `q` occurs somewhere in `s` as a contiguous substring.
      The empty string occurs in every string. */
  function Contains(s: string, q: string): (r: bool)
    ensures r <==> exists i :: OccursAt(s, q, i)
    decreases |s|
  {
    if |q| <= |s| && s[..|q|] == q then
      assert OccursAt(s, q, 0);
      true
    else if s == [] then
      false
    else
      OccursShift(s, q);
      assert !OccursAt(s, q, 0);
      assert forall i :: OccursAt(s, q, i) ==> i == 0 || OccursAt(s[1..], q, i - 1);
      Contains(s[1..], q)
  }

  /** A string occurs inside any concatenation it is the middle part of. */
  lemma ContainsInfix(a: string, b: string, c: string)
    ensures Contains(a + b + c, b)
  {
    assert (a + b + c)[|a|..|a| + |b|] == b;
    assert OccursAt(a + b + c, b, |a|);
  }
}
