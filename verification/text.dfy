/**
  Case-insensitive string comparison as `String.equalsIgnoreCase` performs it,
  restricted to ASCII letters: two characters match when they are equal, when
  their upper-case forms are equal, or when the lower-case forms of their
  upper-case forms are equal.
 */
module Text {

  function ToUpperChar(c: char): char {
    if 'a' <= c <= 'z' then (c as int - 32) as char else c
  }

  function ToLowerChar(c: char): char {
    if 'A' <= c <= 'Z' then (c as int + 32) as char else c
  }

  /** `String.toLowerCase`, character by character. */
  function ToLower(s: string): (r: string)
    ensures |r| == |s|
    ensures forall i :: 0 <= i < |s| ==> r[i] == ToLowerChar(s[i])
  {
    if |s| == 0 then "" else [ToLowerChar(s[0])] + ToLower(s[1..])
  }

  /** The per-character test of `String.regionMatches(true, ...)`. */
  predicate CharEqualsIgnoreCase(a: char, b: char) {
    || a == b
    || ToUpperChar(a) == ToUpperChar(b)
    || ToLowerChar(ToUpperChar(a)) == ToLowerChar(ToUpperChar(b))
  }

  /** `a.equalsIgnoreCase(b)` for non-null `a` and `b`. */
  predicate EqualsIgnoreCase(a: string, b: string): (r: bool)
    ensures r <==> |a| == |b| && forall i :: 0 <= i < |a| ==> CharEqualsIgnoreCase(a[i], b[i])
    decreases |a|
  {
    && |a| == |b|
    && (|a| == 0 || (CharEqualsIgnoreCase(a[0], b[0]) && EqualsIgnoreCase(a[1..], b[1..])))
  }

  lemma CharEqualsIgnoreCaseIsLowerEquality(a: char, b: char)
    ensures CharEqualsIgnoreCase(a, b) <==> ToLowerChar(a) == ToLowerChar(b)
  {
  }

  /** Comparing while ignoring case is the same as comparing the lower-cased strings. */
  lemma {:induction false} EqualsIgnoreCaseIsLowerEquality(a: string, b: string)
    ensures EqualsIgnoreCase(a, b) <==> ToLower(a) == ToLower(b)
    decreases |a|
  {
    if |a| == |b| && |a| > 0 {
      EqualsIgnoreCaseIsLowerEquality(a[1..], b[1..]);
      CharEqualsIgnoreCaseIsLowerEquality(a[0], b[0]);
      assert ToLower(a) == [ToLowerChar(a[0])] + ToLower(a[1..]);
      assert ToLower(b) == [ToLowerChar(b[0])] + ToLower(b[1..]);
      if ToLower(a) == ToLower(b) {
        assert ToLower(a)[0] == ToLower(b)[0];
        assert ToLower(a)[1..] == ToLower(a[1..]);
        assert ToLower(b)[1..] == ToLower(b[1..]);
      }
    }
  }

  /** Ignoring case is an equivalence: reflexive, symmetric and transitive. */
  lemma EqualsIgnoreCaseIsEquivalence(a: string, b: string, c: string)
    ensures EqualsIgnoreCase(a, a)
    ensures EqualsIgnoreCase(a, b) ==> EqualsIgnoreCase(b, a)
    ensures EqualsIgnoreCase(a, b) && EqualsIgnoreCase(b, c) ==> EqualsIgnoreCase(a, c)
  {
    EqualsIgnoreCaseIsLowerEquality(a, a);
    EqualsIgnoreCaseIsLowerEquality(a, b);
    EqualsIgnoreCaseIsLowerEquality(b, a);
    EqualsIgnoreCaseIsLowerEquality(b, c);
    EqualsIgnoreCaseIsLowerEquality(a, c);
  }

  /** A string and any variant of it that differs only in letter case compare equal. */
  lemma {:induction false} CaseVariantsMatch(s: string, t: string)
    requires |s| == |t|
    requires forall i :: 0 <= i < |s| ==> t[i] == s[i] || t[i] == ToUpperChar(s[i]) || t[i] == ToLowerChar(s[i])
    ensures EqualsIgnoreCase(s, t)
  {
    assert ToLower(s) == ToLower(t);
    EqualsIgnoreCaseIsLowerEquality(s, t);
  }
}
