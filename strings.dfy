/** String primitives the scraper relies on: lower-casing and Python's
    substring test `needle in haystack`. */
module Strings {

  /** Lower-cases one ASCII letter and leaves every other character alone. */
  function LowerChar(c: char): char {
    if 'A' <= c <= 'Z' then (c as int + 32) as char else c
  }

  /** `s.lower()`, restricted to ASCII letters. */
  function Lower(s: string): (r: string)
    ensures |r| == |s|
    ensures forall i :: 0 <= i < |s| ==> r[i] == LowerChar(s[i])
  {
    seq(|s|, i requires 0 <= i < |s| => LowerChar(s[i]))
  }

  /** `sub` occurs in `s` starting at position `i`. */
  ghost predicate OccursAt(s: string, sub: string, i: int) {
    0 <= i && i + |sub| <= |s| && s[i..i + |sub|] == sub
  }

  /** Python's `sub in s`: scans `s` for a prefix equal to `sub`. */
  predicate Contains(s: string, sub: string)
    decreases |s|
  {
    (|sub| <= |s| && s[..|sub|] == sub) || (|s| > 0 && Contains(s[1..], sub))
  }

  /** A successful scan has found an occurrence. */
  lemma {:induction false} ContainsOccurs(s: string, sub: string)
    requires Contains(s, sub)
    ensures exists i :: OccursAt(s, sub, i)
    decreases |s|
  {
    if |sub| <= |s| && s[..|sub|] == sub {
      assert OccursAt(s, sub, 0);
    } else {
      ContainsOccurs(s[1..], sub);
      var i :| OccursAt(s[1..], sub, i);
      assert s[1..][i..i + |sub|] == s[i + 1..i + 1 + |sub|];
      assert OccursAt(s, sub, i + 1);
    }
  }

  /** The scan reaches every occurrence. */
  lemma {:induction false} OccursContains(s: string, sub: string, i: int)
    requires OccursAt(s, sub, i)
    ensures Contains(s, sub)
    decreases i
  {
    if i > 0 {
      assert s[1..][i - 1..i - 1 + |sub|] == s[i..i + |sub|];
      OccursContains(s[1..], sub, i - 1);
    } else {
      assert s[..|sub|] == s[i..i + |sub|];
    }
  }

  /** The scan finds `sub` exactly when `sub` occurs somewhere in `s`. */
  lemma ContainsIff(s: string, sub: string)
    ensures Contains(s, sub) <==> exists i :: OccursAt(s, sub, i)
  {
    if Contains(s, sub) {
      ContainsOccurs(s, sub);
    }
    if i :| OccursAt(s, sub, i) {
      OccursContains(s, sub, i);
    }
  }

  /** A string contains itself. */
  lemma ContainsSelf(s: string)
    ensures Contains(s, s)
  {
    assert s[..|s|] == s;
  }

  /** Python's `any(n in s for n in needles)`. */
  predicate ContainsAny(s: string, needles: seq<string>)
    decreases |needles|
  {
    |needles| > 0 && (Contains(s, needles[0]) || ContainsAny(s, needles[1..]))
  }

  /** `any` holds exactly when some needle is contained in `s`. */
  lemma {:induction false} ContainsAnyIff(s: string, needles: seq<string>)
    ensures ContainsAny(s, needles) <==> exists i :: 0 <= i < |needles| && Contains(s, needles[i])
    decreases |needles|
  {
    if |needles| > 0 {
      ContainsAnyIff(s, needles[1..]);
      if i :| 0 <= i < |needles| && Contains(s, needles[i]) {
        if i > 0 { assert needles[1..][i - 1] == needles[i]; }
      }
    }
  }
}
