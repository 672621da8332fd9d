/** Small sequence vocabulary shared by the scraper model: an optional value,
    duplicate-freedom, subsequences, first occurrences and first-seen
    de-duplication. */
module Seqs {

  datatype Option<+T> = None | Some(value: T) {
    function GetOr(default: T): T {
      match this
      case Some(v) => v
      case None => default
    }
  }

  /** No element occurs twice. */
  ghost predicate NoDuplicates<T>(s: seq<T>) {
    forall i, j :: 0 <= i < j < |s| ==> s[i] != s[j]
  }

  /** `a` can be obtained from `b` by deleting elements, order kept. */
  predicate IsSubsequence<T(==)>(a: seq<T>, b: seq<T>)
    decreases |b|
  {
    a == [] ||
    (b != [] &&
      ((a[|a| - 1] == b[|b| - 1] && IsSubsequence(a[..|a| - 1], b[..|b| - 1])) ||
       IsSubsequence(a, b[..|b| - 1])))
  }

  lemma SubsequenceExtend<T>(a: seq<T>, b: seq<T>, x: T)
    requires IsSubsequence(a, b)
    ensures IsSubsequence(a, b + [x])
    ensures IsSubsequence(a + [x], b + [x])
  {
    assert (b + [x])[..|b|] == b;
    assert (a + [x])[..|a|] == a;
  }

  lemma {:induction false} SubsequenceTransitive<T>(a: seq<T>, b: seq<T>, c: seq<T>)
    requires IsSubsequence(a, b) && IsSubsequence(b, c)
    ensures IsSubsequence(a, c)
    decreases |c|
  {
    if a != [] {
      assert b != [] && c != [];
      var a', b', c' := a[..|a| - 1], b[..|b| - 1], c[..|c| - 1];
      if b[|b| - 1] == c[|c| - 1] && IsSubsequence(b', c') {
        if a[|a| - 1] == b[|b| - 1] && IsSubsequence(a', b') {
          SubsequenceTransitive(a', b', c');
        } else {
          SubsequenceTransitive(a, b', c');
        }
      } else {
        SubsequenceTransitive(a, b, c');
      }
    }
  }

  /** Index of the first occurrence of `x` in `s`. */
  function FirstIndex<T(==)>(s: seq<T>, x: T): (r: nat)
    requires x in s
    ensures r < |s| && s[r] == x && x !in s[..r]
  {
    if s[0] == x then 0
    else
      var r := 1 + FirstIndex(s[1..], x);
      assert s[..r] == [s[0]] + s[1..][..r - 1];
      r
  }

  lemma FirstIndexUnique<T>(s: seq<T>, x: T, k: nat)
    requires k < |s| && s[k] == x && x !in s[..k]
    ensures FirstIndex(s, x) == k
  {
  }

  lemma FirstIndexAppend<T>(s: seq<T>, x: T, y: T)
    requires y in s
    ensures FirstIndex(s + [x], y) == FirstIndex(s, y)
  {
    var k := FirstIndex(s, y);
    assert (s + [x])[..k] == s[..k];
    FirstIndexUnique(s + [x], y, k);
  }

  /** The distinct elements of `s`, each kept where it is first seen:
      the list a loop builds by appending every element it has not
      appended yet. */
  function Dedup<T(==)>(s: seq<T>): seq<T>
    decreases |s|
  {
    if s == [] then []
    else
      var d := Dedup(s[..|s| - 1]);
      if s[|s| - 1] in d then d else d + [s[|s| - 1]]
  }

  lemma {:induction false} DedupElements<T>(s: seq<T>)
    ensures forall x :: x in Dedup(s) <==> x in s
    decreases |s|
  {
    if s != [] {
      DedupElements(s[..|s| - 1]);
      assert s == s[..|s| - 1] + [s[|s| - 1]];
    }
  }

  lemma {:induction false} DedupNoDuplicates<T>(s: seq<T>)
    ensures NoDuplicates(Dedup(s))
    decreases |s|
  {
    if s != [] {
      DedupNoDuplicates(s[..|s| - 1]);
    }
  }

  lemma {:induction false} DedupSubsequence<T>(s: seq<T>)
    ensures IsSubsequence(Dedup(s), s)
    decreases |s|
  {
    if s != [] {
      var p := s[..|s| - 1];
      DedupSubsequence(p);
      SubsequenceExtend(Dedup(p), p, s[|s| - 1]);
      assert s == p + [s[|s| - 1]];
    }
  }

  /** The elements of `Dedup(s)` are ordered by where they first occur in `s`. */
  ghost predicate FirstSeenOrder<T>(d: seq<T>, s: seq<T>) {
    (forall x :: x in d ==> x in s) &&
    forall i, j :: 0 <= i < j < |d| ==> FirstIndex(s, d[i]) < FirstIndex(s, d[j])
  }

  lemma FirstSeenStep<T>(d: seq<T>, p: seq<T>, x: T)
    requires FirstSeenOrder(d, p)
    ensures FirstSeenOrder(d, p + [x])
    ensures x !in p ==> FirstSeenOrder(d + [x], p + [x])
  {
    var s := p + [x];
    forall y | y in d ensures FirstIndex(s, y) == FirstIndex(p, y) {
      FirstIndexAppend(p, x, y);
    }
    if x !in p {
      assert s[..|p|] == p;
      FirstIndexUnique(s, x, |p|);
      var d' := d + [x];
      forall i, j | 0 <= i < j < |d'|
        ensures FirstIndex(s, d'[i]) < FirstIndex(s, d'[j])
      {
        if j == |d| {
          assert d'[i] == d[i];
        } else {
          assert d'[i] == d[i] && d'[j] == d[j];
        }
      }
    }
  }

  lemma {:induction false} DedupFirstSeen<T>(s: seq<T>)
    ensures FirstSeenOrder(Dedup(s), s)
    decreases |s|
  {
    if s != [] {
      var p, x := s[..|s| - 1], s[|s| - 1];
      DedupFirstSeen(p);
      DedupElements(p);
      assert s == p + [x];
      FirstSeenStep(Dedup(p), p, x);
    }
  }
}
