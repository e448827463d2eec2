/**
 The order of the suffixes of a text and what a suffix array is.
 */
module SuffixOrder {

  // Whether the suffix of t at i comes before the one at j; the empty suffix at |t| comes first.
  ghost predicate Before(t: seq<nat>, i: nat, j: nat)
    requires i <= |t| && j <= |t|
    decreases |t| - i
  {
    j < |t| && (i == |t| || t[i] < t[j] || (t[i] == t[j] && Before(t, i + 1, j + 1)))
  }

  // The order of strings by their first difference, a proper prefix being less.
  ghost predicate LexLess(a: seq<nat>, b: seq<nat>) {
    b != [] && (a == [] || a[0] < b[0] || (a[0] == b[0] && LexLess(a[1..], b[1..])))
  }

  lemma {:induction false} BeforeIsLexLess(t: seq<nat>, i: nat, j: nat)
    requires i <= |t| && j <= |t|
    ensures Before(t, i, j) <==> LexLess(t[i..], t[j..])
    decreases |t| - i
  {
    if j < |t| && i < |t| && t[i] == t[j] {
      BeforeIsLexLess(t, i + 1, j + 1);
      assert t[i..][1..] == t[i + 1..] && t[j..][1..] == t[j + 1..];
    }
  }

  lemma {:induction false} BeforeIrreflexive(t: seq<nat>, i: nat)
    requires i <= |t|
    ensures !Before(t, i, i)
    decreases |t| - i
  {
    if i < |t| {
      BeforeIrreflexive(t, i + 1);
    }
  }

  lemma {:induction false} BeforeTransitive(t: seq<nat>, i: nat, j: nat, k: nat)
    requires i <= |t| && j <= |t| && k <= |t|
    requires Before(t, i, j) && Before(t, j, k)
    ensures Before(t, i, k)
    decreases |t| - i
  {
    if i < |t| && t[i] == t[j] == t[k] {
      BeforeTransitive(t, i + 1, j + 1, k + 1);
    }
  }

  lemma {:induction false} BeforeTotal(t: seq<nat>, i: nat, j: nat)
    requires i <= |t| && j <= |t| && i != j
    ensures Before(t, i, j) || Before(t, j, i)
    decreases |t| - i
  {
    if i < |t| && j < |t| && t[i] == t[j] {
      BeforeTotal(t, i + 1, j + 1);
    }
  }

  lemma BeforeAntisymmetric(t: seq<nat>, i: nat, j: nat)
    requires i <= |t| && j <= |t| && Before(t, i, j)
    ensures i != j && !Before(t, j, i)
  {
    BeforeIrreflexive(t, i);
    if Before(t, j, i) {
      BeforeTransitive(t, i, j, i);
    }
  }

  // All suffixes of t but the empty one, each strictly before the next.
  ghost predicate IsSuffixArray(t: seq<nat>, sa: seq<nat>) {
    && |sa| == |t|
    && (forall k :: 0 <= k < |sa| ==> sa[k] < |t|)
    && (forall k, l :: 0 <= k < l < |sa| ==> Before(t, sa[k], sa[l]))
  }

  // ----- Permutations

  ghost predicate Distinct(a: seq<nat>) {
    forall k, l :: 0 <= k < l < |a| ==> a[k] != a[l]
  }

  ghost predicate Below(a: seq<nat>, n: nat) {
    forall k :: 0 <= k < |a| ==> a[k] < n
  }

  ghost predicate IsPermutation(a: seq<nat>, n: nat) {
    |a| == n && Below(a, n) && Distinct(a)
  }

  ghost function Elements(a: seq<nat>): set<nat> {
    set x | x in a
  }

  ghost function Upto(n: nat): (r: set<nat>)
    ensures forall x: nat :: x in r <==> x < n
  {
    if n == 0 then {} else Upto(n - 1) + {n - 1}
  }

  lemma {:induction false} UptoSize(n: nat)
    ensures |Upto(n)| == n
  {
    if n > 0 {
      UptoSize(n - 1);
    }
  }

  lemma {:induction false} DistinctSize(a: seq<nat>)
    requires Distinct(a)
    ensures |Elements(a)| == |a|
  {
    if a != [] {
      var init, last := a[..|a| - 1], a[|a| - 1];
      DistinctSize(init);
      assert a == init + [last];
      assert Elements(a) == Elements(init) + {last};
      assert last !in init;
    }
  }

  lemma SubsetSize(a: set<nat>, b: set<nat>)
    requires a <= b
    ensures |a| <= |b|
    ensures |a| == |b| ==> a == b
  {
    assert b == a + (b - a);
  }

  // Distinct numbers below n are at most n, and all of them when there are n.
  lemma Pigeonhole(a: seq<nat>, n: nat)
    requires Distinct(a) && Below(a, n)
    ensures |a| <= n
    ensures |a| == n ==> forall x :: 0 <= x < n ==> x in a
  {
    DistinctSize(a);
    UptoSize(n);
    assert forall x | x in a :: x < n;
    SubsetSize(Elements(a), Upto(n));
    if |a| == n {
      forall x | 0 <= x < n
        ensures x in a
      {
        assert x in Upto(n);
        assert x in Elements(a);
      }
    }
  }

  // A sequence in which all numbers below n occur has at least n elements.
  lemma CoverSize(a: seq<nat>, n: nat)
    requires Distinct(a) && Below(a, n) && forall x :: 0 <= x < n ==> x in a
    ensures |a| == n
  {
    DistinctSize(a);
    UptoSize(n);
    assert forall x | x in a :: x < n;
    assert Elements(a) == Upto(n);
  }

  // A suffix array lists every position exactly once.
  lemma SuffixArrayIsPermutation(t: seq<nat>, sa: seq<nat>)
    requires IsSuffixArray(t, sa)
    ensures IsPermutation(sa, |t|)
    ensures forall x :: 0 <= x < |t| ==> x in sa
  {
    forall k, l | 0 <= k < l < |sa|
      ensures sa[k] != sa[l]
    {
      BeforeIrreflexive(t, sa[k]);
    }
    Pigeonhole(sa, |t|);
  }

  // There is only one suffix array.
  lemma SuffixArrayIsUnique(t: seq<nat>, a: seq<nat>, b: seq<nat>)
    requires IsSuffixArray(t, a) && IsSuffixArray(t, b)
    ensures a == b
  {
    SuffixArrayIsPermutation(t, a);
    SuffixArrayIsPermutation(t, b);
    forall k | 0 <= k < |a|
      ensures a[k] == b[k]
    {
      SameUpTo(t, a, b, k);
    }
  }

  lemma {:induction false} SameUpTo(t: seq<nat>, a: seq<nat>, b: seq<nat>, k: nat)
    requires IsSuffixArray(t, a) && IsSuffixArray(t, b) && k < |a|
    requires forall x :: 0 <= x < |t| ==> x in a && x in b
    ensures a[..k + 1] == b[..k + 1]
  {
    if k > 0 {
      SameUpTo(t, a, b, k - 1);
    }
    assert forall h :: 0 <= h < k ==> a[..k][h] == b[..k][h];
    assert a[k] in b && b[k] in a;
    var x: nat :| x < |b| && b[x] == a[k];
    var y: nat :| y < |a| && a[y] == b[k];
    BeforeIrreflexive(t, a[k]);
    BeforeIrreflexive(t, b[k]);
    if x != k {
      assert x > k && y > k;
      BeforeAntisymmetric(t, b[k], b[x]);
    }
  }
}
