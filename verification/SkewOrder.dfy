/**
 Why the Skew construction is right: triples, their names, and how the order of the suffixes of the
 string of names, and then the ranks, decide the order of the suffixes of the text.
 */
module SkewOrder {
  import opened SuffixOrder

  // The string s has n positive characters, at most maxValue, and three zeros behind them.
  ghost predicate Padded(s: seq<nat>, n: nat, maxValue: nat) {
    && |s| == n + 3
    && (forall i :: 0 <= i < n ==> 0 < s[i] <= maxValue)
    && s[n] == 0 && s[n + 1] == 0 && s[n + 2] == 0
  }

  // ----- The sample: the positions =1 and =2 (mod 3), with a fake one at n when n = 1 (mod 3)

  function N0(n: nat): nat { (n + 2) / 3 }
  function N1(n: nat): nat { (n + 1) / 3 }
  function N2(n: nat): nat { n / 3 }
  function N02(n: nat): nat { N0(n) + N2(n) }
  function Fake(n: nat): nat { if N0(n) != N1(n) then 1 else 0 }

  ghost predicate Sampled(n: nat, p: nat) {
    p % 3 != 0 && p < n + Fake(n)
  }

  predicate InLeftHalf(middle: nat, pos: nat) { pos < middle }

  function RestoreIndex(middle: nat, pos: nat): nat {
    if InLeftHalf(middle, pos) then pos * 3 + 1 else (pos - middle) * 3 + 2
  }

  // Where the name of the triple at p goes: first all =1 (mod 3) positions, then all =2 (mod 3).
  function Index(n: nat, p: nat): nat {
    if p % 3 == 1 then p / 3 else p / 3 + N0(n)
  }

  lemma Sizes(n: nat)
    ensures Fake(n) == (if n % 3 == 1 then 1 else 0)
    ensures N0(n) + N1(n) + N2(n) == n
    ensures n >= 2 ==> N02(n) < n
    ensures N1(n) + Fake(n) == N0(n)
  {
  }

  lemma IndexRoundTrip(n: nat, p: nat)
    requires Sampled(n, p)
    ensures Index(n, p) < N02(n) && RestoreIndex(N0(n), Index(n, p)) == p && p <= n
  {
    var q, m := p / 3, n / 3;
    assert p == 3 * q + p % 3 && n == 3 * m + n % 3;
    assert N0(n) == if n % 3 == 0 then m else m + 1;
    assert Fake(n) == if n % 3 == 1 then 1 else 0;
    if p % 3 == 1 {
      assert q < N0(n);
    } else {
      assert q < N2(n);
    }
  }

  lemma RestoreRoundTrip(n: nat, i: nat)
    requires i < N02(n)
    ensures Sampled(n, RestoreIndex(N0(n), i)) && Index(n, RestoreIndex(N0(n), i)) == i
  {
  }

  lemma IndexInjective(n: nat, p: nat, q: nat)
    requires Sampled(n, p) && Sampled(n, q) && Index(n, p) == Index(n, q)
    ensures p == q
  {
    IndexRoundTrip(n, p);
    IndexRoundTrip(n, q);
  }

  // ----- Triples and their names

  ghost predicate TripleLess(s: seq<nat>, p: nat, q: nat)
    requires p + 2 < |s| && q + 2 < |s|
  {
    || s[p] < s[q]
    || (s[p] == s[q] && s[p + 1] < s[q + 1])
    || (s[p] == s[q] && s[p + 1] == s[q + 1] && s[p + 2] < s[q + 2])
  }

  ghost predicate TripleEqual(s: seq<nat>, p: nat, q: nat)
    requires p + 2 < |s| && q + 2 < |s|
  {
    s[p] == s[q] && s[p + 1] == s[q + 1] && s[p + 2] == s[q + 2]
  }

  // The names r, from 1 to name, order the sampled triples.
  ghost predicate Names(s: seq<nat>, n: nat, r: seq<nat>, name: nat) {
    && |r| == N02(n) && |s| == n + 3
    && (forall i :: 0 <= i < |r| ==> 0 < r[i] <= name)
    && (forall p, q | Sampled(n, p) && Sampled(n, q) ::
          Index(n, p) < |r| && Index(n, q) < |r| && (r[Index(n, p)] < r[Index(n, q)] <==> TripleLess(s, p, q)))
  }

  // The suffixes of the string of names are ordered like the sampled suffixes of the text.
  lemma {:induction false} NamesKeepOrder(s: seq<nat>, n: nat, maxValue: nat, r: seq<nat>, name: nat, p: nat, q: nat)
    requires Padded(s, n, maxValue) && Names(s, n, r, name)
    requires Sampled(n, p) && Sampled(n, q) && p != q && p <= n && q <= n
    requires Index(n, p) <= |r| && Index(n, q) <= |r|
    ensures Before(r, Index(n, p), Index(n, q)) <==> Before(s[..n], p, q)
    decreases 2 * n - p - q
  {
    var i, j := Index(n, p), Index(n, q);
    IndexRoundTrip(n, p);
    IndexRoundTrip(n, q);
    if TripleLess(s, p, q) {
      FirstThree(s, n, maxValue, p, q);
    } else if TripleLess(s, q, p) {
      FirstThree(s, n, maxValue, q, p);
      BeforeAntisymmetric(s[..n], q, p);
    } else {
      assert r[i] == r[j];
      EqualTriplesInside(s, n, maxValue, p, q);
      SkipThree(s, n, maxValue, p, q);
      EndOfSample(n, p, r);
      EndOfSample(n, q, r);
      if Sampled(n, p + 3) && Sampled(n, q + 3) {
        NextIndex(n, p);
        NextIndex(n, q);
        NamesKeepOrder(s, n, maxValue, r, name, p + 3, q + 3);
      } else if Sampled(n, q + 3) {
        NextIndex(n, q);
        assert p + 3 == n;
      } else {
        NextIndex(n, p);
        assert q + 3 == n;
      }
    }
  }

  // A difference within the first three characters decides.
  lemma FirstThree(s: seq<nat>, n: nat, maxValue: nat, p: nat, q: nat)
    requires Padded(s, n, maxValue) && p <= n && q <= n && TripleLess(s, p, q)
    ensures Before(s[..n], p, q)
  {
    var t := s[..n];
    assert s[p] <= s[q] && q < n;
    if p < n && s[p] == s[q] {
      assert q + 1 <= n;
      if s[p + 1] == s[q + 1] {
        assert q + 2 <= n;
        if p + 1 < n {
          assert Before(t, p + 2, q + 2);
        }
        assert Before(t, p + 1, q + 1);
      } else {
        assert Before(t, p + 1, q + 1);
      }
    }
  }

  // Equal triples at different places have no zero.
  lemma EqualTriplesInside(s: seq<nat>, n: nat, maxValue: nat, p: nat, q: nat)
    requires Padded(s, n, maxValue) && p <= n && q <= n && p != q && TripleEqual(s, p, q)
    ensures p + 3 <= n && q + 3 <= n
  {
    if p < q {
      ZeroFreeTriple(s, n, maxValue, p, q);
    } else {
      ZeroFreeTriple(s, n, maxValue, q, p);
    }
  }

  lemma ZeroFreeTriple(s: seq<nat>, n: nat, maxValue: nat, p: nat, q: nat)
    requires Padded(s, n, maxValue) && p < q <= n && TripleEqual(s, p, q)
    ensures q + 3 <= n
  {
    assert s[p] > 0;
    assert q < n;
    assert s[p + 1] > 0;
    assert q + 1 < n;
    assert s[p + 2] > 0;
  }

  lemma SkipThree(s: seq<nat>, n: nat, maxValue: nat, p: nat, q: nat)
    requires Padded(s, n, maxValue) && p + 3 <= n && q + 3 <= n && TripleEqual(s, p, q)
    ensures Before(s[..n], p, q) <==> Before(s[..n], p + 3, q + 3)
  {
    var t := s[..n];
    assert Before(t, p, q) <==> Before(t, p + 1, q + 1);
    assert Before(t, p + 1, q + 1) <==> Before(t, p + 2, q + 2);
    assert Before(t, p + 2, q + 2) <==> Before(t, p + 3, q + 3);
  }

  lemma NextIndex(n: nat, p: nat)
    requires Sampled(n, p) && Sampled(n, p + 3)
    ensures Index(n, p + 3) == Index(n, p) + 1
  {
  }

  // The sample runs on for three more characters unless the names end there.
  lemma EndOfSample(n: nat, p: nat, r: seq<nat>)
    requires Sampled(n, p) && p + 3 <= n && |r| == N02(n)
    ensures Sampled(n, p + 3) || (p + 3 == n && Index(n, p) + 1 == |r|)
  {
  }

  // ----- Ranks

  // sa lists the sampled positions in the order of their suffixes, and rk gives each its rank from 1.
  ghost predicate Ranked(t: seq<nat>, rk: seq<nat>, sa: seq<nat>) {
    var n := |t|;
    && |rk| == N02(n) + 3 && IsPermutation(sa, N02(n))
    && (forall k :: 0 <= k < |sa| ==> rk[sa[k]] == k + 1)
    && rk[N02(n)] == 0 && rk[N02(n) + 1] == 0 && rk[N02(n) + 2] == 0
    && (forall k :: 0 <= k < |sa| ==> RestoreIndex(N0(n), sa[k]) <= n)
    && (forall k, l :: 0 <= k < l < |sa| ==> Before(t, RestoreIndex(N0(n), sa[k]), RestoreIndex(N0(n), sa[l])))
  }

  // The rank of a sampled suffix, or 0 for the empty one.
  ghost function Rank(n: nat, rk: seq<nat>, p: nat): nat
    requires |rk| == N02(n) + 3
  {
    if Sampled(n, p) then IndexRoundTrip(n, p); rk[Index(n, p)] else 0
  }

  lemma RanksOrder(t: seq<nat>, rk: seq<nat>, sa: seq<nat>, p: nat, q: nat)
    requires Ranked(t, rk, sa)
    requires (Sampled(|t|, p) || p == |t|) && (Sampled(|t|, q) || q == |t|) && p <= |t| && q <= |t| && p != q
    ensures Rank(|t|, rk, p) < Rank(|t|, rk, q) <==> Before(t, p, q)
  {
    var n := |t|;
    Pigeonhole(sa, N02(n));
    if Sampled(n, p) {
      var k := Position(n, rk, sa, p);
      if Sampled(n, q) {
        var l := Position(n, rk, sa, q);
        if k < l {
        } else {
          BeforeAntisymmetric(t, q, p);
        }
      }
    } else {
      var l := Position(n, rk, sa, q);
    }
  }

  lemma Position(n: nat, rk: seq<nat>, sa: seq<nat>, p: nat) returns (k: nat)
    requires |rk| == N02(n) + 3 && |sa| == N02(n)
    requires forall x :: 0 <= x < N02(n) ==> x in sa
    requires forall k :: 0 <= k < |sa| ==> sa[k] < N02(n) && rk[sa[k]] == k + 1
    requires Sampled(n, p)
    ensures k < |sa| && RestoreIndex(N0(n), sa[k]) == p && Rank(n, rk, p) == k + 1
  {
    IndexRoundTrip(n, p);
    assert Index(n, p) in sa;
    k :| 0 <= k < |sa| && sa[k] == Index(n, p);
  }

  // The fake suffix, when there is one, is ranked first.
  lemma FakeIsFirst(t: seq<nat>, rk: seq<nat>, sa: seq<nat>, k: nat)
    requires Ranked(t, rk, sa) && Fake(|t|) <= k < |sa|
    ensures RestoreIndex(N0(|t|), sa[k]) < |t|
  {
    var n := |t|;
    var p := RestoreIndex(N0(n), sa[k]);
    Sizes(n);
    RestoreRoundTrip(n, sa[k]);
    if Fake(n) == 1 {
      assert Before(t, RestoreIndex(N0(n), sa[0]), p);
    }
  }

  // ----- The comparisons of the merge

  predicate Leq2(a1: nat, a2: nat, b1: nat, b2: nat) {
    if a1 != b1 then a1 < b1 else a2 <= b2
  }

  predicate Leq3(a1: nat, a2: nat, a3: nat, b1: nat, b2: nat, b3: nat) {
    if a1 != b1 then a1 < b1 else Leq2(a2, a3, b2, b3)
  }

  // One suffix =1|2 (mod 3), by its place in the sample, against one suffix =0 (mod 3).
  predicate SampleIsLeq(n: nat, s: seq<nat>, rk: seq<nat>, i: nat, p0: nat)
    requires |s| == n + 3 && |rk| == N02(n) + 3 && i < N02(n) && p0 < n && p0 % 3 == 0
  {
    var n0, p12 := N0(n), RestoreIndex(N0(n), i);
    RestoreRoundTrip(n, i);
    if InLeftHalf(n0, i) then Leq2(s[p12], rk[i + n0], s[p0], rk[p0 / 3])
    else Leq3(s[p12], s[p12 + 1], rk[i - n0 + 1], s[p0], s[p0 + 1], rk[p0 / 3 + n0])
  }

  lemma SampleIsLeqMeans(n: nat, s: seq<nat>, maxValue: nat, rk: seq<nat>, sa: seq<nat>, i: nat, p0: nat)
    requires Padded(s, n, maxValue) && Ranked(s[..n], rk, sa)
    requires i < N02(n) && RestoreIndex(N0(n), i) < n && p0 < n && p0 % 3 == 0
    ensures SampleIsLeq(n, s, rk, i, p0) <==> Before(s[..n], RestoreIndex(N0(n), i), p0)
  {
    RestoreRoundTrip(n, i);
    if InLeftHalf(N0(n), i) {
      OneAgainstZero(n, s, maxValue, rk, sa, RestoreIndex(N0(n), i), p0);
    } else {
      TwoAgainstZero(n, s, maxValue, rk, sa, RestoreIndex(N0(n), i), p0);
    }
  }

  lemma OneAgainstZero(n: nat, s: seq<nat>, maxValue: nat, rk: seq<nat>, sa: seq<nat>, p: nat, q: nat)
    requires Padded(s, n, maxValue) && Ranked(s[..n], rk, sa)
    requires p < n && p % 3 == 1 && q < n && q % 3 == 0 && p / 3 + N0(n) < |rk|
    ensures Leq2(s[p], rk[p / 3 + N0(n)], s[q], rk[q / 3]) <==> Before(s[..n], p, q)
  {
    if s[p] == s[q] {
      RankNextToOne(n, rk, p);
      RankNextToZero(n, rk, q);
      RanksCompare(s[..n], rk, sa, p + 1, q + 1);
    }
  }

  lemma TwoAgainstZero(n: nat, s: seq<nat>, maxValue: nat, rk: seq<nat>, sa: seq<nat>, p: nat, q: nat)
    requires Padded(s, n, maxValue) && Ranked(s[..n], rk, sa)
    requires p < n && p % 3 == 2 && q < n && q % 3 == 0 && q / 3 + N0(n) < |rk| && p / 3 + 1 < |rk|
    ensures Leq3(s[p], s[p + 1], rk[p / 3 + 1], s[q], s[q + 1], rk[q / 3 + N0(n)]) <==> Before(s[..n], p, q)
  {
    var t := s[..n];
    if s[p] == s[q] {
      assert Before(t, p, q) <==> Before(t, p + 1, q + 1);
      if s[p + 1] == s[q + 1] {
        assert p + 1 < n && q + 1 < n;
        assert Before(t, p + 1, q + 1) <==> Before(t, p + 2, q + 2);
        RankAfterTwo(n, rk, p);
        RankAfterZero(n, rk, q);
        RanksCompare(t, rk, sa, p + 2, q + 2);
      }
    }
  }

  // Ranks of different suffixes differ, so "at most" is "less".
  lemma RanksCompare(t: seq<nat>, rk: seq<nat>, sa: seq<nat>, p: nat, q: nat)
    requires Ranked(t, rk, sa)
    requires (Sampled(|t|, p) || p == |t|) && (Sampled(|t|, q) || q == |t|) && p <= |t| && q <= |t| && p != q
    ensures Rank(|t|, rk, p) <= Rank(|t|, rk, q) <==> Before(t, p, q)
  {
    RanksOrder(t, rk, sa, p, q);
    RanksOrder(t, rk, sa, q, p);
    BeforeTotal(t, p, q);
  }

  lemma RankNextToOne(n: nat, rk: seq<nat>, p: nat)
    requires |rk| == N02(n) + 3 && rk[N02(n)] == 0 && p < n && p % 3 == 1
    ensures rk[p / 3 + N0(n)] == Rank(n, rk, p + 1) && (Sampled(n, p + 1) || p + 1 == n)
  {
    if p + 1 == n {
      assert p / 3 + N0(n) == N02(n);
    }
  }

  lemma RankNextToZero(n: nat, rk: seq<nat>, p: nat)
    requires |rk| == N02(n) + 3 && p < n && p % 3 == 0
    ensures Sampled(n, p + 1) && rk[p / 3] == Rank(n, rk, p + 1)
  {
    Sizes(n);
  }

  lemma RankAfterTwo(n: nat, rk: seq<nat>, p: nat)
    requires |rk| == N02(n) + 3 && p + 1 < n && p % 3 == 2
    ensures Sampled(n, p + 2) && rk[p / 3 + 1] == Rank(n, rk, p + 2)
  {
    Sizes(n);
  }

  lemma RankAfterZero(n: nat, rk: seq<nat>, p: nat)
    requires |rk| == N02(n) + 3 && rk[N02(n)] == 0 && p + 1 < n && p % 3 == 0
    ensures rk[p / 3 + N0(n)] == Rank(n, rk, p + 2) && (Sampled(n, p + 2) || p + 2 == n)
  {
    if p + 2 == n {
      assert p / 3 + N0(n) == N02(n);
    }
  }
}
