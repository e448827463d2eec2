/**
 base::Skew: the suffix array of a byte string in linear time, by recursion on the string of names of
 the triples at the positions that 3 does not divide.
 */
module Skew {
  import opened SuffixOrder
  import opened SkewOrder
  import RadixSort

  // The k-th position that 3 does not divide.
  function SamplePosition(k: nat): nat {
    3 * (k / 2) + 1 + k % 2
  }

  lemma SamplePositions(n: nat)
    ensures forall k :: 0 <= k < N02(n) ==> Sampled(n, SamplePosition(k))
    ensures forall k, l :: 0 <= k < l < N02(n) ==> SamplePosition(k) != SamplePosition(l)
  {
    forall k | 0 <= k < N02(n)
      ensures Sampled(n, SamplePosition(k))
    {
      IsSamplePosition(n, k);
    }
    forall k, l | 0 <= k < l < N02(n)
      ensures SamplePosition(k) != SamplePosition(l)
    {
      SamplePositionsGrow(k, l);
    }
  }

  lemma IsSamplePosition(n: nat, k: nat)
    requires k < N02(n)
    ensures Sampled(n, SamplePosition(k))
  {
    var m, h := n / 3, k / 2;
    assert n == 3 * m + n % 3 && k == 2 * h + k % 2;
    assert N02(n) == if n % 3 == 0 then 2 * m else 2 * m + 1;
  }

  lemma SamplePositionsGrow(k: nat, l: nat)
    requires k < l
    ensures SamplePosition(k) < SamplePosition(l)
  {
    var h, j := k / 2, l / 2;
    assert k == 2 * h + k % 2 && l == 2 * j + l % 2;
    assert h <= j;
  }

  ghost predicate ZeroTail(a: seq<nat>, n: nat) {
    |a| == n + 3 && a[n] == 0 && a[n + 1] == 0 && a[n + 2] == 0
  }

  // All sampled positions, in the order of their triples.
  ghost predicate SortedSample(n: nat, s: seq<nat>, a: seq<nat>) {
    && |s| == n + 3 && |a| == N02(n) && Distinct(a)
    && (forall k :: 0 <= k < |a| ==> Sampled(n, a[k]) && a[k] <= n)
    && (forall k, l :: 0 <= k < l < |a| ==> TripleLess(s, a[k], a[l]) || TripleEqual(s, a[k], a[l]))
  }

  method FillSample(n: nat, s12: array<nat>)
    requires n >= 2 && ZeroTail(s12[..], N02(n))
    modifies s12
    ensures forall k :: 0 <= k < N02(n) ==> s12[k] == SamplePosition(k)
    ensures ZeroTail(s12[..], N02(n))
  {
    Sizes(n);
    var j := 0;
    for i := 0 to n + Fake(n)
      invariant j == 2 * (i / 3) + (if i % 3 == 2 then 1 else 0)
      invariant forall k :: 0 <= k < j ==> s12[k] == SamplePosition(k)
      invariant ZeroTail(s12[..], N02(n))
    {
      if i % 3 != 0 {
        assert i == SamplePosition(j);
        s12[j] := i;
        j := j + 1;
      }
    }
  }

  // Three stable passes, the last character first.
  method SortTriples(n: nat, maxValue: nat, s: seq<nat>, s12: array<nat>, sa12: array<nat>)
    requires n >= 2 && Padded(s, n, maxValue)
    requires s12 != sa12 && ZeroTail(s12[..], N02(n)) && sa12.Length == N02(n) + 3
    requires forall k :: 0 <= k < N02(n) ==> s12[k] == SamplePosition(k)
    modifies s12, sa12
    ensures SortedSample(n, s, sa12[..N02(n)])
    ensures ZeroTail(s12[..], N02(n))
  {
    var n02 := N02(n);
    SamplePositions(n);
    Sizes(n);
    ghost var k0 := s12[..n02];
    PassFits(n, maxValue, s, k0, 2);
    ghost var src1 := RadixSort.Sort(n02, s12, maxValue + 1, s[2..], sa12);
    ghost var k1 := sa12[..n02];
    PassOver(n, k0, s[2..], src1, k1);
    PassFits(n, maxValue, s, k1, 1);
    ghost var src2 := RadixSort.Sort(n02, sa12, maxValue + 1, s[1..], s12);
    ghost var k2 := s12[..n02];
    PassOver(n, k1, s[1..], src2, k2);
    PassFits(n, maxValue, s, k2, 0);
    ghost var src3 := RadixSort.Sort(n02, s12, maxValue + 1, s, sa12);
    ghost var k3 := sa12[..n02];
    ThreePasses(n, s, k0, src1, k1, src2, k2, src3, k3);
  }

  ghost predicate SampleKeys(n: nat, keys: seq<nat>) {
    |keys| == N02(n) && Distinct(keys) && forall k :: 0 <= k < |keys| ==> Sampled(n, keys[k]) && keys[k] <= n
  }

  lemma PassFits(n: nat, maxValue: nat, s: seq<nat>, keys: seq<nat>, d: nat)
    requires Padded(s, n, maxValue) && SampleKeys(n, keys) && d <= 2
    ensures RadixSort.KeysFit(keys, s[d..], maxValue + 1)
    ensures s[0..] == s
  {
  }

  lemma PassOver(n: nat, before: seq<nat>, values: seq<nat>, src: seq<nat>, after: seq<nat>)
    requires SampleKeys(n, before) && RadixSort.StableSorted(after, before, values, src)
    ensures SampleKeys(n, after)
  {
    forall k, l | 0 <= k < l < |after|
      ensures after[k] != after[l]
    {
      var i, j := src[k], src[l];
      assert i != j;
      if i < j {
        assert before[i] != before[j];
      } else {
        assert before[j] != before[i];
      }
    }
  }

  lemma ThreePasses(n: nat, s: seq<nat>, k0: seq<nat>, src1: seq<nat>, k1: seq<nat>, src2: seq<nat>, k2: seq<nat>,
                    src3: seq<nat>, k3: seq<nat>)
    requires |s| == n + 3 && SampleKeys(n, k0)
    requires RadixSort.StableSorted(k1, k0, s[2..], src1)
    requires RadixSort.StableSorted(k2, k1, s[1..], src2)
    requires RadixSort.StableSorted(k3, k2, s, src3)
    ensures SortedSample(n, s, k3)
  {
    PassOver(n, k0, s[2..], src1, k1);
    PassOver(n, k1, s[1..], src2, k2);
    PassOver(n, k2, s, src3, k3);
    forall k, l | 0 <= k < l < |k3|
      ensures TripleLess(s, k3[k], k3[l]) || TripleEqual(s, k3[k], k3[l])
    {
      var k', l' := src3[k], src3[l];
      if s[k3[k]] == s[k3[l]] {
        assert k2[k'] == k3[k] && k2[l'] == k3[l] && k' < l';
        assert s[1..][k2[k']] == s[k3[k] + 1] && s[1..][k2[l']] == s[k3[l] + 1];
        var k'', l'' := src2[k'], src2[l'];
        if s[k3[k] + 1] == s[k3[l] + 1] {
          assert k1[k''] == k3[k] && k1[l''] == k3[l] && k'' < l'';
          assert s[2..][k1[k'']] == s[k3[k] + 2] && s[2..][k1[l'']] == s[k3[l] + 2];
        }
      }
    }
  }

  // The names given so far: they rise exactly where the triple changes.
  ghost predicate NamedUpto(n: nat, s: seq<nat>, a: seq<nat>, nm: seq<nat>, name: nat) {
    && SortedSample(n, s, a) && |nm| <= |a| && name <= |nm|
    && (nm == [] <==> name == 0) && (nm != [] ==> nm[|nm| - 1] == name)
    && (forall k :: 0 <= k < |nm| ==> 0 < nm[k] <= name)
    && (forall k, l :: 0 <= k < l < |nm| ==> nm[k] <= nm[l] && (nm[k] == nm[l] <==> TripleEqual(s, a[k], a[l])))
    && (name == |nm| ==> forall k, l :: 0 <= k < l < |nm| ==> nm[k] < nm[l])
  }

  lemma NoNames(n: nat, s: seq<nat>, a: seq<nat>, r: seq<nat>)
    requires SortedSample(n, s, a)
    ensures NamedUpto(n, s, a, [], 0) && Written(n, a, [], r)
  {
  }

  lemma NameNext(n: nat, s: seq<nat>, a: seq<nat>, nm: seq<nat>, name: nat, name': nat)
    requires NamedUpto(n, s, a, nm, name) && |nm| < |a|
    requires name' == if nm != [] && TripleEqual(s, a[|nm| - 1], a[|nm|]) then name else name + 1
    ensures NamedUpto(n, s, a, nm + [name'], name')
  {
    var i := |nm|;
    if i > 0 {
      forall k | 0 <= k < i
        ensures nm[k] == name' <==> TripleEqual(s, a[k], a[i])
      {
        if k < i - 1 {
          assert nm[k] == nm[i - 1] <==> TripleEqual(s, a[k], a[i - 1]);
          assert TripleLess(s, a[k], a[i - 1]) || TripleEqual(s, a[k], a[i - 1]);
        }
        assert TripleLess(s, a[i - 1], a[i]) || TripleEqual(s, a[i - 1], a[i]);
      }
    }
  }

  method NameTriples(n: nat, s: seq<nat>, s12: array<nat>, sa12: array<nat>) returns (name: nat)
    requires n >= 2 && s12 != sa12 && ZeroTail(s12[..], N02(n)) && sa12.Length == N02(n) + 3
    requires SortedSample(n, s, sa12[..N02(n)])
    modifies s12
    ensures Names(s, n, s12[..N02(n)], name) && name <= N02(n)
    ensures name == N02(n) ==> Distinct(s12[..N02(n)])
    ensures ZeroTail(s12[..], N02(n))
  {
    hide Before, TripleLess, Sampled, Index, NamedUpto, Written;
    var n02 := N02(n);
    ghost var a := sa12[..n02];
    ghost var nm: seq<nat> := [];
    name := 0;
    NoNames(n, s, a, s12[..]);
    // no character is equal to the invalid ones
    var c0: int, c1: int, c2: int := -1, -1, -1;
    for i := 0 to n02
      invariant sa12[..n02] == a && |nm| == i && NamedUpto(n, s, a, nm, name)
      invariant if i == 0 then c0 == c1 == c2 == -1 else IsTriple(s, a[i - 1], c0, c1, c2)
      invariant Written(n, a, nm, s12[..])
      invariant ZeroTail(s12[..], n02)
    {
      var pos := sa12[i];
      assert pos == a[i];
      ghost var before := name;
      if s[pos] != c0 || s[pos + 1] != c1 || s[pos + 2] != c2 {
        c0, c1, c2 := s[pos], s[pos + 1], s[pos + 2];
        name := name + 1;
      }
      NameNext(n, s, a, nm, before, name);
      WriteNext(n, a, nm, s12[..], name);
      nm := nm + [name];
      WriteName(n, s12, pos, name);
    }
    FinishNames(n, s, a, nm, name, s12[..]);
  }

  lemma FinishNames(n: nat, s: seq<nat>, a: seq<nat>, nm: seq<nat>, name: nat, r: seq<nat>)
    requires NamedUpto(n, s, a, nm, name) && |nm| == |a| <= |r| && Written(n, a, nm, r)
    ensures Names(s, n, r[..N02(n)], name) && name <= N02(n)
    ensures name == N02(n) ==> Distinct(r[..N02(n)])
  {
    var r' := r[..N02(n)];
    forall k | 0 <= k < |nm|
      ensures Index(n, a[k]) < |r'| && r'[Index(n, a[k])] == nm[k]
    {
      IndexRoundTrip(n, a[k]);
    }
    NamesInPlace(n, s, a, nm, name, r');
  }

  // All =1 (mod 3) positions go to the left part, all =2 (mod 3) positions to the right part.
  method WriteName(n: nat, s12: array<nat>, pos: nat, name: nat)
    requires Sampled(n, pos) && s12.Length == N02(n) + 3
    modifies s12
    ensures Index(n, pos) < N02(n) && s12[..] == old(s12[..])[Index(n, pos) := name]
  {
    IndexRoundTrip(n, pos);
    if pos % 3 == 1 {
      s12[pos / 3] := name;
    } else {
      s12[pos / 3 + N0(n)] := name;
    }
  }

  ghost predicate IsTriple(s: seq<nat>, p: nat, c0: int, c1: int, c2: int) {
    p + 2 < |s| && c0 == s[p] && c1 == s[p + 1] && c2 == s[p + 2]
  }

  // The names given so far are where they belong.
  ghost predicate Written(n: nat, a: seq<nat>, nm: seq<nat>, r: seq<nat>) {
    |nm| <= |a| && forall k :: 0 <= k < |nm| ==> Index(n, a[k]) < |r| && r[Index(n, a[k])] == nm[k]
  }

  lemma WriteNext(n: nat, a: seq<nat>, nm: seq<nat>, r: seq<nat>, name: nat)
    requires N02(n) == |a| <= |r| && Distinct(a) && forall k :: 0 <= k < |a| ==> Sampled(n, a[k])
    requires |nm| < |a| && Written(n, a, nm, r)
    ensures Index(n, a[|nm|]) < |r|
    ensures Written(n, a, nm + [name], r[Index(n, a[|nm|]) := name])
  {
    IndexRoundTrip(n, a[|nm|]);
    DistinctIndices(n, a, |nm|);
  }

  lemma DistinctIndices(n: nat, a: seq<nat>, i: nat)
    requires i < |a| && Distinct(a) && forall k :: 0 <= k < |a| ==> Sampled(n, a[k])
    ensures forall k :: 0 <= k < i ==> Index(n, a[k]) != Index(n, a[i])
  {
    forall k | 0 <= k < i
      ensures Index(n, a[k]) != Index(n, a[i])
    {
      if Index(n, a[k]) == Index(n, a[i]) {
        IndexInjective(n, a[k], a[i]);
      }
    }
  }

  ghost function SamplePlaces(n: nat, a: seq<nat>): (r: seq<nat>)
    ensures |r| == |a| && forall k :: 0 <= k < |a| ==> r[k] == Index(n, a[k])
  {
    seq(|a|, k requires 0 <= k < |a| => Index(n, a[k]))
  }

  // Every place of the string of names is written.
  lemma AllPlaces(n: nat, s: seq<nat>, a: seq<nat>)
    requires SortedSample(n, s, a)
    ensures forall x :: 0 <= x < |a| ==> x in SamplePlaces(n, a)
  {
    var places := SamplePlaces(n, a);
    forall k, l | 0 <= k < l < |a|
      ensures places[k] != places[l]
    {
      DistinctIndices(n, a, l);
    }
    forall k | 0 <= k < |a|
      ensures places[k] < |a|
    {
      IndexRoundTrip(n, a[k]);
    }
    Pigeonhole(places, |a|);
  }

  lemma NamesPositive(n: nat, s: seq<nat>, a: seq<nat>, nm: seq<nat>, name: nat, r: seq<nat>)
    requires NamedUpto(n, s, a, nm, name) && |nm| == |a| == |r| && Written(n, a, nm, r)
    ensures forall i :: 0 <= i < |r| ==> 0 < r[i] <= name
  {
    AllPlaces(n, s, a);
    forall i | 0 <= i < |r|
      ensures 0 < r[i] <= name
    {
      var k := ListedAt(n, a, i);
    }
  }

  lemma NamesDistinct(n: nat, s: seq<nat>, a: seq<nat>, nm: seq<nat>, name: nat, r: seq<nat>)
    requires NamedUpto(n, s, a, nm, name) && name == |nm| == |a| == |r| && Written(n, a, nm, r)
    ensures Distinct(r)
  {
    AllPlaces(n, s, a);
    forall i, j | 0 <= i < j < |r|
      ensures r[i] != r[j]
    {
      var k := ListedAt(n, a, i);
      var l := ListedAt(n, a, j);
      assert nm[k] != nm[l];
    }
  }

  lemma ListedAt(n: nat, a: seq<nat>, i: nat) returns (k: nat)
    requires i in SamplePlaces(n, a)
    ensures k < |a| && Index(n, a[k]) == i
  {
    k :| 0 <= k < |a| && SamplePlaces(n, a)[k] == i;
  }

  lemma NamesInPlace(n: nat, s: seq<nat>, a: seq<nat>, nm: seq<nat>, name: nat, r: seq<nat>)
    requires NamedUpto(n, s, a, nm, name) && |nm| == |a| == |r| && Written(n, a, nm, r)
    ensures Names(s, n, r, name)
    ensures name == |r| ==> Distinct(r)
  {
    NamesPositive(n, s, a, nm, name, r);
    if name == |r| {
      NamesDistinct(n, s, a, nm, name, r);
    }
    AllPlaces(n, s, a);
    forall p: nat, q: nat | Sampled(n, p) && Sampled(n, q)
      ensures Index(n, p) < |r| && Index(n, q) < |r| && p <= n && q <= n
      ensures r[Index(n, p)] < r[Index(n, q)] <==> TripleLess(s, p, q)
    {
      var k := WhereListed(n, a, p);
      var l := WhereListed(n, a, q);
      NamesCompare(n, s, a, nm, name, k, l);
    }
  }

  lemma NamesCompare(n: nat, s: seq<nat>, a: seq<nat>, nm: seq<nat>, name: nat, k: nat, l: nat)
    requires NamedUpto(n, s, a, nm, name) && k < |nm| && l < |nm|
    ensures nm[k] < nm[l] <==> TripleLess(s, a[k], a[l])
  {
    if k < l {
      assert TripleLess(s, a[k], a[l]) || TripleEqual(s, a[k], a[l]);
      assert nm[k] == nm[l] <==> TripleEqual(s, a[k], a[l]);
    } else if l < k {
      assert TripleLess(s, a[l], a[k]) || TripleEqual(s, a[l], a[k]);
      assert nm[l] <= nm[k];
    }
  }

  lemma WhereListed(n: nat, a: seq<nat>, p: nat) returns (k: nat)
    requires Sampled(n, p) && |a| == N02(n)
    requires forall k :: 0 <= k < |a| ==> Sampled(n, a[k])
    requires forall x :: 0 <= x < |a| ==> x in SamplePlaces(n, a)
    ensures k < |a| && a[k] == p && p <= n && Index(n, p) < |a|
  {
    IndexRoundTrip(n, p);
    k := ListedAt(n, a, Index(n, p));
    IndexInjective(n, a[k], p);
  }

  // ----- Ranks

  // The names, sorted as a string of their own, rank all sampled suffixes of the text.
  lemma RankedByNames(n: nat, s: seq<nat>, maxValue: nat, r: seq<nat>, name: nat, sa: seq<nat>, rk: seq<nat>)
    requires Padded(s, n, maxValue) && Names(s, n, r, name) && IsSuffixArray(r, sa)
    requires ZeroTail(rk, N02(n)) && forall k :: 0 <= k < |sa| ==> rk[sa[k]] == k + 1
    ensures Ranked(s[..n], rk, sa)
  {
    SuffixArrayIsPermutation(r, sa);
    forall k | 0 <= k < |sa|
      ensures RestoreIndex(N0(n), sa[k]) <= n
    {
      RestoreRoundTrip(n, sa[k]);
      Sizes(n);
    }
    forall k, l | 0 <= k < l < |sa|
      ensures Before(s[..n], RestoreIndex(N0(n), sa[k]), RestoreIndex(N0(n), sa[l]))
    {
      RestoreRoundTrip(n, sa[k]);
      RestoreRoundTrip(n, sa[l]);
      assert sa[k] != sa[l];
      NamesKeepOrder(s, n, maxValue, r, name, RestoreIndex(N0(n), sa[k]), RestoreIndex(N0(n), sa[l]));
    }
  }

  // Distinct names are their own ranks.
  lemma DistinctNamesSort(n: nat, r: seq<nat>, sa: seq<nat>)
    requires |r| == |sa| == n && Distinct(r) && forall i :: 0 <= i < n ==> 0 < r[i] <= n
    requires forall i :: 0 <= i < n ==> sa[r[i] - 1] == i
    ensures IsSuffixArray(r, sa)
    ensures forall k :: 0 <= k < n ==> sa[k] < n && r[sa[k]] == k + 1
  {
    var r' := seq(n, i requires 0 <= i < n => r[i] - 1);
    Pigeonhole(r', n);
    forall k | 0 <= k < n
      ensures sa[k] < n && r[sa[k]] == k + 1
    {
      assert k in r';
      var i :| 0 <= i < n && r'[i] == k;
    }
  }

  // Writes the ranks over the names.
  method WriteRanks(n02: nat, s12: array<nat>, sa12: array<nat>)
    requires s12 != sa12 && ZeroTail(s12[..], n02) && n02 <= sa12.Length && IsPermutation(sa12[..n02], n02)
    modifies s12
    ensures ZeroTail(s12[..], n02)
    ensures forall k :: 0 <= k < n02 ==> s12[sa12[k]] == k + 1
  {
    ghost var sa := sa12[..n02];
    for i := 0 to n02
      invariant sa12[..n02] == sa && ZeroTail(s12[..], n02)
      invariant forall k :: 0 <= k < i ==> s12[sa[k]] == k + 1
    {
      assert sa12[i] == sa[i];
      s12[sa12[i]] := i + 1;
    }
  }

  method SortUniqueNames(n02: nat, s12: array<nat>, sa12: array<nat>)
    requires s12 != sa12 && n02 <= s12.Length && n02 <= sa12.Length && Distinct(s12[..n02])
    requires forall i :: 0 <= i < n02 ==> 0 < s12[i] <= n02
    modifies sa12
    ensures forall i :: 0 <= i < n02 ==> sa12[s12[i] - 1] == i
  {
    ghost var r := s12[..n02];
    for i := 0 to n02
      invariant s12[..n02] == r
      invariant forall k :: 0 <= k < i ==> sa12[r[k] - 1] == k
    {
      assert s12[i] == r[i];
      sa12[s12[i] - 1] := i;
    }
  }

  // ----- The suffixes =0 (mod 3)

  // All positions =0 (mod 3), in the order of the suffixes one further on.
  ghost predicate Presorted(t: seq<nat>, a: seq<nat>) {
    && |a| == N0(|t|) && Distinct(a)
    && (forall k :: 0 <= k < |a| ==> a[k] < |t| && a[k] % 3 == 0)
    && (forall k, l :: 0 <= k < l < |a| ==> Before(t, a[k] + 1, a[l] + 1))
  }

  ghost predicate ZeroSorted(t: seq<nat>, a: seq<nat>) {
    && |a| == N0(|t|)
    && (forall k :: 0 <= k < |a| ==> a[k] < |t| && a[k] % 3 == 0)
    && (forall k, l :: 0 <= k < l < |a| ==> Before(t, a[k], a[l]))
  }

  // The entries of a below n0, in their order.
  ghost predicate Selected(a: seq<nat>, i: nat, n0: nat, sel: seq<nat>, at: seq<nat>) {
    && i <= |a| && |at| == |sel|
    && (forall k :: 0 <= k < |sel| ==> at[k] < i && sel[k] == a[at[k]] && sel[k] < n0)
    && (forall k, l :: 0 <= k < l < |sel| ==> at[k] < at[l])
    && (forall h :: 0 <= h < i && a[h] < n0 ==> a[h] in sel)
  }

  lemma SelectNext(a: seq<nat>, i: nat, n0: nat, sel: seq<nat>, at: seq<nat>)
    requires Selected(a, i, n0, sel, at) && i < |a| && Distinct(a)
    ensures a[i] < n0 ==> Selected(a, i + 1, n0, sel + [a[i]], at + [i]) && |sel| < n0
    ensures a[i] >= n0 ==> Selected(a, i + 1, n0, sel, at)
  {
    if a[i] < n0 {
      var sel' := sel + [a[i]];
      SelectedDistinct(a, i, n0, sel, at);
      assert forall k :: 0 <= k < |sel| ==> a[at[k]] != a[i];
      Pigeonhole(sel', n0);
    }
  }

  lemma SelectedDistinct(a: seq<nat>, i: nat, n0: nat, sel: seq<nat>, at: seq<nat>)
    requires Selected(a, i, n0, sel, at) && Distinct(a)
    ensures Distinct(sel)
  {
    forall k, l | 0 <= k < l < |sel|
      ensures sel[k] != sel[l]
    {
      assert a[at[k]] != a[at[l]];
    }
  }

  lemma NothingSelected(t: seq<nat>, rk: seq<nat>, a: seq<nat>, n0: nat)
    requires Ranked(t, rk, a)
    ensures Distinct(a) && Selected(a, 0, n0, [], [])
  {
  }

  method SelectZero(n: nat, ghost t: seq<nat>, ghost rk: seq<nat>, sa12: array<nat>, s0: array<nat>)
    requires n == |t| && sa12.Length == N02(n) + 3 && Ranked(t, rk, sa12[..N02(n)])
    requires s0 != sa12 && s0.Length == N0(n)
    modifies s0
    ensures Presorted(t, s0[..])
  {
    hide Selected, Presorted, Ranked, Distinct;
    var n02, n0 := N02(n), N0(n);
    ghost var a := sa12[..n02];
    NothingSelected(t, rk, a, n0);
    ghost var sel: seq<nat>, at: seq<nat> := [], [];
    var j := 0;
    for i := 0 to n02
      invariant sa12[..n02] == a && Selected(a, i, n0, sel, at) && j == |sel| <= n0
      invariant forall k :: 0 <= k < j ==> s0[k] == 3 * sel[k]
    {
      assert sa12[i] == a[i];
      SelectNext(a, i, n0, sel, at);
      if sa12[i] < n0 {
        s0[j] := 3 * sa12[i];
        j := j + 1;
        sel, at := sel + [a[i]], at + [i];
      }
    }
    AllSelected(t, rk, a, sel, at);
    assert s0[..] == seq(n0, k requires 0 <= k < n0 => 3 * sel[k]);
  }

  lemma AllSelected(t: seq<nat>, rk: seq<nat>, a: seq<nat>, sel: seq<nat>, at: seq<nat>)
    requires Ranked(t, rk, a) && Selected(a, |a|, N0(|t|), sel, at)
    ensures |sel| == N0(|t|)
    ensures Presorted(t, seq(|sel|, k requires 0 <= k < |sel| => 3 * sel[k]))
  {
    hide Before, RestoreIndex, N0, N02;
    SampleHasLeft(|t|);
    SelectedDistinct(a, |a|, N0(|t|), sel, at);
    SelectedAll(a, N0(|t|), sel, at);
    SelectedInOrder(t, rk, a, sel, at);
  }

  lemma SampleHasLeft(n: nat)
    ensures N0(n) <= N02(n)
  {
  }

  lemma SelectedAll(a: seq<nat>, n0: nat, sel: seq<nat>, at: seq<nat>)
    requires IsPermutation(a, |a|) && n0 <= |a| && Selected(a, |a|, n0, sel, at) && Distinct(sel)
    ensures |sel| == n0
  {
    Pigeonhole(a, |a|);
    forall x | 0 <= x < n0
      ensures x in sel
    {
      assert x in a;
      var h :| 0 <= h < |a| && a[h] == x;
    }
    CoverSize(sel, n0);
  }

  lemma SelectedInOrder(t: seq<nat>, rk: seq<nat>, a: seq<nat>, sel: seq<nat>, at: seq<nat>)
    requires Ranked(t, rk, a) && Selected(a, |a|, N0(|t|), sel, at)
    ensures forall k :: 0 <= k < |sel| ==> 3 * sel[k] < |t|
    ensures forall k, l :: 0 <= k < l < |sel| ==> Before(t, 3 * sel[k] + 1, 3 * sel[l] + 1)
  {
    hide Before, N0, N02, RestoreIndex;
    forall k | 0 <= k < |sel|
      ensures RestoreIndex(N0(|t|), a[at[k]]) == 3 * sel[k] + 1 && 3 * sel[k] < |t|
    {
      LeftHalf(|t|, sel[k]);
    }
  }

  lemma LeftHalf(n: nat, x: nat)
    requires x < N0(n)
    ensures RestoreIndex(N0(n), x) == 3 * x + 1 && 3 * x < n
  {
  }

  // A stable sort by the first character completes the order.
  lemma CompleteZero(t: seq<nat>, s: seq<nat>, maxValue: nat, before: seq<nat>, src: seq<nat>, after: seq<nat>)
    requires Padded(s, |t|, maxValue) && t == s[..|t|]
    requires Presorted(t, before) && RadixSort.StableSorted(after, before, s, src)
    ensures ZeroSorted(t, after)
  {
    forall k, l | 0 <= k < l < |after|
      ensures Before(t, after[k], after[l])
    {
      var i, j := src[k], src[l];
      assert after[k] == before[i] && after[l] == before[j];
      assert s[after[k]] == t[after[k]] && s[after[l]] == t[after[l]];
    }
  }

  // ----- The merge

  // The first k places of sa hold sorted suffixes, all of them before the ones that are still to
  // come from a, from i on, and from b, from j on.
  ghost predicate Merging(t: seq<nat>, sa: seq<nat>, k: nat, a: seq<nat>, i: nat, b: seq<nat>, j: nat) {
    && k <= |sa| && i <= |a| && j <= |b| && k == i + j
    && Suffixes(t, sa[..k]) && Suffixes(t, a) && Suffixes(t, b)
    && (forall x, y :: 0 <= x < k && i <= y < |a| ==> Before(t, sa[x], a[y]))
    && (forall x, y :: 0 <= x < k && j <= y < |b| ==> Before(t, sa[x], b[y]))
  }

  // Non-empty suffixes of t, each strictly before the next.
  ghost predicate Suffixes(t: seq<nat>, a: seq<nat>) {
    && (forall x :: 0 <= x < |a| ==> a[x] < |t|)
    && (forall x, y :: 0 <= x < y < |a| ==> Before(t, a[x], a[y]))
  }

  lemma PushSuffix(t: seq<nat>, a: seq<nat>, p: nat)
    requires Suffixes(t, a) && p < |t| && forall x :: 0 <= x < |a| ==> Before(t, a[x], p)
    ensures Suffixes(t, a + [p])
  {
    hide Before;
  }

  lemma MergeLeft(t: seq<nat>, sa: seq<nat>, k: nat, a: seq<nat>, i: nat, b: seq<nat>, j: nat)
    requires Merging(t, sa, k, a, i, b, j) && k < |sa| && i < |a|
    requires j < |b| ==> Before(t, a[i], b[j])
    ensures Merging(t, sa[k := a[i]], k + 1, a, i + 1, b, j)
  {
    hide Before;
    PushSuffix(t, sa[..k], a[i]);
    assert sa[k := a[i]][..k + 1] == sa[..k] + [a[i]];
    forall y | j <= y < |b|
      ensures Before(t, a[i], b[y])
    {
      if y > j {
        BeforeTransitive(t, a[i], b[j], b[y]);
      }
    }
  }

  lemma MergeRight(t: seq<nat>, sa: seq<nat>, k: nat, a: seq<nat>, i: nat, b: seq<nat>, j: nat)
    requires Merging(t, sa, k, a, i, b, j) && k < |sa| && j < |b|
    requires i < |a| ==> Before(t, b[j], a[i])
    ensures Merging(t, sa[k := b[j]], k + 1, a, i, b, j + 1)
  {
    hide Before;
    PushSuffix(t, sa[..k], b[j]);
    assert sa[k := b[j]][..k + 1] == sa[..k] + [b[j]];
    forall y | i <= y < |a|
      ensures Before(t, b[j], a[y])
    {
      if y > i {
        BeforeTransitive(t, b[j], a[i], a[y]);
      }
    }
  }

  // The real suffixes =1|2 (mod 3), without the fake one.
  ghost function SampleSuffixes(n: nat, sa12: seq<nat>): (r: seq<nat>)
    requires |sa12| == N02(n)
    ensures |r| == N02(n) - Fake(n)
    ensures forall k :: 0 <= k < |r| ==> r[k] == RestoreIndex(N0(n), sa12[k + Fake(n)])
  {
    seq<nat>(N02(n) - Fake(n), k requires 0 <= k < N02(n) - Fake(n) => RestoreIndex(N0(n), sa12[k + Fake(n)]))
  }

  lemma SampleIsSorted(t: seq<nat>, rk: seq<nat>, sa12: seq<nat>)
    requires Ranked(t, rk, sa12)
    ensures Suffixes(t, SampleSuffixes(|t|, sa12))
  {
    hide Before;
    var a := SampleSuffixes(|t|, sa12);
    forall k | 0 <= k < |a|
      ensures a[k] < |t|
    {
      FakeIsFirst(t, rk, sa12, k + Fake(|t|));
    }
  }

  lemma NextOfSample(n: nat, sa12: seq<nat>, i12: nat)
    requires |sa12| == N02(n) && Fake(n) <= i12 < |sa12|
    ensures SampleSuffixes(n, sa12)[i12 - Fake(n)] == RestoreIndex(N0(n), sa12[i12])
  {
  }

  lemma ByComparison(n: nat, maxValue: nat, s: seq<nat>, rk: seq<nat>, sa12: seq<nat>, i12: nat, p0: nat)
    requires Padded(s, n, maxValue) && Ranked(s[..n], rk, sa12)
    requires Fake(n) <= i12 < |sa12| && p0 < n && p0 % 3 == 0
    ensures var p12 := RestoreIndex(N0(n), sa12[i12]);
            && p12 < n
            && if SampleIsLeq(n, s, rk, sa12[i12], p0) then Before(s[..n], p12, p0) else Before(s[..n], p0, p12)
  {
    hide Before, SampleIsLeq;
    FakeIsFirst(s[..n], rk, sa12, i12);
    SampleIsLeqMeans(n, s, maxValue, rk, sa12, sa12[i12], p0);
    RestoreRoundTrip(n, sa12[i12]);
    BeforeTotal(s[..n], RestoreIndex(N0(n), sa12[i12]), p0);
  }

  // One step of the merge: the smaller of the two next suffixes.
  method TakeLess(n: nat, ghost maxValue: nat, s: seq<nat>, s12: seq<nat>, sa12: seq<nat>, sa0: seq<nat>, sa: array<nat>,
                  k: nat, i12: nat, i0: nat, ghost a: seq<nat>)
    returns (k': nat, i12': nat, i0': nat)
    requires Padded(s, n, maxValue) && Ranked(s[..n], s12, sa12) && ZeroSorted(s[..n], sa0) && n <= sa.Length
    requires a == SampleSuffixes(n, sa12) && Fake(n) <= i12 < |sa12| && i0 < |sa0| && k < n
    requires Merging(s[..n], sa[..n], k, a, i12 - Fake(n), sa0, i0)
    modifies sa
    ensures k' == k + 1 && i12' >= i12 && i0' >= i0 && i12' + i0' == i12 + i0 + 1
    ensures Merging(s[..n], sa[..n], k', a, i12' - Fake(n), sa0, i0')
    ensures sa[n..] == old(sa[n..])
  {
    hide Before, SampleIsLeq, RestoreIndex, Merging, SampleSuffixes, N0, N02, Fake;
    ByComparison(n, maxValue, s, s12, sa12, i12, sa0[i0]);
    NextOfSample(n, sa12, i12);
    var p0, p12 := sa0[i0], RestoreIndex(N0(n), sa12[i12]);
    var isLeq := SampleIsLeq(n, s, s12, sa12[i12], p0);
    ghost var before := sa[..n];
    if isLeq {
      MergeLeft(s[..n], before, k, a, i12 - Fake(n), sa0, i0);
      sa[k] := p12;
      assert sa[..n] == before[k := p12];
      k', i12', i0' := k + 1, i12 + 1, i0;
    } else {
      MergeRight(s[..n], before, k, a, i12 - Fake(n), sa0, i0);
      sa[k] := p0;
      assert sa[..n] == before[k := p0];
      k', i12', i0' := k + 1, i12, i0 + 1;
    }
  }

  method Merge(n: nat, maxValue: nat, s: seq<nat>, s12: seq<nat>, sa12: seq<nat>, sa0: seq<nat>, sa: array<nat>)
    requires Padded(s, n, maxValue) && Ranked(s[..n], s12, sa12) && ZeroSorted(s[..n], sa0) && n <= sa.Length
    modifies sa
    ensures IsSuffixArray(s[..n], sa[..n])
    ensures sa[n..] == old(sa[n..])
  {
    hide Before, SampleIsLeq, RestoreIndex;
    ghost var t, a := s[..n], SampleSuffixes(n, sa12);
    MergeBegins(t, s12, sa12, sa0, sa[..n]);
    var n0, n02 := N0(n), N02(n);
    var i0, i12, k := 0, Fake(n), 0;
    while i12 != n02 && i0 != n0
      invariant Fake(n) <= i12 <= n02 && k + Fake(n) == i12 + i0 && i0 <= n0
      invariant Merging(t, sa[..n], k, a, i12 - Fake(n), sa0, i0)
      invariant sa[n..] == old(sa[n..])
      decreases n02 - i12 + n0 - i0
    {
      k, i12, i0 := TakeLess(n, maxValue, s, s12, sa12, sa0, sa, k, i12, i0, a);
    }
    k, i12 := DrainSample(n, sa, k, sa12, i12, sa0, i0, t, a);
    k, i0 := DrainZero(n, sa, k, sa0, i0, t, a);
    Merged(t, sa[..n], k, a, sa0);
  }

  lemma MergeBegins(t: seq<nat>, rk: seq<nat>, sa12: seq<nat>, sa0: seq<nat>, sa: seq<nat>)
    requires Ranked(t, rk, sa12) && ZeroSorted(t, sa0)
    ensures |sa12| == N02(|t|) && |sa0| == N0(|t|) && |sa12| - Fake(|t|) + |sa0| == |t| && Fake(|t|) <= |sa12|
    ensures Merging(t, sa, 0, SampleSuffixes(|t|, sa12), 0, sa0, 0)
  {
    hide Before, N0, N1, N2, Fake, RestoreIndex;
    Sizes(|t|);
    SampleIsSorted(t, rk, sa12);
  }

  lemma Merged(t: seq<nat>, sa: seq<nat>, k: nat, a: seq<nat>, b: seq<nat>)
    requires |a| + |b| == |sa| == |t| && Merging(t, sa, k, a, |a|, b, |b|)
    ensures IsSuffixArray(t, sa)
  {
    hide Before;
    assert sa[..k] == sa;
  }

  // What is left of the sample when the other input is used up.
  method DrainSample(n: nat, sa: array<nat>, k0: nat, sa12: seq<nat>, i: nat, sa0: seq<nat>, i0: nat,
                     ghost t: seq<nat>, ghost a: seq<nat>)
    returns (k: nat, i12: nat)
    requires n == |t| <= sa.Length && |sa12| == N02(n) && |sa0| == N0(n) && a == SampleSuffixes(n, sa12)
    requires |a| + |sa0| == n && Fake(n) <= i <= |sa12| && (i < |sa12| ==> i0 == |sa0|)
    requires Merging(t, sa[..n], k0, a, i - Fake(n), sa0, i0)
    modifies sa
    ensures i12 == |sa12| && Merging(t, sa[..n], k, a, |a|, sa0, i0)
    ensures sa[n..] == old(sa[n..])
  {
    hide Before, RestoreIndex, Suffixes, SampleSuffixes, N0, N02, Fake;
    k, i12 := k0, i;
    while i12 != |sa12|
      invariant Fake(n) <= i12 <= |sa12| && (i12 < |sa12| ==> i0 == |sa0|)
      invariant Merging(t, sa[..n], k, a, i12 - Fake(n), sa0, i0)
      invariant sa[n..] == old(sa[n..])
      decreases |sa12| - i12
    {
      ghost var before := sa[..n];
      NextOfSample(n, sa12, i12);
      MergeLeft(t, before, k, a, i12 - Fake(n), sa0, i0);
      sa[k] := RestoreIndex(N0(n), sa12[i12]);
      assert sa[..n] == before[k := sa[k]];
      k, i12 := k + 1, i12 + 1;
    }
  }

  method DrainZero(n: nat, sa: array<nat>, k0: nat, sa0: seq<nat>, i: nat, ghost t: seq<nat>, ghost a: seq<nat>)
    returns (k: nat, i0: nat)
    requires n == |t| <= sa.Length && |a| + |sa0| == n
    requires Merging(t, sa[..n], k0, a, |a|, sa0, i)
    modifies sa
    ensures i0 == |sa0| && Merging(t, sa[..n], k, a, |a|, sa0, |sa0|)
    ensures sa[n..] == old(sa[n..])
  {
    hide Before, Suffixes;
    k, i0 := k0, i;
    while i0 != |sa0|
      invariant Merging(t, sa[..n], k, a, |a|, sa0, i0)
      invariant sa[n..] == old(sa[n..])
      decreases |sa0| - i0
    {
      ghost var before := sa[..n];
      MergeRight(t, before, k, a, |a|, sa0, i0);
      sa[k] := sa0[i0];
      assert sa[..n] == before[k := sa[k]];
      k, i0 := k + 1, i0 + 1;
    }
  }

  // ----- The algorithm

  method RawSkew(n: nat, maxValue: nat, s: seq<nat>, sa: array<nat>)
    requires Padded(s, n, maxValue) && n <= sa.Length
    modifies sa
    ensures IsSuffixArray(s[..n], sa[..n])
    ensures sa[n..] == old(sa[n..])
    decreases n, 2
  {
    if n == 0 {
      return;
    }
    if n == 1 {
      sa[0] := 0;
      return;
    }
    hide Before, Ranked, ZeroSorted;
    var s12, sa12 := RankSample(n, maxValue, s);
    var sa0 := SortZero(n, maxValue, s, s12, sa12);
    Merge(n, maxValue, s, s12[..], sa12[..N02(n)], sa0[..], sa);
  }

  // The suffixes =0 (mod 3), by their first character and the rank of what follows.
  method SortZero(n: nat, maxValue: nat, s: seq<nat>, s12: array<nat>, sa12: array<nat>) returns (sa0: array<nat>)
    requires Padded(s, n, maxValue) && sa12.Length == N02(n) + 3
    requires Ranked(s[..n], s12[..], sa12[..N02(n)])
    ensures fresh(sa0) && ZeroSorted(s[..n], sa0[..])
  {
    hide Before, Ranked, Presorted, ZeroSorted, RadixSort.StableSorted, RadixSort.KeysFit;
    var n0 := N0(n);
    var s0 := new nat[n0](_ => 0);
    sa0 := new nat[n0](_ => 0);
    SelectZero(n, s[..n], s12[..], sa12, s0);
    ZeroFits(n, maxValue, s, s0[..]);
    assert s0[..n0] == s0[..] && sa0[..n0] == sa0[..];
    ghost var src := RadixSort.Sort(n0, s0, maxValue + 1, s, sa0);
    assert s0[..n0] == s0[..] && sa0[..n0] == sa0[..];
    CompleteZero(s[..n], s, maxValue, s0[..], src, sa0[..]);
  }

  lemma ZeroFits(n: nat, maxValue: nat, s: seq<nat>, a: seq<nat>)
    requires Padded(s, n, maxValue) && Presorted(s[..n], a)
    ensures RadixSort.KeysFit(a, s, maxValue + 1)
  {
    hide Before;
  }

  // The suffixes =1|2 (mod 3): sa12 sorts them and s12 holds their ranks.
  method RankSample(n: nat, maxValue: nat, s: seq<nat>) returns (s12: array<nat>, sa12: array<nat>)
    requires Padded(s, n, maxValue) && n >= 2
    ensures fresh(s12) && fresh(sa12) && sa12.Length == N02(n) + 3
    ensures Ranked(s[..n], s12[..], sa12[..N02(n)])
    decreases n, 1
  {
    Sizes(n);
    var n02 := N02(n);
    s12 := new nat[n02 + 3](_ => 0);
    sa12 := new nat[n02 + 3](_ => 0);
    FillSample(n, s12);
    SortTriples(n, maxValue, s, s12, sa12);
    var name := NameTriples(n, s, s12, sa12);
    ghost var r := s12[..n02];
    SortNames(n02, name, s12, sa12);
    RankedByNames(n, s, maxValue, r, name, sa12[..n02], s12[..]);
  }

  // Turns the names into ranks, by recursion unless all of them are different.
  method SortNames(n02: nat, name: nat, s12: array<nat>, sa12: array<nat>)
    requires s12 != sa12 && ZeroTail(s12[..], n02) && sa12.Length == n02 + 3
    requires forall i :: 0 <= i < n02 ==> 0 < s12[i] <= name
    requires name <= n02 && (name == n02 ==> Distinct(s12[..n02]))
    modifies s12, sa12
    ensures IsSuffixArray(old(s12[..n02]), sa12[..n02])
    ensures ZeroTail(s12[..], n02)
    ensures forall k :: 0 <= k < n02 ==> sa12[k] < n02 && s12[sa12[k]] == k + 1
    decreases n02, 3
  {
    ghost var r := s12[..n02];
    if name < n02 {
      RawSkew(n02, name, s12[..], sa12);
      assert s12[..][..n02] == r;
      SuffixArrayIsPermutation(r, sa12[..n02]);
      WriteRanks(n02, s12, sa12);
    } else {
      SortUniqueNames(n02, s12, sa12);
      assert s12[..n02] == r;
      ghost var sa := sa12[..n02];
      DistinctNamesSort(n02, r, sa);
      forall k | 0 <= k < n02
        ensures sa12[k] < n02 && s12[sa12[k]] == k + 1
      {
        assert sa[k] == sa12[k] && r[sa[k]] == s12[sa[k]];
      }
    }
  }

  // A byte string as the construction sees it: every byte is one more, with zeros behind.
  function Wrap(s: seq<nat>): (r: seq<nat>)
    ensures |r| == |s| + 3
  {
    seq(|s|, i requires 0 <= i < |s| => s[i] + 1) + [0, 0, 0]
  }

  lemma {:induction false} WrapKeepsOrder(s: seq<nat>, i: nat, j: nat)
    requires i <= |s| && j <= |s|
    ensures Before(Wrap(s)[..|s|], i, j) <==> Before(s, i, j)
    decreases |s| - i
  {
    if i < |s| && j < |s| && s[i] == s[j] {
      WrapKeepsOrder(s, i + 1, j + 1);
    }
  }

  method Skew(n: nat, s: seq<nat>, sa: array<nat>)
    requires n == |s| <= sa.Length && forall i :: 0 <= i < n ==> s[i] < 256
    modifies sa
    ensures IsSuffixArray(s, sa[..n])
    ensures sa[n..] == old(sa[n..])
  {
    var wrapper := Wrap(s);
    RawSkew(n, 256, wrapper, sa);
    forall k, l | 0 <= k < l < n
      ensures Before(s, sa[k], sa[l])
    {
      assert Before(wrapper[..n], sa[..n][k], sa[..n][l]);
      WrapKeepsOrder(s, sa[k], sa[l]);
    }
  }
}
