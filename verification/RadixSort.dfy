/**
 The counting sort that the suffix array construction uses for its stable passes.
 */
module RadixSort {
  import opened SuffixOrder

  // How many of the first i keys have the value v.
  ghost function Equal(keys: seq<nat>, values: seq<nat>, v: nat, i: nat): (c: nat)
    requires i <= |keys| && forall k :: 0 <= k < |keys| ==> keys[k] < |values|
    ensures c <= i
  {
    if i == 0 then 0 else Equal(keys, values, v, i - 1) + (if values[keys[i - 1]] == v then 1 else 0)
  }

  // How many keys have a value below v.
  ghost function Less(keys: seq<nat>, values: seq<nat>, v: nat): nat
    requires forall k :: 0 <= k < |keys| ==> keys[k] < |values|
  {
    if v == 0 then 0 else Less(keys, values, v - 1) + Equal(keys, values, v - 1, |keys|)
  }

  // Where the i-th key belongs: after all smaller values and all earlier equal ones.
  ghost function Place(keys: seq<nat>, values: seq<nat>, i: nat): nat
    requires i < |keys| && forall k :: 0 <= k < |keys| ==> keys[k] < |values|
  {
    var v := values[keys[i]];
    Less(keys, values, v) + Equal(keys, values, v, i)
  }

  // sorted holds the keys in the order of their values, equal values in their old order; src[k]
  // is where the key that is now at k was.
  ghost predicate StableSorted(sorted: seq<nat>, keys: seq<nat>, values: seq<nat>, src: seq<nat>) {
    && |sorted| == |keys| && IsPermutation(src, |keys|)
    && (forall k :: 0 <= k < |keys| ==> keys[k] < |values| && sorted[k] < |values|)
    && (forall k :: 0 <= k < |keys| ==> sorted[k] == keys[src[k]])
    && (forall k, l :: 0 <= k < l < |keys| ==>
          values[sorted[k]] < values[sorted[l]] || (values[sorted[k]] == values[sorted[l]] && src[k] < src[l]))
  }

  lemma {:induction false} EqualMonotone(keys: seq<nat>, values: seq<nat>, v: nat, i: nat, j: nat)
    requires i <= j <= |keys| && forall k :: 0 <= k < |keys| ==> keys[k] < |values|
    ensures Equal(keys, values, v, i) <= Equal(keys, values, v, j)
    ensures i < j && values[keys[i]] == v ==> Equal(keys, values, v, i) < Equal(keys, values, v, j)
    decreases j - i
  {
    if i < j {
      EqualMonotone(keys, values, v, i + 1, j);
    }
  }

  lemma {:induction false} LessMonotone(keys: seq<nat>, values: seq<nat>, v: nat, w: nat)
    requires v <= w && forall k :: 0 <= k < |keys| ==> keys[k] < |values|
    ensures Less(keys, values, v) <= Less(keys, values, w)
    decreases w - v
  {
    if v < w {
      LessMonotone(keys, values, v + 1, w);
    }
  }

  // How many of the first i keys have a value below v.
  ghost function LessUpto(keys: seq<nat>, values: seq<nat>, v: nat, i: nat): (c: nat)
    requires i <= |keys| && forall k :: 0 <= k < |keys| ==> keys[k] < |values|
    ensures c <= i
  {
    if i == 0 then 0 else LessUpto(keys, values, v, i - 1) + (if values[keys[i - 1]] < v then 1 else 0)
  }

  lemma {:induction false} LessUptoStep(keys: seq<nat>, values: seq<nat>, v: nat, i: nat)
    requires i <= |keys| && forall k :: 0 <= k < |keys| ==> keys[k] < |values|
    ensures LessUpto(keys, values, v + 1, i) == LessUpto(keys, values, v, i) + Equal(keys, values, v, i)
    ensures LessUpto(keys, values, 0, i) == 0
  {
    if i > 0 {
      LessUptoStep(keys, values, v, i - 1);
    }
  }

  lemma {:induction false} LessIsUpto(keys: seq<nat>, values: seq<nat>, v: nat)
    requires forall k :: 0 <= k < |keys| ==> keys[k] < |values|
    ensures Less(keys, values, v) == LessUpto(keys, values, v, |keys|)
  {
    if v == 0 {
      LessUptoStep(keys, values, 0, |keys|);
    } else {
      LessIsUpto(keys, values, v - 1);
      LessUptoStep(keys, values, v - 1, |keys|);
    }
  }

  // Places follow the order of values and then of positions.
  lemma PlaceOrder(keys: seq<nat>, values: seq<nat>, i: nat, j: nat)
    requires i < |keys| && j < |keys| && forall k :: 0 <= k < |keys| ==> keys[k] < |values|
    requires values[keys[i]] < values[keys[j]] || (values[keys[i]] == values[keys[j]] && i < j)
    ensures Place(keys, values, i) < Place(keys, values, j)
  {
    var v, w := values[keys[i]], values[keys[j]];
    if v < w {
      EqualMonotone(keys, values, v, i, |keys|);
      LessMonotone(keys, values, v + 1, w);
      assert Less(keys, values, v + 1) == Less(keys, values, v) + Equal(keys, values, v, |keys|);
    } else {
      EqualMonotone(keys, values, v, i, j);
    }
  }

  lemma PlaceBound(keys: seq<nat>, values: seq<nat>, i: nat)
    requires i < |keys| && forall k :: 0 <= k < |keys| ==> keys[k] < |values|
    ensures Place(keys, values, i) < |keys|
  {
    var v := values[keys[i]];
    EqualMonotone(keys, values, v, i, |keys|);
    assert Less(keys, values, v + 1) == Less(keys, values, v) + Equal(keys, values, v, |keys|);
    LessIsUpto(keys, values, v + 1);
  }

  ghost function Places(keys: seq<nat>, values: seq<nat>): (r: seq<nat>)
    requires forall k :: 0 <= k < |keys| ==> keys[k] < |values|
    ensures |r| == |keys|
    ensures forall k :: 0 <= k < |keys| ==> r[k] == Place(keys, values, k)
  {
    seq(|keys|, i requires 0 <= i < |keys| => Place(keys, values, i))
  }

  lemma PlacesPermute(keys: seq<nat>, values: seq<nat>)
    requires forall k :: 0 <= k < |keys| ==> keys[k] < |values|
    ensures IsPermutation(Places(keys, values), |keys|)
  {
    var places := Places(keys, values);
    forall k | 0 <= k < |keys|
      ensures places[k] < |keys|
    {
      PlaceBound(keys, values, k);
    }
    forall k, l | 0 <= k < l < |keys|
      ensures places[k] != places[l]
    {
      PlacesDiffer(keys, values, k, l);
    }
  }

  // Where the key at each place came from.
  lemma Sources(keys: seq<nat>, values: seq<nat>, sorted: seq<nat>) returns (src: seq<nat>)
    requires |sorted| == |keys| && forall k :: 0 <= k < |keys| ==> keys[k] < |values|
    requires IsPermutation(Places(keys, values), |keys|)
    requires forall i :: 0 <= i < |keys| ==> sorted[Places(keys, values)[i]] == keys[i]
    ensures StableSorted(sorted, keys, values, src)
  {
    hide Place, Equal, Less;
    var n, places := |keys|, Places(keys, values);
    Pigeonhole(places, n);
    src := Inverse(places);
    forall k | 0 <= k < n
      ensures sorted[k] == keys[src[k]] && sorted[k] < |values|
    {
      assert places[src[k]] == k;
    }
    forall k, l | 0 <= k < l < n
      ensures src[k] != src[l]
      ensures values[sorted[k]] < values[sorted[l]] || (values[sorted[k]] == values[sorted[l]] && src[k] < src[l])
    {
      assert places[src[k]] == k && places[src[l]] == l;
      InPlaceOrder(keys, values, src[k], src[l]);
    }
  }

  lemma InPlaceOrder(keys: seq<nat>, values: seq<nat>, i: nat, j: nat)
    requires i < |keys| && j < |keys| && forall k :: 0 <= k < |keys| ==> keys[k] < |values|
    requires Places(keys, values)[i] < Places(keys, values)[j]
    ensures i != j
    ensures values[keys[i]] < values[keys[j]] || (values[keys[i]] == values[keys[j]] && i < j)
  {
    if !(values[keys[i]] < values[keys[j]] || (values[keys[i]] == values[keys[j]] && i <= j)) {
      PlaceOrder(keys, values, j, i);
    }
  }

  lemma PlacesDiffer(keys: seq<nat>, values: seq<nat>, k: nat, l: nat)
    requires k < l < |keys| && forall k :: 0 <= k < |keys| ==> keys[k] < |values|
    ensures Place(keys, values, k) != Place(keys, values, l)
  {
    if values[keys[l]] < values[keys[k]] {
      PlaceOrder(keys, values, l, k);
    } else {
      PlaceOrder(keys, values, k, l);
    }
  }

  ghost function Inverse(a: seq<nat>): (b: seq<nat>)
    requires forall x :: 0 <= x < |a| ==> x in a
    ensures |b| == |a|
    ensures forall x :: 0 <= x < |a| ==> b[x] < |a| && a[b[x]] == x
  {
    seq(|a|, x requires 0 <= x < |a| => IndexOf(a, x))
  }

  ghost function IndexOf(a: seq<nat>, x: nat): (i: nat)
    requires x in a
    ensures i < |a| && a[i] == x
  {
    var i :| 0 <= i < |a| && a[i] == x;
    i
  }

  // The keys, as an index of values, and below a bound.
  ghost predicate KeysFit(keys: seq<nat>, values: seq<nat>, numValues: nat) {
    forall k :: 0 <= k < |keys| ==> keys[k] < |values| && values[keys[k]] < numValues
  }

  method CountValues(numKeys: nat, keys: array<nat>, values: seq<nat>, count: array<nat>)
    requires numKeys <= keys.Length && keys != count && KeysFit(keys[..numKeys], values, count.Length)
    requires forall v :: 0 <= v < count.Length ==> count[v] == 0
    modifies count
    ensures forall v :: 0 <= v < count.Length ==> count[v] == Equal(keys[..numKeys], values, v, numKeys)
  {
    ghost var ks := keys[..numKeys];
    for i := 0 to numKeys
      invariant keys[..numKeys] == ks
      invariant forall v :: 0 <= v < count.Length ==> count[v] == Equal(ks, values, v, i)
    {
      assert keys[i] == ks[i];
      var value := values[keys[i]];
      count[value] := count[value] + 1;
    }
  }

  method Accumulate(count: array<nat>, ghost keys: seq<nat>, ghost values: seq<nat>)
    requires KeysFit(keys, values, count.Length)
    requires forall v :: 0 <= v < count.Length ==> count[v] == Equal(keys, values, v, |keys|)
    modifies count
    ensures forall v :: 0 <= v < count.Length ==> count[v] == Less(keys, values, v + 1)
  {
    var i := 1;
    while i < count.Length
      invariant i >= 1
      invariant forall v :: 0 <= v < count.Length ==>
                  count[v] == if v < i then Less(keys, values, v + 1) else Equal(keys, values, v, |keys|)
    {
      count[i] := count[i] + count[i - 1];
      i := i + 1;
    }
  }

  // Where the last of the first i keys with the value v ends.
  ghost function SlotEnd(keys: seq<nat>, values: seq<nat>, v: nat, i: nat): nat
    requires i <= |keys| && forall k :: 0 <= k < |keys| ==> keys[k] < |values|
  {
    Less(keys, values, v) + Equal(keys, values, v, i)
  }

  lemma AllSlots(keys: seq<nat>, values: seq<nat>, v: nat)
    requires forall k :: 0 <= k < |keys| ==> keys[k] < |values|
    ensures SlotEnd(keys, values, v, |keys|) == Less(keys, values, v + 1)
  {
  }

  lemma PlaceIsOwn(places: seq<nat>, n: nat, i: nat)
    requires IsPermutation(places, n) && i < n
    ensures |places| == n && places[i] < n && forall k :: 0 <= k < n && k != i ==> places[k] != places[i]
  {
  }

  lemma SlotEnds(keys: seq<nat>, values: seq<nat>, i: nat)
    requires i < |keys| && forall k :: 0 <= k < |keys| ==> keys[k] < |values|
    ensures var value := values[keys[i]];
            && SlotEnd(keys, values, value, i + 1) == Place(keys, values, i) + 1
            && SlotEnd(keys, values, value, i) == Place(keys, values, i)
            && forall v: nat :: v != value ==> SlotEnd(keys, values, v, i + 1) == SlotEnd(keys, values, v, i)
  {
  }

  // Writes every key to its place, the last of each value first.
  method Distribute(numKeys: nat, keys: array<nat>, values: seq<nat>, count: array<nat>, resultKeys: array<nat>,
                    ghost places: seq<nat>)
    requires numKeys <= keys.Length && numKeys <= resultKeys.Length
    requires keys != resultKeys && keys != count && count != resultKeys
    requires KeysFit(keys[..numKeys], values, count.Length)
    requires places == Places(keys[..numKeys], values) && IsPermutation(places, numKeys)
    requires forall v :: 0 <= v < count.Length ==> count[v] == Less(keys[..numKeys], values, v + 1)
    modifies resultKeys, count
    ensures forall k :: 0 <= k < numKeys ==> resultKeys[places[k]] == keys[k]
    ensures resultKeys[numKeys..] == old(resultKeys[numKeys..])
  {
    hide Less, Equal, Place, IsPermutation, SlotEnd;
    ghost var ks := keys[..numKeys];
    forall v: nat
      ensures SlotEnd(ks, values, v, numKeys) == Less(ks, values, v + 1)
    {
      AllSlots(ks, values, v);
    }
    assert forall k :: 0 <= k < numKeys ==> places[k] < numKeys by {
      forall k | 0 <= k < numKeys
        ensures places[k] < numKeys
      {
        PlaceIsOwn(places, numKeys, k);
      }
    }
    for i := numKeys downto 0
      invariant keys[..numKeys] == ks && |places| == numKeys
      invariant forall v :: 0 <= v < count.Length ==> count[v] == SlotEnd(ks, values, v, i)
      invariant forall k :: i <= k < numKeys ==> resultKeys[places[k]] == ks[k]
      invariant resultKeys[numKeys..] == old(resultKeys[numKeys..])
    {
      SlotEnds(ks, values, i);
      PlaceIsOwn(places, numKeys, i);
      assert keys[i] == ks[i];
      var value := values[keys[i]];
      count[value] := count[value] - 1;
      assert count[value] == places[i];
      resultKeys[count[value]] := keys[i];
    }
  }

  method Sort(numKeys: nat, keys: array<nat>, numValues: nat, values: seq<nat>, resultKeys: array<nat>)
    returns (ghost src: seq<nat>)
    requires numKeys <= keys.Length && numKeys <= resultKeys.Length && keys != resultKeys
    requires KeysFit(keys[..numKeys], values, numValues)
    modifies resultKeys
    ensures StableSorted(resultKeys[..numKeys], keys[..numKeys], values, src)
    ensures resultKeys[numKeys..] == old(resultKeys[numKeys..])
  {
    var count := new nat[numValues](_ => 0);
    CountValues(numKeys, keys, values, count);
    Accumulate(count, keys[..numKeys], values);
    PlacesPermute(keys[..numKeys], values);
    Distribute(numKeys, keys, values, count, resultKeys, Places(keys[..numKeys], values));
    src := Sources(keys[..numKeys], values, resultKeys[..numKeys]);
  }
}
