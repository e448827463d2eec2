/**
 The queues of the delayed thread pool: base::LinkedMap, a list with an index into it, and
 base::BidirectionalMap, two maps that mirror each other.
 */
module Queues {
  import opened Options

  // ----- LinkedMap

  // A list node; the handle stands for the iterator that the index keeps.
  datatype Node<K, V> = Node(handle: nat, key: K, value: V)

  function Keys<K, V>(list: seq<Node<K, V>>): seq<K> {
    seq(|list|, i requires 0 <= i < |list| => list[i].key)
  }

  function RemoveKey<K(==)>(keys: seq<K>, key: K): seq<K> {
    if keys == [] then [] else if keys[0] == key then keys[1..] else [keys[0]] + RemoveKey(keys[1..], key)
  }

  // The place of the node with a handle.
  function Place<K, V>(list: seq<Node<K, V>>, handle: nat): (i: nat)
    requires exists i :: 0 <= i < |list| && list[i].handle == handle
    ensures i < |list| && list[i].handle == handle
  {
    if list[0].handle == handle then 0
    else
      assert exists i :: 0 <= i < |list[1..]| && list[1..][i].handle == handle by {
        var i :| 0 <= i < |list| && list[i].handle == handle;
        assert list[1..][i - 1] == list[i];
      }
      1 + Place(list[1..], handle)
  }

  lemma {:induction false} KeysWithout<K, V>(list: seq<Node<K, V>>, i: nat)
    requires i < |list| && forall j :: 0 <= j < i ==> list[j].key != list[i].key
    ensures Keys(list[..i] + list[i + 1..]) == RemoveKey(Keys(list), list[i].key)
  {
    if i == 0 {
      assert list[..0] + list[1..] == list[1..];
      assert Keys(list)[1..] == Keys(list[1..]);
    } else {
      assert list[1..][i - 1] == list[i];
      KeysWithout(list[1..], i - 1);
      assert Keys(list)[1..] == Keys(list[1..]);
      assert list[..i] + list[i + 1..] == [list[0]] + (list[1..][..i - 1] + list[1..][i..]);
      assert Keys(list[..i] + list[i + 1..]) == [list[0].key] + Keys(list[1..][..i - 1] + list[1..][i..]);
    }
  }

  // The index leads from every key in the list to its only node, and from no other key.
  ghost predicate Linked<K, V>(list: seq<Node<K, V>>, index: map<K, nat>, nextHandle: nat) {
    && (forall i :: 0 <= i < |list| ==>
          list[i].handle < nextHandle && list[i].key in index && index[list[i].key] == list[i].handle)
    && (forall i, j :: 0 <= i < j < |list| ==> list[i].handle != list[j].handle)
    && (forall k | k in index :: InList(list, k))
  }

  ghost predicate InList<K, V>(list: seq<Node<K, V>>, key: K) {
    exists i :: 0 <= i < |list| && list[i].key == key
  }

  lemma LinkedPush<K, V>(list: seq<Node<K, V>>, index: map<K, nat>, nextHandle: nat, key: K, value: V)
    requires Linked(list, index, nextHandle) && key !in index
    ensures Linked(list + [Node(nextHandle, key, value)], index[key := nextHandle], nextHandle + 1)
  {
    var more := list + [Node(nextHandle, key, value)];
    assert more[|list|].key == key;
    forall k | k in index
      ensures InList(more, k)
    {
      var i :| 0 <= i < |list| && list[i].key == k;
      assert more[i].key == k;
    }
  }

  lemma LinkedWithout<K, V>(list: seq<Node<K, V>>, index: map<K, nat>, nextHandle: nat, i: nat)
    requires Linked(list, index, nextHandle) && i < |list|
    ensures var key := list[i].key;
            && Linked(list[..i] + list[i + 1..], map k | k in index && k != key :: index[k], nextHandle)
            && Keys(list[..i] + list[i + 1..]) == RemoveKey(Keys(list), key)
  {
    hide Keys, RemoveKey, InList;
    var less, key := list[..i] + list[i + 1..], list[i].key;
    assert forall j :: 0 <= j < |list| && j != i ==> list[j].key != key;
    KeysWithout(list, i);
    assert forall j :: 0 <= j < |less| ==> less[j] == list[if j < i then j else j + 1];
    forall k | k in index && k != key
      ensures InList(less, k)
    {
      StillInList(list, i, k);
    }
  }

  lemma StillInList<K, V>(list: seq<Node<K, V>>, i: nat, key: K)
    requires i < |list| && InList(list, key) && key != list[i].key
    ensures InList(list[..i] + list[i + 1..], key)
  {
    var less := list[..i] + list[i + 1..];
    var j :| 0 <= j < |list| && list[j].key == key;
    assert less[if j < i then j else j - 1] == list[j];
  }

  lemma KeyIsListed<K, V>(list: seq<Node<K, V>>, index: map<K, nat>, nextHandle: nat, key: K)
    requires Linked(list, index, nextHandle) && key in index
    ensures key in Keys(list) && exists i :: 0 <= i < |list| && list[i].handle == index[key]
  {
    assert InList(list, key);
    var i :| 0 <= i < |list| && list[i].key == key;
    assert list[i].handle == index[key] && Keys(list)[i] == key;
  }

  lemma KeyIsNotListed<K, V>(list: seq<Node<K, V>>, index: map<K, nat>, nextHandle: nat, key: K)
    requires Linked(list, index, nextHandle) && key !in index
    ensures key !in Keys(list)
  {
  }

  lemma SameHandle<K, V>(list: seq<Node<K, V>>, index: map<K, nat>, nextHandle: nat, key: K, i: nat)
    requires Linked(list, index, nextHandle) && key in index && i < |list| && list[i].handle == index[key]
    ensures list[i].key == key
  {
    assert InList(list, key);
    var j :| 0 <= j < |list| && list[j].key == key;
    assert list[j].handle == index[key];
  }

  lemma WithoutIsPart<K, V>(list: seq<Node<K, V>>, i: nat)
    requires i < |list|
    ensures forall n | n in list[..i] + list[i + 1..] :: n in list
  {
  }

  class LinkedMap<K(==), V> {
    var list: seq<Node<K, V>>
    var index: map<K, nat>
    var nextHandle: nat

    ghost predicate Valid()
      reads this
    {
      Linked(list, index, nextHandle)
    }

    constructor ()
      ensures Valid() && list == []
    {
      list, index, nextHandle := [], map[], 0;
    }

    method Emplace(key: K, value: V) returns (ok: bool)
      requires Valid()
      modifies this
      ensures Valid() && ok == (key !in old(index))
      ensures !ok ==> list == old(list)
      ensures ok ==> |list| == |old(list)| + 1 && list[..|list| - 1] == old(list)
                     && list[|list| - 1].key == key && list[|list| - 1].value == value
    {
      if key in index {
        return false;
      }
      LinkedPush(list, index, nextHandle, key, value);
      list := list + [Node(nextHandle, key, value)];
      index := index[key := nextHandle];
      nextHandle := nextHandle + 1;
      return true;
    }

    // Takes the node at i away, with its key.
    method Unlink(i: nat)
      requires Valid() && i < |list|
      modifies this
      ensures Valid() && list == old(list)[..i] + old(list)[i + 1..]
      ensures Keys(list) == RemoveKey(Keys(old(list)), old(list)[i].key)
    {
      hide Linked;
      LinkedWithout(list, index, nextHandle, i);
      var key := list[i].key;
      index := map k | k in index && k != key :: index[k];
      list := list[..i] + list[i + 1..];
    }

    method PopFront()
      requires Valid() && list != []
      modifies this
      ensures Valid() && list == old(list)[1..]
    {
      assert [] + list[1..] == list[1..];
      Unlink(0);
    }

    // Erases a key and its value, if it is there.
    method Erase(key: K) returns (ok: bool)
      requires Valid()
      modifies this
      ensures Valid() && ok == (key in Keys(old(list)))
      ensures Keys(list) == if ok then RemoveKey(Keys(old(list)), key) else Keys(old(list))
      ensures forall n | n in list :: n in old(list)
    {
      if key !in index {
        KeyIsNotListed(list, index, nextHandle, key);
        return false;
      }
      hide RemoveKey, Linked;
      KeyIsListed(list, index, nextHandle, key);
      var i := Place(list, index[key]);
      SameHandle(list, index, nextHandle, key, i);
      ghost var before := list;
      Unlink(i);
      WithoutIsPart(before, i);
      return true;
    }

    predicate IsEmpty()
      reads this
    {
      list == []
    }

    function Front(): V
      requires !IsEmpty()
      reads this
    {
      list[0].value
    }
  }

  // ----- BidirectionalMap

  class BidirectionalMap<K(==), V(==)> {
    var kToV: map<K, V>
    var vToK: map<V, K>

    // The two maps say the same.
    ghost predicate Valid()
      reads this
    {
      && (forall k | k in kToV :: kToV[k] in vToK && vToK[kToV[k]] == k)
      && (forall v | v in vToK :: vToK[v] in kToV && kToV[vToK[v]] == v)
    }

    constructor ()
      ensures Valid() && kToV == map[]
    {
      kToV, vToK := map[], map[];
    }

    // A pair is added only if neither side is there yet.
    method Add(k: K, v: V) returns (ok: bool)
      requires Valid()
      modifies this
      ensures Valid() && ok == (k !in old(kToV) && v !in old(kToV).Values)
      ensures kToV == if ok then old(kToV)[k := v] else old(kToV)
    {
      if k in kToV || v in vToK {
        if v in vToK {
          assert kToV[vToK[v]] == v;
        }
        return false;
      }
      assert v !in kToV.Values;
      kToV := kToV[k := v];
      vToK := vToK[v := k];
      return true;
    }

    method RemoveKey(k: K) returns (ok: bool)
      requires Valid()
      modifies this
      ensures Valid() && ok == (k in old(kToV)) && kToV == old(kToV) - {k}
    {
      if k !in kToV {
        return false;
      }
      vToK := vToK - {kToV[k]};
      kToV := kToV - {k};
      return true;
    }

    method RemoveValue(v: V) returns (ok: bool)
      requires Valid()
      modifies this
      ensures Valid() && ok == (v in old(kToV).Values)
      ensures kToV == if v in old(vToK) then old(kToV) - {old(vToK)[v]} else old(kToV)
      ensures ok <==> v in old(vToK)
    {
      if v !in vToK {
        assert v !in kToV.Values;
        return false;
      }
      assert kToV[vToK[v]] == v;
      kToV := kToV - {vToK[v]};
      vToK := vToK - {v};
      return true;
    }

    predicate IsEmpty()
      reads this
    {
      kToV == map[]
    }
  }
}
