/**
 coding::MoveToFront: bytes as their places in a list that moves every byte used to its front.
 */
module MoveToFrontCoding {
  import opened Sequences
  import opened SuffixOrder

  ghost predicate IsOrder(order: seq<nat>) {
    IsPermutation(order, NUM_BYTES)
  }

  function PlaceOf(order: seq<nat>, b: nat): (i: nat)
    requires b in order
    ensures i < |order| && order[i] == b && b !in order[..i]
  {
    if order[0] == b then 0
    else
      assert b in order[1..];
      1 + PlaceOf(order[1..], b)
  }

  // The list after the element at i has been moved to the front.
  function MovedToFront(order: seq<nat>, i: nat): seq<nat>
    requires i < |order|
  {
    [order[i]] + order[..i] + order[i + 1..]
  }

  lemma MovedIsOrder(order: seq<nat>, i: nat)
    requires IsOrder(order) && i < |order|
    ensures IsOrder(MovedToFront(order, i))
  {
    var r := MovedToFront(order, i);
    assert forall k :: 0 <= k < |r| ==> r[k] == if k == 0 then order[i] else if k <= i then order[k - 1] else order[k];
  }

  // What a run of Transform makes of a text, and the list it leaves.
  ghost function Encoded(order: seq<nat>, s: seq<nat>): (r: seq<nat>)
    requires IsOrder(order) && forall k :: 0 <= k < |s| ==> s[k] < NUM_BYTES
    ensures |r| == |s| && forall k :: 0 <= k < |r| ==> r[k] < NUM_BYTES
    decreases |s|
  {
    if s == [] then []
    else
      Pigeonhole(order, NUM_BYTES);
      var i := PlaceOf(order, s[0]);
      MovedIsOrder(order, i);
      [i] + Encoded(MovedToFront(order, i), s[1..])
  }

  ghost function OrderAfter(order: seq<nat>, s: seq<nat>): (r: seq<nat>)
    requires IsOrder(order) && forall k :: 0 <= k < |s| ==> s[k] < NUM_BYTES
    ensures IsOrder(r)
    decreases |s|
  {
    if s == [] then order
    else
      Pigeonhole(order, NUM_BYTES);
      var i := PlaceOf(order, s[0]);
      MovedIsOrder(order, i);
      OrderAfter(MovedToFront(order, i), s[1..])
  }

  ghost function Identity(): (r: seq<nat>)
    ensures IsOrder(r)
  {
    seq(NUM_BYTES, i => i)
  }

  lemma {:induction false} EncodedConcat(order: seq<nat>, a: seq<nat>, b: seq<nat>)
    requires IsOrder(order)
    requires (forall k :: 0 <= k < |a| ==> a[k] < NUM_BYTES) && (forall k :: 0 <= k < |b| ==> b[k] < NUM_BYTES)
    ensures Encoded(order, a + b) == Encoded(order, a) + Encoded(OrderAfter(order, a), b)
    ensures OrderAfter(order, a + b) == OrderAfter(OrderAfter(order, a), b)
    decreases |a|
  {
    if a == [] {
      assert a + b == b;
    } else {
      assert (a + b)[1..] == a[1..] + b;
      Pigeonhole(order, NUM_BYTES);
      var i := PlaceOf(order, a[0]);
      MovedIsOrder(order, i);
      EncodedConcat(MovedToFront(order, i), a[1..], b);
    }
  }

  lemma AllBytes(order: seq<nat>)
    requires IsOrder(order)
    ensures forall b :: 0 <= b < NUM_BYTES ==> b in order
  {
    Pigeonhole(order, NUM_BYTES);
  }

  lemma FirstPlace(order: seq<nat>, b: nat, i: nat)
    requires b in order && i < |order| && order[i] == b && i <= PlaceOf(order, b)
    ensures i == PlaceOf(order, b)
  {
    var prefix := order[..PlaceOf(order, b)];
    assert forall k :: 0 <= k < |prefix| ==> prefix[k] == order[k] && prefix[k] in prefix;
  }

  // Moves the element at i to the front, everything before it up by one.
  method Rotate(order: array<nat>, place: nat)
    requires place < order.Length
    modifies order
    ensures order[..] == MovedToFront(old(order[..]), place)
  {
    ghost var before := order[..];
    var b := order[place];
    var i := place;
    while i > 0
      invariant 0 <= i <= place
      invariant forall k :: 0 <= k <= i ==> order[k] == before[k]
      invariant forall k :: i < k <= place ==> order[k] == before[k - 1]
      invariant forall k :: place < k < order.Length ==> order[k] == before[k]
    {
      assert order[i - 1] == before[i - 1];
      order[i] := order[i - 1];
      i := i - 1;
    }
    order[0] := b;
  }

  class MoveToFront {
    var order: array<nat>

    ghost predicate Valid()
      reads this, order
    {
      order.Length == NUM_BYTES && IsOrder(order[..])
    }

    constructor ()
      ensures Valid() && fresh(order) && order[..] == Identity()
    {
      order := new nat[NUM_BYTES](i => i);
      new;
      assert order[..] == Identity();
    }

    // The place of b, which then moves to the front.
    method Transform(b: nat) returns (result: nat)
      requires Valid() && b < NUM_BYTES
      modifies order
      ensures Valid() && result < NUM_BYTES
      ensures b in old(order[..]) && result == PlaceOf(old(order[..]), b)
      ensures order[..] == MovedToFront(old(order[..]), result)
    {
      hide PlaceOf, IsPermutation, MovedToFront;
      ghost var before := order[..];
      AllBytes(before);
      result := 0;
      while order[result] != b
        invariant result <= PlaceOf(before, b)
        decreases NUM_BYTES - result
      {
        assert order[result] == before[result];
        result := result + 1;
      }
      FirstPlace(before, b, result);
      MovedIsOrder(before, result);
      Rotate(order, result);
    }

    function At(i: nat): nat
      requires Valid() && i < NUM_BYTES
      reads this, order
    {
      order[i]
    }
  }

  // One more byte for the encoder and for the decoder.
  lemma EncodedNext(s: seq<nat>, i: nat)
    requires i < |s| && forall k :: 0 <= k < |s| ==> s[k] < NUM_BYTES
    ensures var order := OrderAfter(Identity(), s[..i]);
            && s[i] in order
            && Encoded(Identity(), s[..i + 1]) == Encoded(Identity(), s[..i]) + [PlaceOf(order, s[i])]
            && OrderAfter(Identity(), s[..i + 1]) == MovedToFront(order, PlaceOf(order, s[i]))
            && Encoded(Identity(), s)[i] == PlaceOf(order, s[i])
  {
    hide Encoded, OrderAfter, PlaceOf, MovedToFront, IsPermutation, Identity;
    NextOne(s, i);
    EncodedAt(s[..i], s[i], s[..i + 1], s);
  }

  lemma EncodedAt(u: seq<nat>, b: nat, v: seq<nat>, s: seq<nat>)
    requires forall k :: 0 <= k < |s| ==> s[k] < NUM_BYTES
    requires v == u + [b] && v <= s && b < NUM_BYTES && forall k :: 0 <= k < |u| ==> u[k] < NUM_BYTES
    ensures var order := OrderAfter(Identity(), u);
            && b in order && (forall k :: 0 <= k < |v| ==> v[k] < NUM_BYTES)
            && Encoded(Identity(), v) == Encoded(Identity(), u) + [PlaceOf(order, b)]
            && OrderAfter(Identity(), v) == MovedToFront(order, PlaceOf(order, b))
            && Encoded(Identity(), s)[|u|] == PlaceOf(order, b)
  {
    hide Encoded, OrderAfter, PlaceOf, MovedToFront, IsPermutation, Identity;
    EncodedPush(u, b);
    EncodedPrefix(v, s);
    LastOfPrefix(Encoded(Identity(), u), PlaceOf(OrderAfter(Identity(), u), b), Encoded(Identity(), s));
  }

  lemma NextOne(s: seq<nat>, i: nat)
    requires i < |s|
    ensures s[..i + 1] == s[..i] + [s[i]]
  {
  }

  lemma LastOfPrefix(a: seq<nat>, x: nat, b: seq<nat>)
    requires a + [x] <= b
    ensures b[|a|] == x
  {
    assert b[|a|] == (a + [x])[|a|];
  }

  lemma EncodedPush(u: seq<nat>, b: nat)
    requires b < NUM_BYTES && forall k :: 0 <= k < |u| ==> u[k] < NUM_BYTES
    ensures var order := OrderAfter(Identity(), u);
            && b in order
            && Encoded(Identity(), u + [b]) == Encoded(Identity(), u) + [PlaceOf(order, b)]
            && OrderAfter(Identity(), u + [b]) == MovedToFront(order, PlaceOf(order, b))
  {
    hide Encoded, OrderAfter, PlaceOf, MovedToFront, IsPermutation, Identity;
    EncodedConcat(Identity(), u, [b]);
    EncodedOne(OrderAfter(Identity(), u), b);
  }

  lemma EncodedPrefix(v: seq<nat>, s: seq<nat>)
    requires v <= s && (forall k :: 0 <= k < |s| ==> s[k] < NUM_BYTES) && forall k :: 0 <= k < |v| ==> v[k] < NUM_BYTES
    ensures Encoded(Identity(), v) <= Encoded(Identity(), s)
  {
    hide Encoded, OrderAfter, IsPermutation, Identity;
    var rest := s[|v|..];
    assert s == v + rest;
    EncodedConcat(Identity(), v, rest);
  }

  lemma EncodedOne(order: seq<nat>, b: nat)
    requires IsOrder(order) && b < NUM_BYTES
    ensures b in order
    ensures Encoded(order, [b]) == [PlaceOf(order, b)]
    ensures OrderAfter(order, [b]) == MovedToFront(order, PlaceOf(order, b))
  {
    Pigeonhole(order, NUM_BYTES);
    MovedIsOrder(order, PlaceOf(order, b));
  }

  lemma NothingEncoded(s: seq<nat>)
    ensures Encoded(Identity(), s[..0]) == [] && OrderAfter(Identity(), s[..0]) == Identity()
  {
  }

  // ----- What the numbers mean

  // Where d occurs last in u, or -1.
  ghost function LastUse(u: seq<nat>, d: nat): (i: int)
    ensures -1 <= i < |u|
  {
    if u == [] then -1 else if u[|u| - 1] == d then |u| - 1 else LastUse(u[..|u| - 1], d)
  }

  // d has been used after c; among bytes that have not been used, d is the smaller one.
  ghost predicate MoreRecent(u: seq<nat>, d: nat, c: nat) {
    LastUse(u, d) > LastUse(u, c) || (LastUse(u, d) == LastUse(u, c) && d < c)
  }

  ghost predicate ByRecency(order: seq<nat>, u: seq<nat>) {
    forall i, j :: 0 <= i < j < |order| ==> MoreRecent(u, order[i], order[j])
  }

  lemma PushUse(u: seq<nat>, c: nat)
    ensures forall d :: LastUse(u + [c], d) == if d == c then |u| else LastUse(u, d)
  {
    assert (u + [c])[..|u|] == u;
  }

  lemma MovedByRecency(order: seq<nat>, i: nat, u: seq<nat>)
    requires IsOrder(order) && ByRecency(order, u) && i < |order|
    ensures ByRecency(MovedToFront(order, i), u + [order[i]])
  {
    hide LastUse;
    var c, r := order[i], MovedToFront(order, i);
    PushUse(u, c);
    forall h, k | 0 <= h < k < |r|
      ensures MoreRecent(u + [c], r[h], r[k])
    {
      assert r[h] == if h == 0 then c else if h <= i then order[h - 1] else order[h];
      assert r[k] == if k <= i then order[k - 1] else order[k];
      assert r[k] != c;
    }
  }

  // After any text the list holds the bytes used last first, and those not used in order behind them.
  lemma {:induction false} OrderIsByRecency(u: seq<nat>)
    requires forall k :: 0 <= k < |u| ==> u[k] < NUM_BYTES
    ensures ByRecency(OrderAfter(Identity(), u), u)
  {
    if u == [] {
      NothingEncoded(u);
      assert u[..0] == u;
    } else {
      hide OrderAfter, Identity, ByRecency, MovedToFront, PlaceOf, IsPermutation, Encoded;
      var u', c := u[..|u| - 1], u[|u| - 1];
      OrderIsByRecency(u');
      EncodedNext(u, |u'|);
      var order := OrderAfter(Identity(), u');
      MovedByRecency(order, PlaceOf(order, c), u');
      assert u' + [c] == u && u[..|u'| + 1] == u;
    }
  }

  // The bytes in front of c after u.
  ghost function Ahead(u: seq<nat>, c: nat): set<nat> {
    set d | 0 <= d < NUM_BYTES && MoreRecent(u, d, c)
  }

  lemma AheadIsFront(order: seq<nat>, u: seq<nat>, c: nat)
    requires IsOrder(order) && ByRecency(order, u) && c in order
    ensures |Ahead(u, c)| == PlaceOf(order, c)
  {
    hide PlaceOf, LastUse;
    var i := PlaceOf(order, c);
    var front := order[..i];
    AllBytes(order);
    forall k | 0 <= k < |order|
      ensures k < i <==> MoreRecent(u, order[k], c)
    {
      assert k < i ==> MoreRecent(u, order[k], order[i]);
      assert k > i ==> MoreRecent(u, order[i], order[k]);
    }
    assert forall k :: 0 <= k < i ==> front[k] == order[k];
    forall d | d in Ahead(u, c)
      ensures d in front
    {
      assert d in order;
      var k :| 0 <= k < |order| && order[k] == d;
      assert front[k] == d;
    }
    forall d | d in front
      ensures d in Ahead(u, c)
    {
      var k :| 0 <= k < i && front[k] == d;
      assert order[k] == d;
    }
    assert Ahead(u, c) == Elements(front);
    DistinctSize(front);
  }

  // The number of a byte: how many other bytes have been used since its last use or, if there was
  // none, how many have been used at all or are smaller.
  lemma NumberMeans(s: seq<nat>, i: nat)
    requires i < |s| && forall k :: 0 <= k < |s| ==> s[k] < NUM_BYTES
    ensures Encoded(Identity(), s)[i] == |Ahead(s[..i], s[i])|
  {
    hide Encoded, OrderAfter, Identity, ByRecency, PlaceOf, IsPermutation, MovedToFront, Ahead;
    EncodedNext(s, i);
    OrderIsByRecency(s[..i]);
    AheadIsFront(OrderAfter(Identity(), s[..i]), s[..i], s[i]);
  }

  // The encoder's loop over a buffer, in place.
  method EncodeBuffer(buffer: array<nat>)
    requires forall k :: 0 <= k < buffer.Length ==> buffer[k] < NUM_BYTES
    modifies buffer
    ensures buffer[..] == Encoded(Identity(), old(buffer[..]))
  {
    hide Encoded, OrderAfter, PlaceOf, MovedToFront, IsPermutation, Identity;
    ghost var s := buffer[..];
    NothingEncoded(s);
    var mtf := new MoveToFront();
    for i := 0 to buffer.Length
      invariant mtf.Valid() && fresh(mtf) && fresh(mtf.order)
      invariant mtf.order[..] == OrderAfter(Identity(), s[..i])
      invariant buffer[..i] == Encoded(Identity(), s[..i]) && buffer[i..] == s[i..]
    {
      assert buffer[i] == buffer[i..][0] == s[i];
      EncodedNext(s, i);
      var b := mtf.Transform(buffer[i]);
      assert buffer[..i] == Encoded(Identity(), s[..i]);
      buffer[i] := b;
      assert buffer[..i + 1] == buffer[..i] + [b];
      assert buffer[i + 1..] == s[i + 1..];
    }
    assert s[..buffer.Length] == s && buffer[..buffer.Length] == buffer[..];
  }

  // The decoder's loop: what the encoder made of s becomes s again.
  method DecodeBuffer(buffer: array<nat>, ghost s: seq<nat>)
    requires forall k :: 0 <= k < |s| ==> s[k] < NUM_BYTES
    requires buffer[..] == Encoded(Identity(), s)
    modifies buffer
    ensures buffer[..] == s
  {
    hide Encoded, OrderAfter, PlaceOf, MovedToFront, IsPermutation, Identity;
    NothingEncoded(s);
    ghost var encoded := buffer[..];
    var mtf := new MoveToFront();
    for i := 0 to buffer.Length
      invariant mtf.Valid() && fresh(mtf) && fresh(mtf.order)
      invariant mtf.order[..] == OrderAfter(Identity(), s[..i])
      invariant buffer[..i] == s[..i] && buffer[i..] == encoded[i..]
    {
      EncodedNext(s, i);
      assert buffer[i] == buffer[i..][0] == encoded[i];
      var b := mtf.At(buffer[i]);
      assert b == s[i] by {
        assert mtf.order[..][buffer[i]] == s[i];
      }
      buffer[i] := b;
      assert buffer[..i + 1] == s[..i + 1] && buffer[i + 1..] == encoded[i + 1..];
      var place := mtf.Transform(b);
    }
    assert s[..buffer.Length] == s && buffer[..buffer.Length] == buffer[..];
  }
}
