/**
 The distance decided by the Levenshtein automaton: insertions, deletions, replacements and swaps
 of two neighbours, no piece of a string being edited twice.
 */
module Osa {
  import opened EditScripts
  import opened Sequences

  function Mismatch(c: UniChar, d: UniChar): nat {
    if c == d then 0 else 1
  }

  // Whether the first two characters of s and w are each other's, swapped.
  predicate SwapsAtFront(s: seq<UniChar>, w: seq<UniChar>) {
    |s| >= 2 && |w| >= 2 && s[0] == w[1] && s[1] == w[0]
  }

  function Dist(s: seq<UniChar>, w: seq<UniChar>): nat
    decreases |s| + |w|
  {
    if s == [] then |w|
    else if w == [] then |s|
    else
      var m := Min(1 + Min(Dist(s[1..], w), Dist(s, w[1..])), Dist(s[1..], w[1..]) + Mismatch(s[0], w[0]));
      if SwapsAtFront(s, w) then Min(m, 1 + Dist(s[2..], w[2..])) else m
  }

  // ----- Dist is the least price of an edit script

  lemma {:induction false} DistIsReached(s: seq<UniChar>, w: seq<UniChar>) returns (es: Script)
    ensures Transforms(es, WithSwaps, s, w) && Cost(es) == Dist(s, w)
    decreases |s| + |w|
  {
    if s == [] && w == [] {
      es := [];
    } else {
      var e: Edit, s', w' := Step(s, w);
      var tl := DistIsReached(s', w');
      ExtendFront(e, tl, WithSwaps, s', w');
      es := [e] + tl;
    }
  }

  // One of the options of the definition is the least.
  lemma LeastOption(s: seq<UniChar>, w: seq<UniChar>)
    requires s != [] || w != []
    ensures s == [] ==> Dist(s, w) == 1 + Dist(s, w[1..])
    ensures w == [] ==> Dist(s, w) == 1 + Dist(s[1..], w)
    ensures s != [] && w != [] ==>
              || Dist(s, w) == 1 + Dist(s[1..], w) || Dist(s, w) == 1 + Dist(s, w[1..])
              || Dist(s, w) == Dist(s[1..], w[1..]) + Mismatch(s[0], w[0])
              || (SwapsAtFront(s, w) && Dist(s, w) == 1 + Dist(s[2..], w[2..]))
  {
  }

  // The first edit of a cheapest script, and what it leaves of the two strings.
  lemma Step(s: seq<UniChar>, w: seq<UniChar>) returns (e: Edit, s': seq<UniChar>, w': seq<UniChar>)
    requires s != [] || w != []
    ensures s == e.Before() + s' && w == e.After() + w'
    ensures Dist(s, w) == e.Price() + Dist(s', w')
    ensures |s'| + |w'| < |s| + |w|
  {
    hide Dist, SwapsAtFront;
    LeastOption(s, w);
    if w == [] || (s != [] && Dist(s, w) == 1 + Dist(s[1..], w)) {
      DeleteIsFirst(s, w);
      e, s', w' := Delete(s[0]), s[1..], w;
    } else if s == [] || Dist(s, w) == 1 + Dist(s, w[1..]) {
      InsertIsFirst(s, w);
      e, s', w' := Insert(w[0]), s, w[1..];
    } else if Dist(s, w) == Dist(s[1..], w[1..]) + Mismatch(s[0], w[0]) {
      PairIsFirst(s, w);
      e, s', w' := if s[0] == w[0] then Keep(s[0]) else Replace(s[0], w[0]), s[1..], w[1..];
    } else {
      SwapIsFirst(s, w);
      e, s', w' := Swap(s[0], s[1]), s[2..], w[2..];
    }
  }

  lemma DeleteIsFirst(s: seq<UniChar>, w: seq<UniChar>)
    requires s != []
    ensures s == Delete(s[0]).Before() + s[1..] && w == Delete(s[0]).After() + w
  {
  }

  lemma InsertIsFirst(s: seq<UniChar>, w: seq<UniChar>)
    requires w != []
    ensures s == Insert(w[0]).Before() + s && w == Insert(w[0]).After() + w[1..]
  {
  }

  lemma PairIsFirst(s: seq<UniChar>, w: seq<UniChar>)
    requires s != [] && w != []
    ensures var e := if s[0] == w[0] then Keep(s[0]) else Replace(s[0], w[0]);
            s == e.Before() + s[1..] && w == e.After() + w[1..] && e.Price() == Mismatch(s[0], w[0])
  {
  }

  lemma SwapIsFirst(s: seq<UniChar>, w: seq<UniChar>)
    requires SwapsAtFront(s, w)
    ensures |s| >= 2 && |w| >= 2
    ensures s == Swap(s[0], s[1]).Before() + s[2..] && w == Swap(s[0], s[1]).After() + w[2..]
  {
    assert s == [s[0], s[1]] + s[2..];
    assert w == [s[1], s[0]] + w[2..];
  }

  lemma {:induction false} DistIsLeast(es: Script)
    ensures Dist(Source(es), Target(es)) <= Cost(es)
  {
    if es == [] {
    } else {
      DistIsLeast(es[1..]);
      DistOfEdit(es[0], Source(es[1..]), Target(es[1..]));
    }
  }

  // One more edit at the front adds at most its price.
  lemma DistOfEdit(e: Edit, s: seq<UniChar>, w: seq<UniChar>)
    ensures Dist(e.Before() + s, e.After() + w) <= e.Price() + Dist(s, w)
  {
    var s', w' := e.Before() + s, e.After() + w;
    match e
    case Keep(c) => assert s'[1..] == s && w'[1..] == w;
    case Insert(c) => assert s' == s && w'[1..] == w;
    case Delete(c) => assert s'[1..] == s && w' == w;
    case Replace(c, d) => assert s'[1..] == s && w'[1..] == w;
    case Swap(c, d) => assert s'[2..] == s && w'[2..] == w && SwapsAtFront(s', w');
  }

  lemma DistIsTheDistance(s: seq<UniChar>, w: seq<UniChar>)
    ensures IsDistance(Dist(s, w), WithSwaps, s, w)
  {
    var es := DistIsReached(s, w);
    forall es | Transforms(es, WithSwaps, s, w)
      ensures Dist(s, w) <= Cost(es)
    {
      DistIsLeast(es);
    }
  }

  // The example of the class comment: the distance between "ab" and "bca" is three, not two.
  lemma AbToBca(a: UniChar, b: UniChar, c: UniChar)
    requires a != b && b != c && a != c
    ensures Dist([a, b], [b, c, a]) == 3
  {
    var s, w := [a, b], [b, c, a];
    assert s[1..] == [b] && w[1..] == [c, a] && w[2..] == [a] && w[1..][1..] == [a];
    assert [b][1..] == [] && [a][1..] == [] && [c, a][1..] == [a];
    assert Dist([b], [a]) == 1;
    assert Dist([b], [c, a]) == 2;
    assert Dist([b], w) == 2;
    assert Dist(s, [a]) == 1;
    assert Dist(s, [c, a]) == 2;
  }

  // ----- Dropping one character changes the distance by at most one

  lemma {:induction false} DropFromSource(s: seq<UniChar>, w: seq<UniChar>)
    requires s != []
    ensures Dist(s[1..], w) <= 1 + Dist(s, w)
    decreases |w|
  {
    hide Dist;
    NoOptionIsLess(s[1..], w);
    if w == [] {
      EmptyDist(s[1..]);
      EmptyDist(s);
    } else {
      DropFromSource(s, w[1..]);
      LeastOption(s, w);
      if SwapsAtFront(s, w) {
        assert s[1..][1..] == s[2..] && w[1..][1..] == w[2..];
        NoOptionIsLess(s[2..], w[1..]);
      }
    }
  }

  lemma {:induction false} DropFromTarget(s: seq<UniChar>, w: seq<UniChar>)
    requires w != []
    ensures Dist(s, w[1..]) <= 1 + Dist(s, w)
    decreases |s|
  {
    hide Dist;
    NoOptionIsLess(s, w[1..]);
    if s == [] {
      EmptyDist(w[1..]);
      EmptyDist(w);
    } else {
      DropFromTarget(s[1..], w);
      LeastOption(s, w);
      if SwapsAtFront(s, w) {
        assert s[1..][1..] == s[2..] && w[1..][1..] == w[2..];
        NoOptionIsLess(s[1..], w[2..]);
      }
    }
  }

  // Deleting, inserting or pairing the first characters costs at least the distance.
  lemma NoOptionIsLess(s: seq<UniChar>, w: seq<UniChar>)
    ensures s != [] ==> Dist(s, w) <= 1 + Dist(s[1..], w)
    ensures w != [] ==> Dist(s, w) <= 1 + Dist(s, w[1..])
    ensures s != [] && w != [] ==> Dist(s, w) <= Dist(s[1..], w[1..]) + Mismatch(s[0], w[0])
  {
  }

  lemma EmptyDist(s: seq<UniChar>)
    ensures Dist(s, []) == |s| && Dist([], s) == |s|
  {
  }

  // Matching equal first characters is always optimal.
  lemma GreedyMatch(s: seq<UniChar>, w: seq<UniChar>)
    requires s != [] && w != [] && s[0] == w[0]
    ensures Dist(s, w) == Dist(s[1..], w[1..])
  {
    DropFromTarget(s[1..], w);
    DropFromSource(s, w[1..]);
    if SwapsAtFront(s, w) {
      assert s[1..][1..] == s[2..] && w[1..][1..] == w[2..];
    }
  }

  // Starting k characters later costs at most k more, and at most k can be gained.
  lemma {:induction false} SkipFromSource(s: seq<UniChar>, w: seq<UniChar>, k: nat)
    requires k <= |s|
    ensures Dist(s, w) <= k + Dist(s[k..], w)
    ensures Dist(s[k..], w) <= k + Dist(s, w)
  {
    if k == 0 {
      assert s[0..] == s;
    } else {
      SkipFromSource(s[1..], w, k - 1);
      assert s[1..][k - 1..] == s[k..];
      DropFromSource(s, w);
      assert Dist(s, w) <= 1 + Dist(s[1..], w);
    }
  }

  lemma {:induction false} DistOfEqual(s: seq<UniChar>)
    ensures Dist(s, s) == 0
  {
    if s != [] {
      DistOfEqual(s[1..]);
    }
  }

  lemma {:induction false} ZeroDistIsEqual(s: seq<UniChar>, w: seq<UniChar>)
    requires Dist(s, w) == 0
    ensures s == w
    decreases |s|
  {
    if s != [] && w != [] {
      ZeroDistIsEqual(s[1..], w[1..]);
    }
  }

  // ----- Bounds, and strings that begin alike

  // At least the difference of the lengths, at most the greater length.
  lemma {:induction false} DistBounds(s: seq<UniChar>, w: seq<UniChar>)
    ensures |s| <= |w| + Dist(s, w) && |w| <= |s| + Dist(s, w)
    ensures Dist(s, w) <= |s| || Dist(s, w) <= |w|
    decreases |s| + |w|
  {
    hide Dist;
    if s == [] || w == [] {
      EmptyDist(s);
      EmptyDist(w);
    } else {
      LeastOption(s, w);
      NoOptionIsLess(s, w);
      DistBounds(s[1..], w);
      DistBounds(s, w[1..]);
      DistBounds(s[1..], w[1..]);
      if SwapsAtFront(s, w) {
        DistBounds(s[2..], w[2..]);
      }
    }
  }

  // A common beginning plays no role.
  lemma {:induction false} DistBehind(pad: seq<UniChar>, s: seq<UniChar>, w: seq<UniChar>)
    ensures Dist(pad + s, pad + w) == Dist(s, w)
  {
    if pad == [] {
      assert pad + s == s && pad + w == w;
    } else {
      assert (pad + s)[1..] == pad[1..] + s && (pad + w)[1..] == pad[1..] + w;
      GreedyMatch(pad + s, pad + w);
      DistBehind(pad[1..], s, w);
    }
  }
}
