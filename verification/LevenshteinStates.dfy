/**
 Positions and states of the Levenshtein automaton: when one position makes another redundant, and
 what State::Normalize leaves of a state.
 */
module LevenshteinStates {

  function AbsDiff(a: nat, b: nat): nat {
    if a > b then a - b else b - a
  }

  datatype Position = Position(offset: nat, errorsLeft: nat, transposed: bool)
  {
    predicate SubsumedBy(rhs: Position) {
      if errorsLeft >= rhs.errorsLeft then false
      else
        var errorsAvail := rhs.errorsLeft - errorsLeft;
        if !transposed && !rhs.transposed then AbsDiff(offset, rhs.offset) <= errorsAvail
        else if !transposed && rhs.transposed then offset == rhs.offset && errorsLeft == 0
        else if transposed && !rhs.transposed then AbsDiff(offset + 1, rhs.offset) <= errorsAvail
        else offset == rhs.offset
    }

    predicate Less(rhs: Position) {
      if offset != rhs.offset then offset < rhs.offset
      else if errorsLeft != rhs.errorsLeft then errorsLeft < rhs.errorsLeft
      else !transposed && rhs.transposed
    }
  }

  // The contents of a state; it serves as the key of the table of visited states.
  type Positions = seq<Position>

  ghost function Elems(ps: Positions): set<Position> {
    set p | p in ps
  }

  ghost predicate StrictlySorted(ps: Positions) {
    forall i, j :: 0 <= i < j < |ps| ==> ps[i].Less(ps[j])
  }

  // What is left when every position is dropped that some other one makes redundant.
  ghost function Maximal(ps: set<Position>): set<Position> {
    set p | p in ps && forall q | q in ps :: !p.SubsumedBy(q)
  }

  // Some position of live makes p redundant.
  ghost predicate Covered(p: Position, live: Positions) {
    exists q :: q in live && p.SubsumedBy(q)
  }

  lemma SubsumptionIsTransitive(p: Position, q: Position, r: Position)
    requires p.SubsumedBy(q) && q.SubsumedBy(r)
    ensures p.SubsumedBy(r)
  {
  }

  // ----- The one strictly sorted sequence with given elements

  ghost predicate IsLeast(m: Position, ps: set<Position>) {
    m in ps && forall q | q in ps :: q == m || m.Less(q)
  }

  lemma {:induction false} LeastExists(ps: set<Position>) returns (m: Position)
    requires ps != {}
    ensures IsLeast(m, ps)
  {
    var x :| x in ps;
    var rest := ps - {x};
    assert forall q | q in ps :: q == x || q in rest;
    m := x;
    if rest != {} {
      var y := LeastExists(rest);
      assert y in ps;
      if y.Less(x) {
        m := y;
      }
    }
  }

  ghost function Canon(ps: set<Position>): (r: Positions)
    ensures StrictlySorted(r) && Elems(r) == ps
  {
    if ps == {} then []
    else
      assert exists m :: IsLeast(m, ps) by {
        var m := LeastExists(ps);
      }
      var m :| IsLeast(m, ps);
      var r := Canon(ps - {m});
      assert forall i :: 0 <= i < |r| ==> r[i] in Elems(r);
      assert Elems([m] + r) == {m} + Elems(r);
      [m] + r
  }

  lemma {:induction false} SortedIsUnique(a: Positions, b: Positions)
    requires StrictlySorted(a) && StrictlySorted(b) && Elems(a) == Elems(b)
    ensures a == b
  {
    assert a != [] ==> a[0] in Elems(a);
    assert b != [] ==> b[0] in Elems(b);
    if a != [] {
      assert a[0] in b && b[0] in a;
      assert a[0] == b[0];
      var a', b' := a[1..], b[1..];
      assert a[0] !in a' && b[0] !in b';
      assert a == [a[0]] + a' && b == [b[0]] + b';
      assert Elems(a) == {a[0]} + Elems(a') && Elems(b) == {b[0]} + Elems(b');
      assert Elems(a') == Elems(a) - {a[0]};
      assert Elems(b') == Elems(b) - {b[0]};
      SortedIsUnique(a', b');
    }
  }

  lemma InsertSorted(r: Positions, p: Position, i: nat)
    requires StrictlySorted(r) && i <= |r| && (i < |r| ==> !r[i].Less(p) && r[i] != p)
    requires forall h :: 0 <= h < i ==> r[h].Less(p)
    ensures StrictlySorted(r[..i] + [p] + r[i..]) && Elems(r[..i] + [p] + r[i..]) == Elems(r) + {p}
  {
    var r' := r[..i] + [p] + r[i..];
    assert r == r[..i] + r[i..];
    forall h | i <= h < |r|
      ensures p.Less(r[h])
    {
      assert h > i ==> r[i].Less(r[h]);
    }
    LessBetween(r, p, i);
  }

  lemma LessBetween(r: Positions, p: Position, i: nat)
    requires StrictlySorted(r) && i <= |r|
    requires (forall h :: 0 <= h < i ==> r[h].Less(p)) && forall h :: i <= h < |r| ==> p.Less(r[h])
    ensures StrictlySorted(r[..i] + [p] + r[i..])
  {
    var r' := r[..i] + [p] + r[i..];
    forall h, m | 0 <= h < m < |r'|
      ensures r'[h].Less(r'[m])
    {
      assert r'[h] == if h < i then r[h] else if h == i then p else r[h - 1];
      assert r'[m] == if m < i then r[m] else if m == i then p else r[m - 1];
    }
  }

  // Sorting and removal of repetitions; stands for the library call in base::SortUnique.
  method SortUnique(ps: Positions) returns (r: Positions)
    ensures r == Canon(Elems(ps))
  {
    r := [];
    assert Elems(ps[..0]) == {};
    for k := 0 to |ps|
      invariant StrictlySorted(r) && Elems(r) == Elems(ps[..k])
    {
      var p := ps[k];
      assert ps[..k + 1] == ps[..k] + [p];
      var i := 0;
      while i < |r| && r[i].Less(p)
        invariant 0 <= i <= |r|
        invariant forall h :: 0 <= h < i ==> r[h].Less(p)
      {
        i := i + 1;
      }
      if i == |r| || r[i] != p {
        InsertSorted(r, p, i);
        r := r[..i] + [p] + r[i..];
      }
    }
    assert ps[..|ps|] == ps;
    SortedIsUnique(r, Canon(Elems(ps)));
  }

  class State {
    var positions: Positions

    constructor ()
      ensures positions == []
    {
      positions := [];
    }

    method Clear()
      modifies this
      ensures positions == []
    {
      positions := [];
    }

    // Keeps exactly the positions that no position of the state subsumes, sorted, each once.
    method Normalize()
      modifies this
      ensures positions == Canon(Maximal(Elems(old(positions))))
    {
      var i, j := 0, |positions|;
      while i < j
        invariant 0 <= i <= j <= |positions|
        invariant Elems(positions) == Elems(old(positions))
        invariant forall k :: 0 <= k < i ==> !Covered(positions[k], positions[..j])
        invariant forall k :: j <= k < |positions| ==> Covered(positions[k], positions[..j])
        decreases j - i
      {
        var cur := positions[i];
        var m := FindSubsumer(cur, j);
        if m != j {
          j := j - 1;
          ghost var before := positions;
          positions := positions[i := positions[j]][j := positions[i]];
          SwappedOut(before, positions, i, j, m);
        } else {
          i := i + 1;
        }
      }
      Survivors(positions, j);
      positions := positions[..j];
      positions := SortUnique(positions);
    }

    method FindSubsumer(cur: Position, j: nat) returns (m: nat)
      requires j <= |positions|
      ensures m <= j
      ensures m < j ==> cur.SubsumedBy(positions[m])
      ensures forall k :: 0 <= k < m ==> !cur.SubsumedBy(positions[k])
    {
      m := 0;
      while m < j && !cur.SubsumedBy(positions[m])
        invariant m <= j
        invariant forall k :: 0 <= k < m ==> !cur.SubsumedBy(positions[k])
      {
        m := m + 1;
      }
    }
  }

  // One exchange of Normalize: the subsumed position at i goes behind the end j of the live part.
  lemma SwappedOut(before: Positions, after: Positions, i: nat, j: nat, m: nat)
    requires i <= j < |before| && m <= j
    requires before[i].SubsumedBy(before[m])
    requires after == before[i := before[j]][j := before[i]]
    requires forall k :: j < k < |before| ==> Covered(before[k], before[..j + 1])
    ensures Elems(after) == Elems(before)
    ensures forall q :: q in after[..j] ==> q in before[..j + 1]
    ensures forall k :: j <= k < |after| ==> Covered(after[k], after[..j])
  {
    forall p
      ensures p in after <==> p in before
    {
      if p in before {
        var k :| 0 <= k < |before| && before[k] == p;
        assert after[if k == i then j else if k == j then i else k] == p;
      }
    }
    forall q | q in before[..j + 1]
      ensures q == before[i] || q in after[..j]
    {
      var k :| 0 <= k <= j && before[k] == q;
      if k != i {
        assert after[..j][if k == j then i else k] == q;
      }
    }
    assert before[m] in before[..j + 1];
    assert before[m] in after[..j];
    forall k | j <= k < |after|
      ensures Covered(after[k], after[..j])
    {
      if k > j {
        var q :| q in before[..j + 1] && before[k].SubsumedBy(q);
        if q == before[i] {
          SubsumptionIsTransitive(before[k], q, before[m]);
        }
      }
    }
  }

  lemma Survivors(ps: Positions, j: nat)
    requires j <= |ps|
    requires forall k :: 0 <= k < j ==> !Covered(ps[k], ps[..j])
    requires forall k :: j <= k < |ps| ==> Covered(ps[k], ps[..j])
    ensures Elems(ps[..j]) == Maximal(Elems(ps))
  {
    forall p | p in ps[..j]
      ensures p in Maximal(Elems(ps))
    {
      var k :| 0 <= k < j && ps[k] == p;
      forall q | q in ps
        ensures !p.SubsumedBy(q)
      {
        var h :| 0 <= h < |ps| && ps[h] == q;
        if h < j {
          assert ps[..j][h] == q;
        } else if p.SubsumedBy(q) {
          var r :| r in ps[..j] && ps[h].SubsumedBy(r);
          SubsumptionIsTransitive(p, q, r);
        }
      }
    }
    forall p | p in Maximal(Elems(ps))
      ensures p in ps[..j]
    {
      var k :| 0 <= k < |ps| && ps[k] == p;
      if k < j {
        assert ps[..j][k] == p;
      }
    }
  }
}
