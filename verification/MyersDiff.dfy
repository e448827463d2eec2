/**
 diff::DiffMyersSimple: the least number of single elements to insert and delete, found by following
 the furthest points that d edits can reach on every diagonal of the edit grid.
 */
module MyersDiff {
  import opened EditScripts

  // ----- The grid, continued beyond both ends with elements that match nothing

  predicate Match(a: seq<nat>, b: seq<nat>, x: nat, y: nat) {
    x < |a| && y < |b| && a[x] == b[y]
  }

  // The length of the longest common subsequence of the first x and the first y elements.
  ghost function Common(a: seq<nat>, b: seq<nat>, x: nat, y: nat): (l: nat)
    ensures l <= x && l <= y
    decreases x + y
  {
    if x == 0 || y == 0 then 0
    else if Match(a, b, x - 1, y - 1) then Common(a, b, x - 1, y - 1) + 1
    else
      var l, m := Common(a, b, x - 1, y), Common(a, b, x, y - 1);
      if l > m then l else m
  }

  // The edits between the first x and the first y elements.
  ghost function Edits(a: seq<nat>, b: seq<nat>, x: nat, y: nat): nat {
    x + y - 2 * Common(a, b, x, y)
  }

  lemma {:induction false} CommonGrows(a: seq<nat>, b: seq<nat>, x: nat, y: nat)
    ensures Common(a, b, x, y) <= Common(a, b, x + 1, y) <= Common(a, b, x, y) + 1
    ensures Common(a, b, x, y) <= Common(a, b, x, y + 1) <= Common(a, b, x, y) + 1
    decreases x + y
  {
    if y > 0 {
      CommonGrows(a, b, x, y - 1);
    }
    if x > 0 {
      CommonGrows(a, b, x - 1, y);
    }
  }

  lemma DiagonalGrows(a: seq<nat>, b: seq<nat>, x: nat, y: nat)
    ensures Common(a, b, x, y) <= Common(a, b, x + 1, y + 1) <= Common(a, b, x, y) + 1
  {
    CommonGrows(a, b, x, y);
    CommonGrows(a, b, x, y + 1);
  }

  // Nothing beyond the ends has anything in common.
  lemma {:induction false} BeyondTheEnd(a: seq<nat>, b: seq<nat>, y: nat)
    ensures Common(a, b, |a| + 1, y) == Common(a, b, |a|, y)
  {
    if y > 0 {
      BeyondTheEnd(a, b, y - 1);
      CommonGrows(a, b, |a|, y - 1);
    }
  }

  // ----- The edits counted are the price of the cheapest script

  lemma {:induction false} CheapestScript(a: seq<nat>, b: seq<nat>, x: nat, y: nat) returns (es: Script)
    requires x <= |a| && y <= |b|
    ensures Transforms(es, IndelsOnly, a[..x], b[..y]) && Cost(es) == Edits(a, b, x, y)
    decreases x + y
  {
    hide Source, Target, Cost;
    var e: Edit;
    if x == 0 && y == 0 {
      es := [];
      assert Transforms(es, IndelsOnly, a[..0], b[..0]) && Cost(es) == 0 by { EmptyScript(a, b); }
      return;
    } else if x == 0 {
      es := CheapestScript(a, b, 0, y - 1);
      e := Insert(b[y - 1]);
    } else if y == 0 {
      es := CheapestScript(a, b, x - 1, 0);
      e := Delete(a[x - 1]);
    } else if Match(a, b, x - 1, y - 1) {
      es := CheapestScript(a, b, x - 1, y - 1);
      e := Keep(a[x - 1]);
    } else if Common(a, b, x - 1, y) > Common(a, b, x, y - 1) {
      es := CheapestScript(a, b, x - 1, y);
      e := Delete(a[x - 1]);
    } else {
      es := CheapestScript(a, b, x, y - 1);
      e := Insert(b[y - 1]);
    }
    assert x > 0 ==> a[..x] == a[..x - 1] + [a[x - 1]];
    assert y > 0 ==> b[..y] == b[..y - 1] + [b[y - 1]];
    PushEdit(es, e);
    es := es + [e];
  }

  lemma EmptyScript(a: seq<nat>, b: seq<nat>)
    ensures Transforms([], IndelsOnly, a[..0], b[..0]) && Cost([]) == 0
  {
    assert a[..0] == [] && b[..0] == [];
  }

  lemma PushEdit(es: Script, e: Edit)
    requires Uses(es, IndelsOnly) && !e.Swap? && !e.Replace?
    ensures Uses(es + [e], IndelsOnly) && Cost(es + [e]) == Cost(es) + e.Price()
    ensures Source(es + [e]) == Source(es) + e.Before() && Target(es + [e]) == Target(es) + e.After()
  {
    ScriptPush(es, e);
    assert forall f | f in es + [e] :: f in es || f == e;
  }

  // The last edit of a script, and the script before it.
  lemma PopEdit(es: Script, kind: Kind) returns (es': Script, e: Edit)
    requires es != [] && Uses(es, kind)
    ensures |es'| < |es| && Uses(es', kind) && (kind == IndelsOnly ==> !e.Swap? && !e.Replace?)
    ensures Source(es) == Source(es') + e.Before() && Target(es) == Target(es') + e.After()
    ensures Cost(es) == Cost(es') + e.Price()
  {
    es', e := es[..|es| - 1], es[|es| - 1];
    assert es == es' + [e];
    ScriptPush(es', e);
  }

  lemma {:induction false} NoCheaperScript(a: seq<nat>, b: seq<nat>, x: nat, y: nat, es: Script)
    requires x <= |a| && y <= |b| && Transforms(es, IndelsOnly, a[..x], b[..y])
    ensures Edits(a, b, x, y) <= Cost(es)
    decreases |es|
  {
    hide Source, Target, Cost;
    if es == [] {
      EmptyScript(a, b);
      assert |a[..x]| == 0 && |b[..y]| == 0;
    } else {
      var es', e := PopEdit(es, IndelsOnly);
      match e
      case Keep(c) =>
        LastOf(a, x, Source(es'), c);
        LastOf(b, y, Target(es'), c);
        NoCheaperScript(a, b, x - 1, y - 1, es');
      case Insert(c) =>
        LastOf(b, y, Target(es'), c);
        NoCheaperScript(a, b, x, y - 1, es');
        CommonGrows(a, b, x, y - 1);
      case Delete(c) =>
        LastOf(a, x, Source(es'), c);
        NoCheaperScript(a, b, x - 1, y, es');
        CommonGrows(a, b, x - 1, y);
    }
  }

  lemma LastOf(a: seq<nat>, x: nat, front: seq<nat>, c: nat)
    requires x <= |a| && a[..x] == front + [c]
    ensures x > 0 && a[x - 1] == c && a[..x - 1] == front
  {
    assert (front + [c])[|front|] == c;
    assert a[..x - 1] == a[..x][..x - 1] == front;
  }

  lemma EditsIsTheDistance(a: seq<nat>, b: seq<nat>)
    ensures IsDistance(Edits(a, b, |a|, |b|), IndelsOnly, a, b)
  {
    assert a[..|a|] == a && b[..|b|] == b;
    var es := CheapestScript(a, b, |a|, |b|);
    forall es | Transforms(es, IndelsOnly, a, b)
      ensures Edits(a, b, |a|, |b|) <= Cost(es)
    {
      NoCheaperScript(a, b, |a|, |b|, es);
    }
  }

  // ----- Furthest points

  // On diagonal k the points up to (x, x - k), and no others, can be reached with d edits.
  ghost predicate Furthest(a: seq<nat>, b: seq<nat>, d: nat, k: int, x: int) {
    && x >= 0 && x - k >= 0
    && Edits(a, b, x, x - k) <= d < Edits(a, b, x + 1, x + 1 - k)
  }

  lemma {:induction false} ReachableIsClosed(a: seq<nat>, b: seq<nat>, x: nat, y: nat, n: nat)
    ensures Edits(a, b, x, y) <= Edits(a, b, x + n, y + n)
  {
    if n > 0 {
      ReachableIsClosed(a, b, x, y, n - 1);
      DiagonalGrows(a, b, x + n - 1, y + n - 1);
    }
  }

  // No point beyond the furthest one can be reached.
  lemma NoneFurther(a: seq<nat>, b: seq<nat>, d: nat, k: int, x: int, x': nat)
    requires Furthest(a, b, d, k, x) && x' - k >= 0 && Edits(a, b, x', x' - k) <= d
    ensures x' <= x
  {
    if x' > x {
      ReachableIsClosed(a, b, x + 1, x + 1 - k, x' - (x + 1));
    }
  }

  lemma AtLeastTheDiagonal(a: seq<nat>, b: seq<nat>, x: nat, y: nat)
    ensures Edits(a, b, x, y) >= x - y && Edits(a, b, x, y) >= y - x
    ensures exists h :: Edits(a, b, x, y) == x - y + 2 * h
  {
    assert Edits(a, b, x, y) == x - y + 2 * (y - Common(a, b, x, y));
  }

  // Where a round starts on diagonal k: one edit behind the better of its two neighbours.
  ghost predicate IsStart(d: int, k: int, left: int, right: int, x: int) {
    if k == -d || (k != d && left < right) then x == right else x == left + 1
  }

  lemma StartIsReachable(a: seq<nat>, b: seq<nat>, d: int, k: int, left: int, right: int, x: int)
    requires d > 0 && -d <= k <= d && IsStart(d, k, left, right, x)
    requires k != -d ==> Furthest(a, b, d - 1, k - 1, left)
    requires k != d ==> Furthest(a, b, d - 1, k + 1, right)
    ensures x >= 0 && x - k >= 0 && Edits(a, b, x, x - k) <= d
  {
    hide Common;
    if x == right && k != d {
      CommonGrows(a, b, x, x - k - 1);
    } else {
      CommonGrows(a, b, x - 1, x - k);
    }
  }

  lemma NoMatch(a: seq<nat>, b: seq<nat>, x: nat, y: nat)
    requires !Match(a, b, x, y)
    ensures Edits(a, b, x + 1, y + 1) == 1 + Edits(a, b, x, y + 1) || Edits(a, b, x + 1, y + 1) == 1 + Edits(a, b, x + 1, y)
  {
    hide Match;
  }

  // Behind the matches that follow the start nothing more can be reached.
  lemma SnakeIsFurthest(a: seq<nat>, b: seq<nat>, d: int, k: int, left: int, right: int, start: int, x: int)
    requires d > 0 && -d <= k <= d && IsStart(d, k, left, right, start) && 0 <= start <= x && x - k >= 0
    requires k != -d ==> Furthest(a, b, d - 1, k - 1, left)
    requires k != d ==> Furthest(a, b, d - 1, k + 1, right)
    requires Edits(a, b, x, x - k) <= d && !Match(a, b, x, x - k)
    ensures Furthest(a, b, d, k, x)
  {
    hide Common, Edits, Match;
    var y := x - k;
    NoMatch(a, b, x, y);
    AtLeastTheDiagonal(a, b, x, y + 1);
    AtLeastTheDiagonal(a, b, x + 1, y);
    if Edits(a, b, x, y + 1) <= d - 1 {
      NoneFurther(a, b, d - 1, k - 1, left, x);
    }
    if Edits(a, b, x + 1, y) <= d - 1 {
      NoneFurther(a, b, d - 1, k + 1, right, x + 1);
    }
  }

  lemma FirstSnake(a: seq<nat>, b: seq<nat>, x: nat)
    requires Edits(a, b, x, x) == 0 && !Match(a, b, x, x)
    ensures Furthest(a, b, 0, 0, x)
  {
    AtLeastTheDiagonal(a, b, x, x + 1);
    AtLeastTheDiagonal(a, b, x + 1, x);
  }

  lemma Snake(a: seq<nat>, b: seq<nat>, x: nat, y: nat)
    requires Match(a, b, x, y)
    ensures Edits(a, b, x + 1, y + 1) == Edits(a, b, x, y)
  {
  }

  // The end of the grid is the furthest point as soon as it can be reached.
  lemma EndIsFurthest(a: seq<nat>, b: seq<nat>, x: int)
    requires Furthest(a, b, Edits(a, b, |a|, |b|), |a| - |b|, x)
    ensures x == |a|
  {
    NoneFurther(a, b, Edits(a, b, |a|, |b|), |a| - |b|, x, |a|);
    if x > |a| {
      ReachableIsClosed(a, b, |a| + 1, |b| + 1, x - |a| - 1);
      BeyondTheEnd(a, b, |b|);
      BeyondTheEnd(a, b, |b| + 1);
      OtherEnd(a, b, |a|);
    }
  }

  lemma {:induction false} OtherEnd(a: seq<nat>, b: seq<nat>, x: nat)
    ensures Common(a, b, x, |b| + 1) == Common(a, b, x, |b|)
  {
    if x > 0 {
      OtherEnd(a, b, x - 1);
      CommonGrows(a, b, x - 1, |b|);
    }
  }

  // ----- The algorithm

  // After round d, or up to diagonal upto of it, v holds the furthest points at the round's diagonals.
  ghost predicate Round(a: seq<nat>, b: seq<nat>, v: seq<int>, m: nat, d: int, upto: int) {
    forall i :: 0 <= i < |v| && m - d <= i <= m + d && i < m + upto && (i - m + d) % 2 == 0 ==>
      Furthest(a, b, d, i - m, v[i])
  }

  ghost predicate AtEnd(a: seq<nat>, b: seq<nat>, x: int, k: int) {
    x == |a| && x - k == |b|
  }

  ghost predicate NotDone(a: seq<nat>, b: seq<nat>, v: seq<int>, m: nat, d: int, upto: int) {
    forall i :: 0 <= i < |v| && m - d <= i <= m + d && i < m + upto && (i - m + d) % 2 == 0 ==>
      !AtEnd(a, b, v[i], i - m)
  }

  method DiffMyersSimple(a: seq<nat>, b: seq<nat>, maxPatchSize: int) returns (r: int)
    requires maxPatchSize > 0
    ensures r == if Edits(a, b, |a|, |b|) <= maxPatchSize then Edits(a, b, |a|, |b|) else -1
  {
    hide Edits, Furthest, AtEnd, Match, Round, NotDone;
    var m := maxPatchSize;
    var v := new int[2 * m + 1](_ => 0);
    var d := 0;
    NoRound(a, b, v[..], m, -1, 0);
    while d <= m
      invariant 0 <= d <= m + 1 && d <= Edits(a, b, |a|, |b|)
      invariant d == 0 ==> v[m + 1] == 0
      invariant Round(a, b, v[..], m, d - 1, d)
    {
      var k := -d;
      NoRound(a, b, v[..], m, d, k);
      while k <= d
        invariant -d <= k <= d + 2 && (k + d) % 2 == 0
        invariant d == 0 && k == 0 ==> v[m + 1] == 0
        invariant Round(a, b, v[..], m, d - 1, d)
        invariant Round(a, b, v[..], m, d, k) && NotDone(a, b, v[..], m, d, k)
        decreases d - k
      {
        var x := FurthestOn(a, b, v, m, d, k);
        ghost var before := v[..];
        v[m + k] := x;
        if x == |a| && x - k == |b| {
          NotBefore(a, b, d, k, x);
          return d;
        }
        assert v[..] == before[m + k := x];
        OneDiagonalMore(a, b, before, m, d, k, x);
        k := k + 2;
      }
      NotYet(a, b, v[..], m, d, k);
      d := d + 1;
    }
    return -1;
  }

  // The body of the loop over the diagonals.
  method FurthestOn(a: seq<nat>, b: seq<nat>, v: array<int>, m: int, d: int, k: int) returns (x: int)
    requires m > 0 && 0 <= d <= m && v.Length == 2 * m + 1 && -d <= k <= d && (k + d) % 2 == 0
    requires d == 0 ==> v[m + 1] == 0
    requires Round(a, b, v[..], m, d - 1, d)
    ensures Furthest(a, b, d, k, x)
  {
    hide Common, Edits;
    if k == -d || (k != d && v[m + k - 1] < v[m + k + 1]) {
      x := v[m + k + 1];
    } else {
      x := v[m + k - 1] + 1;
    }
    ghost var start := x;
    ghost var left, right := if k == -d then 0 else v[m + k - 1], if k == d then 0 else v[m + k + 1];
    if d == 0 {
      FirstPoint(a, b);
    } else {
      assert k != -d ==> Furthest(a, b, d - 1, k - 1, v[..][m + k - 1]);
      assert k != d ==> Furthest(a, b, d - 1, k + 1, v[..][m + k + 1]);
      StartIsReachable(a, b, d, k, left, right, start);
    }
    while x < |a| && x - k < |b| && a[x] == b[x - k]
      invariant start <= x && x >= 0 && x - k >= 0 && Edits(a, b, x, x - k) <= d
    {
      Snake(a, b, x, x - k);
      x := x + 1;
    }
    if d == 0 {
      FirstSnake(a, b, x);
    } else {
      SnakeIsFurthest(a, b, d, k, left, right, start, x);
    }
  }

  lemma FirstPoint(a: seq<nat>, b: seq<nat>)
    ensures Edits(a, b, 0, 0) == 0
  {
  }

  // Before a round, or before its first diagonal, nothing is claimed.
  lemma NoRound(a: seq<nat>, b: seq<nat>, v: seq<int>, m: nat, d: int, upto: int)
    requires d < 0 || upto <= -d
    ensures Round(a, b, v, m, d, upto) && NotDone(a, b, v, m, d, upto)
  {
  }

  // The diagonals of the round before are untouched.
  lemma OneDiagonalMore(a: seq<nat>, b: seq<nat>, v: seq<int>, m: nat, d: int, k: int, x: int)
    requires 0 <= d <= m && |v| == 2 * m + 1 && -d <= k <= d && (k + d) % 2 == 0
    requires Round(a, b, v, m, d - 1, d) && Round(a, b, v, m, d, k) && NotDone(a, b, v, m, d, k)
    requires Furthest(a, b, d, k, x) && !(x == |a| && x - k == |b|)
    ensures var v' := v[m + k := x];
            && Round(a, b, v', m, d - 1, d) && Round(a, b, v', m, d, k + 2) && NotDone(a, b, v', m, d, k + 2)
  {
    hide Furthest;
    var v' := v[m + k := x];
    forall i | 0 <= i < |v'| && m - d <= i <= m + d && i < m + k + 2 && (i - m + d) % 2 == 0
      ensures Furthest(a, b, d, i - m, v'[i]) && !AtEnd(a, b, v'[i], i - m)
    {
      if i != m + k {
        assert i < m + k && v'[i] == v[i];
      }
    }
    forall i | 0 <= i < |v'| && m - (d - 1) <= i <= m + (d - 1) && i < m + d && (i - m + (d - 1)) % 2 == 0
      ensures Furthest(a, b, d - 1, i - m, v'[i])
    {
      assert i != m + k && v'[i] == v[i];
    }
  }

  lemma NotBefore(a: seq<nat>, b: seq<nat>, d: nat, k: int, x: int)
    requires Furthest(a, b, d, k, x) && x == |a| && x - k == |b| && d <= Edits(a, b, |a|, |b|)
    ensures d == Edits(a, b, |a|, |b|)
  {
  }

  // A round that has not found the end shows that it takes more edits.
  lemma NotYet(a: seq<nat>, b: seq<nat>, v: seq<int>, m: nat, d: nat, upto: int)
    requires |v| == 2 * m + 1 && d <= m && d < upto && d <= Edits(a, b, |a|, |b|)
    requires Round(a, b, v, m, d, upto) && NotDone(a, b, v, m, d, upto)
    ensures d < Edits(a, b, |a|, |b|) && Round(a, b, v, m, d, d + 1)
  {
    hide Common, Edits, Furthest;
    if d == Edits(a, b, |a|, |b|) {
      var k := |a| - |b|;
      AtLeastTheDiagonal(a, b, |a|, |b|);
      var i := m + k;
      assert Furthest(a, b, d, i - m, v[i]) && !AtEnd(a, b, v[i], i - m);
      EndIsFurthest(a, b, v[i]);
    }
  }

  // The result is the least number of elements to insert and delete, when there are no more than allowed.
  method MinimalPatch(a: seq<nat>, b: seq<nat>, maxPatchSize: int) returns (r: int)
    requires maxPatchSize > 0
    ensures r == -1 || (0 <= r <= maxPatchSize && IsDistance(r, IndelsOnly, a, b))
    ensures r == -1 ==> forall es :: Transforms(es, IndelsOnly, a, b) ==> Cost(es) > maxPatchSize
  {
    r := DiffMyersSimple(a, b, maxPatchSize);
    EditsIsTheDistance(a, b);
  }
}
