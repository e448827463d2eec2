/**
 strings::EditDistance: the least number of insertions, deletions and replacements, computed row by
 row with two rows of the table.
 */
module EditDistance {
  import opened EditScripts
  import opened Sequences
  import Osa

  // One cell of the table: the distance between two prefixes, by their last characters.
  function Lev(s: seq<UniChar>, w: seq<UniChar>): nat
    decreases |s| + |w|
  {
    if s == [] then |w|
    else if w == [] then |s|
    else
      var s', w' := s[..|s| - 1], w[..|w| - 1];
      Min(Min(Lev(s, w'), Lev(s', w)) + 1,
          Lev(s', w') + (if s[|s| - 1] == w[|w| - 1] then 0 else 1))
  }

  lemma {:induction false} LevSymmetric(s: seq<UniChar>, w: seq<UniChar>)
    ensures Lev(s, w) == Lev(w, s)
    decreases |s| + |w|
  {
    if s != [] && w != [] {
      var s', w' := s[..|s| - 1], w[..|w| - 1];
      LevSymmetric(s, w');
      LevSymmetric(s', w);
      LevSymmetric(s', w');
    }
  }

  lemma {:induction false} LevIsReached(s: seq<UniChar>, w: seq<UniChar>) returns (es: Script)
    ensures Transforms(es, NoSwaps, s, w) && Cost(es) == Lev(s, w)
    decreases |s| + |w|
  {
    hide Lev;
    if s == [] && w == [] {
      es := [];
      EmptyLev();
    } else {
      hide Transforms, Cost;
      var e: Edit, s', w' := LastStep(s, w);
      assert Uses([e], NoSwaps);
      var init := LevIsReached(s', w');
      ExtendBack(init, e, NoSwaps, s', w');
      es := init + [e];
    }
  }

  lemma EmptyLev()
    ensures Lev([], []) == 0
  {
  }

  lemma LastStep(s: seq<UniChar>, w: seq<UniChar>) returns (e: Edit, s': seq<UniChar>, w': seq<UniChar>)
    requires s != [] || w != []
    ensures s == s' + e.Before() && w == w' + e.After() && !e.Swap?
    ensures Lev(s, w) == Lev(s', w') + e.Price()
    ensures |s'| + |w'| < |s| + |w|
  {
    if w == [] || (s != [] && Lev(s, w) == Lev(s[..|s| - 1], w) + 1) {
      e, s', w' := Delete(s[|s| - 1]), s[..|s| - 1], w;
    } else if s == [] || Lev(s, w) == Lev(s, w[..|w| - 1]) + 1 {
      e, s', w' := Insert(w[|w| - 1]), s, w[..|w| - 1];
    } else {
      var c, d := s[|s| - 1], w[|w| - 1];
      e, s', w' := if c == d then Keep(c) else Replace(c, d), s[..|s| - 1], w[..|w| - 1];
    }
  }

  lemma {:induction false} LevIsLeast(es: Script)
    requires Uses(es, NoSwaps)
    ensures Lev(Source(es), Target(es)) <= Cost(es)
  {
    if es == [] {
    } else {
      var init, e := es[..|es| - 1], es[|es| - 1];
      assert es == init + [e];
      LevIsLeast(init);
      ScriptPush(init, e);
      LevOfEdit(e, Source(init), Target(init));
    }
  }

  // One more edit at the end adds at most its price.
  lemma LevOfEdit(e: Edit, s: seq<UniChar>, w: seq<UniChar>)
    requires !e.Swap?
    ensures Lev(s + e.Before(), w + e.After()) <= Lev(s, w) + e.Price()
  {
    var s', w' := s + e.Before(), w + e.After();
    match e
    case Keep(c) => assert s'[..|s|] == s && w'[..|w|] == w;
    case Insert(c) => assert s' == s && w'[..|w|] == w;
    case Delete(c) => assert s'[..|s|] == s && w' == w;
    case Replace(c, d) => assert s'[..|s|] == s && w'[..|w|] == w;
  }

  lemma LevIsTheDistance(s: seq<UniChar>, w: seq<UniChar>)
    ensures IsDistance(Lev(s, w), NoSwaps, s, w)
  {
    var es := LevIsReached(s, w);
    forall es | Transforms(es, NoSwaps, s, w)
      ensures Lev(s, w) <= Cost(es)
    {
      LevIsLeast(es);
    }
  }

  // Allowing swaps as well never makes two words further apart.
  lemma SwapsOnlyHelp(s: seq<UniChar>, w: seq<UniChar>)
    ensures Osa.Dist(s, w) <= Lev(s, w)
  {
    LevIsTheDistance(s, w);
    Osa.DistIsTheDistance(s, w);
    MoreEditsHelp(Lev(s, w), Osa.Dist(s, w), NoSwaps, s, w);
  }

  lemma DistanceSymmetric(d: nat, s: seq<UniChar>, w: seq<UniChar>)
    requires IsDistance(d, NoSwaps, w, s)
    ensures IsDistance(d, NoSwaps, s, w)
  {
    LevIsTheDistance(w, s);
    LevIsTheDistance(s, w);
    LevSymmetric(s, w);
    DistanceUnique(d, Lev(w, s), NoSwaps, w, s);
  }

  // The first n cells of the row of the table that belongs to the prefix s.
  ghost predicate IsRow(row: seq<nat>, n: nat, s: seq<UniChar>, w: seq<UniChar>) {
    n <= |row| == |w| + 1 && forall b :: 0 <= b < n ==> row[b] == Lev(s, w[..b])
  }

  lemma FirstCells(s: seq<UniChar>, w: seq<UniChar>)
    ensures Lev(s, w[..0]) == |s| && Lev([], w) == |w|
  {
  }

  // One cell from its three neighbours.
  lemma NextCell(s: seq<UniChar>, w: seq<UniChar>, i: nat, j: nat)
    requires 0 < i <= |s| && 0 < j <= |w|
    ensures Lev(s[..i], w[..j]) ==
            Min(Min(Lev(s[..i], w[..j - 1]), Lev(s[..i - 1], w[..j])) + 1,
                Lev(s[..i - 1], w[..j - 1]) + (if s[i - 1] == w[j - 1] then 0 else 1))
  {
    assert s[..i][..i - 1] == s[..i - 1] && w[..j][..j - 1] == w[..j - 1];
  }

  method Compute(s: seq<UniChar>, w: seq<UniChar>) returns (d: nat)
    ensures IsDistance(d, NoSwaps, s, w)
    decreases |s| < |w|
  {
    hide Lev, IsDistance;
    var n, m := |s|, |w|;
    if m > n {
      d := Compute(w, s);
      DistanceSymmetric(d, s, w);
      return;
    }
    var prev, curr := new nat[m + 1], new nat[m + 1];
    for j := 0 to m + 1
      invariant IsRow(prev[..], j, [], w)
    {
      FirstCells([], w[..j]);
      prev[j] := j;
    }
    assert s[..0] == [];
    for i := 1 to n + 1
      invariant fresh(prev) && fresh(curr) && prev != curr && curr.Length == m + 1
      invariant IsRow(prev[..], m + 1, s[..i - 1], w)
    {
      FirstCells(s[..i], w);
      curr[0] := i;
      var c1 := s[i - 1];
      for j := 1 to m + 1
        invariant IsRow(prev[..], m + 1, s[..i - 1], w)
        invariant IsRow(curr[..], j, s[..i], w)
      {
        var c2 := w[j - 1];
        NextCell(s, w, i, j);
        curr[j] := Min(curr[j - 1], prev[j]) + 1;
        curr[j] := Min(curr[j], prev[j - 1] + (if c1 == c2 then 0 else 1));
      }
      prev, curr := curr, prev;
    }
    assert s[..n] == s && w[..m] == w;
    LevIsTheDistance(s, w);
    d := prev[m];
  }
}
