/**
 The least total cost of a prefix-free code.  Code lengths are only constrained by Kraft's inequality,
 so the bound holds for binary trees of any shape and for every other uniquely decodable code.
 */
module Kraft {
  import opened Bits

  // ----- Weights

  ghost function Least(m: multiset<nat>): (x: nat)
    requires |m| > 0
    ensures x in m && forall y | y in m :: x <= y
  {
    var x :| x in m;
    LeastExists(m, x);
    var y :| y in m && forall z | z in m :: y <= z;
    y
  }

  lemma {:induction false} LeastExists(m: multiset<nat>, x: nat)
    requires x in m
    ensures exists y :: y in m && forall z | z in m :: y <= z
    decreases x
  {
    if z :| z in m && z < x {
      LeastExists(m, z);
    }
  }

  // The least weight that remains when the least one is taken away.
  ghost function SecondLeast(m: multiset<nat>): nat
    requires |m| >= 2
  {
    Least(m - multiset{Least(m)})
  }

  ghost function MergedWeight(m: multiset<nat>): nat
    requires |m| >= 2
  {
    Least(m) + SecondLeast(m)
  }

  // The weights after the two least ones are merged.
  ghost function Merged(m: multiset<nat>): (r: multiset<nat>)
    requires |m| >= 2
    ensures |r| == |m| - 1
  {
    m - multiset{Least(m)} - multiset{SecondLeast(m)} + multiset{MergedWeight(m)}
  }

  // The sum of all merges when the two least weights are merged until one is left.
  ghost function GreedyCost(m: multiset<nat>): nat
    decreases |m|
  {
    if |m| <= 1 then 0 else MergedWeight(m) + GreedyCost(Merged(m))
  }

  // ----- Code lengths

  ghost predicate IsTop(ds: seq<nat>, top: nat) {
    forall i :: 0 <= i < |ds| ==> ds[i] <= top
  }

  // Each length d uses 2^(top - d) of the 2^top codes of length top.
  ghost function Used(ds: seq<nat>, top: nat): nat
    requires IsTop(ds, top)
  {
    if ds == [] then 0 else Pow2(top - ds[0]) + Used(ds[1..], top)
  }

  function Total(ws: seq<nat>, ds: seq<nat>): nat
    requires |ws| == |ds|
  {
    if ws == [] then 0 else ws[0] * ds[0] + Total(ws[1..], ds[1..])
  }

  function Sum(ds: seq<nat>): nat {
    if ds == [] then 0 else ds[0] + Sum(ds[1..])
  }

  // Kraft's inequality.
  ghost predicate FitsCode(ds: seq<nat>, top: nat) {
    IsTop(ds, top) && Used(ds, top) <= Pow2(top)
  }

  // ----- Changing and removing one entry

  lemma {:induction false} UsedUpdate(ds: seq<nat>, i: nat, d: nat, top: nat)
    requires i < |ds| && IsTop(ds, top) && d <= top
    ensures IsTop(ds[i := d], top)
    ensures Used(ds[i := d], top) == Used(ds, top) - Pow2(top - ds[i]) + Pow2(top - d)
  {
    if i > 0 {
      UsedUpdate(ds[1..], i - 1, d, top);
      assert ds[i := d][1..] == ds[1..][i - 1 := d];
    } else {
      assert ds[i := d][1..] == ds[1..];
    }
  }

  lemma {:induction false} TotalUpdate(ws: seq<nat>, ds: seq<nat>, i: nat, d: nat)
    requires |ws| == |ds| && i < |ds|
    ensures Total(ws, ds[i := d]) == Total(ws, ds) - ws[i] * ds[i] + ws[i] * d
  {
    if i > 0 {
      TotalUpdate(ws[1..], ds[1..], i - 1, d);
      assert ds[i := d][1..] == ds[1..][i - 1 := d];
    } else {
      assert ds[i := d][1..] == ds[1..];
    }
  }

  lemma {:induction false} SumUpdate(ds: seq<nat>, i: nat, d: nat)
    requires i < |ds|
    ensures Sum(ds[i := d]) == Sum(ds) - ds[i] + d
  {
    if i > 0 {
      SumUpdate(ds[1..], i - 1, d);
      assert ds[i := d][1..] == ds[1..][i - 1 := d];
    } else {
      assert ds[i := d][1..] == ds[1..];
    }
  }

  function Without<T>(a: seq<T>, i: nat): seq<T>
    requires i < |a|
  {
    a[..i] + a[i + 1..]
  }

  lemma WithoutFirst(a: seq<nat>, i: nat)
    requires 0 < i < |a|
    ensures Without(a, i) == [a[0]] + Without(a[1..], i - 1)
    ensures Without(a, i)[1..] == Without(a[1..], i - 1)
  {
  }

  lemma UsedFirst(ds: seq<nat>, top: nat)
    requires ds != [] && IsTop(ds, top)
    ensures IsTop(ds[1..], top) && Used(ds, top) == Pow2(top - ds[0]) + Used(ds[1..], top)
  {
  }

  lemma DropFirst(ds: seq<nat>)
    requires ds != []
    ensures Without(ds, 0) == ds[1..]
  {
  }

  lemma {:induction false} UsedWithout(ds: seq<nat>, i: nat, top: nat)
    requires i < |ds| && IsTop(ds, top)
    ensures IsTop(Without(ds, i), top)
    ensures Used(ds, top) == Used(Without(ds, i), top) + Pow2(top - ds[i])
  {
    hide Without, Pow2, Used;
    UsedFirst(ds, top);
    if i > 0 {
      WithoutFirst(ds, i);
      UsedWithout(ds[1..], i - 1, top);
      UsedFirst(Without(ds, i), top);
      assert Without(ds, i)[0] == ds[0];
    } else {
      assert Without(ds, 0) == ds[1..] by { DropFirst(ds); }
    }
  }

  lemma {:induction false} TotalWithout(ws: seq<nat>, ds: seq<nat>, i: nat)
    requires |ws| == |ds| && i < |ds|
    ensures Total(ws, ds) == Total(Without(ws, i), Without(ds, i)) + ws[i] * ds[i]
  {
    if i > 0 {
      WithoutFirst(ds, i);
      WithoutFirst(ws, i);
      TotalWithout(ws[1..], ds[1..], i - 1);
    } else {
      assert Without(ds, 0) == ds[1..] && Without(ws, 0) == ws[1..];
    }
  }

  lemma MultisetWithout<T>(a: seq<T>, i: nat)
    requires i < |a|
    ensures multiset(Without(a, i)) == multiset(a) - multiset{a[i]}
  {
    assert a == a[..i] + [a[i]] + a[i + 1..];
  }

  // ----- The bound

  // No code is cheaper than greedy merging.
  lemma {:induction false} GreedyIsLeast(ws: seq<nat>, ds: seq<nat>, top: nat)
    requires |ws| == |ds| > 0 && FitsCode(ds, top)
    ensures GreedyCost(multiset(ws)) <= Total(ws, ds)
    decreases |ws|, Sum(ds), 2
  {
    if |ws| == 1 {
      assert |multiset(ws)| == 1;
    } else {
      var h := Deepest(ds);
      LowerTop(ds, top, ds[h]);
      DeepEnough(ds, ds[h]);
      if j :| 0 <= j < |ds| && j != h && ds[j] == ds[h] {
        TwoDeepest(ws, ds, ds[h], h, j);
      } else {
        OneDeepest(ws, ds, ds[h], h);
      }
    }
  }

  lemma {:induction false} Deepest(ds: seq<nat>) returns (h: nat)
    requires ds != []
    ensures h < |ds| && forall i :: 0 <= i < |ds| ==> ds[i] <= ds[h]
  {
    if |ds| == 1 {
      h := 0;
    } else {
      var h' := Deepest(ds[1..]);
      h := if ds[0] > ds[1..][h'] then 0 else h' + 1;
      forall i | 0 <= i < |ds|
        ensures ds[i] <= ds[h]
      {
        if i > 0 {
          assert ds[i] == ds[1..][i - 1];
        }
      }
    }
  }

  // The inequality may be stated for the greatest length that occurs.
  lemma {:induction false} LowerTop(ds: seq<nat>, top: nat, top': nat)
    requires FitsCode(ds, top) && IsTop(ds, top') && top' <= top
    ensures FitsCode(ds, top')
  {
    if top' < top {
      UsedDoubles(ds, top - 1);
      LowerTop(ds, top - 1, top');
    }
  }

  lemma {:induction false} UsedDoubles(ds: seq<nat>, top: nat)
    requires IsTop(ds, top)
    ensures IsTop(ds, top + 1) && Used(ds, top + 1) == 2 * Used(ds, top)
  {
    if ds != [] {
      UsedDoubles(ds[1..], top);
    }
  }

  // Two codes cannot both be empty.
  lemma DeepEnough(ds: seq<nat>, top: nat)
    requires |ds| >= 2 && FitsCode(ds, top)
    ensures top > 0
  {
    assert ds[1..] != [];
    assert Used(ds, top) == Pow2(top - ds[0]) + (Pow2(top - ds[1..][0]) + Used(ds[1..][1..], top));
  }

  // A single longest code can be shortened.
  lemma {:induction false} OneDeepest(ws: seq<nat>, ds: seq<nat>, top: nat, h: nat)
    requires |ws| == |ds| >= 2 && FitsCode(ds, top) && top > 0
    requires h < |ds| && ds[h] == top && forall j :: 0 <= j < |ds| && j != h ==> ds[j] < top
    ensures GreedyCost(multiset(ws)) <= Total(ws, ds)
    decreases |ws|, Sum(ds), 1
  {
    hide Used, Total, Sum, GreedyCost;
    var ds' := ds[h := top - 1];
    assert Pow2(top - ds[h]) == 1 && Pow2(top - (top - 1)) == 2 && Pow2(top) == 2 * Pow2(top - 1);
    UsedUpdate(ds, h, top - 1, top);
    TotalUpdate(ws, ds, h, top - 1);
    SumUpdate(ds, h, top - 1);
    assert IsTop(ds', top - 1);
    UsedDoubles(ds', top - 1);
    Cheaper(ws[h], top);
    GreedyIsLeast(ws, ds', top - 1);
  }

  lemma Cheaper(w: nat, d: nat)
    requires d > 0
    ensures w * (d - 1) <= w * d
  {
  }

  // Two longest codes can be given to the two least weights, which are then merged.
  lemma {:induction false} TwoDeepest(ws: seq<nat>, ds: seq<nat>, top: nat, h: nat, j: nat)
    requires |ws| == |ds| >= 2 && FitsCode(ds, top) && top > 0
    requires h < |ds| && j < |ds| && h != j && ds[h] == top && ds[j] == top
    ensures GreedyCost(multiset(ws)) <= Total(ws, ds)
    decreases |ws|, Sum(ds), 1
  {
    var ix, iy := TwoLeast(ws);
    var k := if ds[ix] < top then j else if h != ix then h else j;
    var ds1 := BringDown(ws, ds, top, ix, if ds[ix] < top then h else ix);
    var ds2 := BringDown(ws, ds1, top, iy, k);
    MergeLeast(ws, ds2, top, ix, iy);
  }

  lemma TwoLeast(ws: seq<nat>) returns (ix: nat, iy: nat)
    requires |ws| >= 2
    ensures ix < |ws| && iy < |ws| && ix != iy
    ensures ws[ix] == Least(multiset(ws)) && ws[iy] == SecondLeast(multiset(ws))
    ensures forall i :: 0 <= i < |ws| ==> ws[ix] <= ws[i]
    ensures forall i :: 0 <= i < |ws| && i != ix ==> ws[iy] <= ws[i]
  {
    hide Least, Without;
    ix := LeastIndex(ws);
    WithoutElements(ws, ix);
    var rest := Without(ws, ix);
    MultisetWithout(ws, ix);
    var i := LeastIndex(rest);
    iy := if i < ix then i else i + 1;
    forall h | 0 <= h < |ws| && h != ix
      ensures ws[iy] <= ws[h]
    {
      assert rest[if h < ix then h else h - 1] == ws[h];
    }
  }

  lemma WithoutElements(a: seq<nat>, i: nat)
    requires i < |a|
    ensures |Without(a, i)| == |a| - 1
    ensures forall h :: 0 <= h < |a| && h != i ==> Without(a, i)[if h < i then h else h - 1] == a[h]
    ensures forall h :: 0 <= h < |a| - 1 ==> Without(a, i)[h] == a[if h < i then h else h + 1]
  {
  }

  lemma LeastIndex(ws: seq<nat>) returns (i: nat)
    requires ws != []
    ensures |multiset(ws)| > 0 && i < |ws| && ws[i] == Least(multiset(ws))
    ensures forall h :: 0 <= h < |ws| ==> ws[i] <= ws[h]
  {
    var m := multiset(ws);
    assert ws[0] in m;
    var x := Least(m);
    assert x in ws;
    i :| 0 <= i < |ws| && ws[i] == x;
    forall h | 0 <= h < |ws|
      ensures x <= ws[h]
    {
      assert ws[h] in m;
    }
  }

  // Gives i one of the longest codes, if need be in exchange with a, which is at least as heavy.
  lemma BringDown(ws: seq<nat>, ds: seq<nat>, top: nat, i: nat, a: nat) returns (ds': seq<nat>)
    requires |ws| == |ds| && i < |ds| && a < |ds| && FitsCode(ds, top)
    requires ds[a] == top && (a == i || ws[i] <= ws[a])
    ensures |ds'| == |ds| && FitsCode(ds', top) && ds'[i] == top
    ensures Total(ws, ds') <= Total(ws, ds) && Sum(ds') == Sum(ds)
    ensures forall b :: 0 <= b < |ds| && b != i && b != a ==> ds'[b] == ds[b]
    ensures ds[i] == top ==> ds' == ds
  {
    if ds[i] == top {
      ds' := ds;
    } else {
      var d, mid := ds[i], ds[i := top];
      ds' := mid[a := d];
      UsedUpdate(ds, i, top, top);
      TotalUpdate(ws, ds, i, top);
      SumUpdate(ds, i, top);
      UsedUpdate(mid, a, d, top);
      TotalUpdate(ws, mid, a, d);
      SumUpdate(mid, a, d);
      Exchange(ws[i], ws[a], d, top);
    }
  }

  lemma Exchange(w: nat, v: nat, d: nat, top: nat)
    requires w <= v && d <= top
    ensures w * top + v * d <= w * d + v * top
  {
    assert (v - w) * d <= (v - w) * top;
    assert (v - w) * d == v * d - w * d;
    assert (v - w) * top == v * top - w * top;
  }

  lemma {:induction false} MergeLeast(ws: seq<nat>, ds: seq<nat>, top: nat, ix: nat, iy: nat)
    requires |ws| == |ds| >= 2 && FitsCode(ds, top) && top > 0
    requires ix < |ds| && iy < |ds| && ix != iy && ds[ix] == top && ds[iy] == top
    requires ws[ix] == Least(multiset(ws)) && ws[iy] == SecondLeast(multiset(ws))
    ensures GreedyCost(multiset(ws)) <= Total(ws, ds)
    decreases |ws|, Sum(ds), 0
  {
    hide Used, Total, Least, Pow2, GreedyCost, Without, Sum;
    var x, y := ws[ix], ws[iy];
    var ws', ds' := RemoveTwo(ws, ds, top, ix, iy);
    AddMerged(ws', ds', x + y, top);
    GreedyStep(ws, ws', x, y);
    MergedCost(x, y, top);
    GreedyIsLeast([x + y] + ws', [top - 1] + ds', top);
  }

  lemma {:induction false} GreedyStep(ws: seq<nat>, ws': seq<nat>, x: nat, y: nat)
    requires |ws| >= 2 && x == Least(multiset(ws)) && y == SecondLeast(multiset(ws))
    requires multiset(ws') == multiset(ws) - multiset{x} - multiset{y}
    ensures GreedyCost(multiset(ws)) == x + y + GreedyCost(multiset([x + y] + ws'))
  {
    hide Least, SecondLeast, Merged, MergedWeight;
    MergedIs(ws, ws', x, y);
  }

  lemma MergedIs(ws: seq<nat>, ws': seq<nat>, x: nat, y: nat)
    requires |ws| >= 2 && x == Least(multiset(ws)) && y == SecondLeast(multiset(ws))
    requires multiset(ws') == multiset(ws) - multiset{x} - multiset{y}
    ensures multiset([x + y] + ws') == Merged(multiset(ws)) && MergedWeight(multiset(ws)) == x + y
  {
    hide Least, SecondLeast;
    var m := multiset(ws);
    assert MergedWeight(m) == x + y;
    assert Merged(m) == m - multiset{x} - multiset{y} + multiset{x + y};
    PushMultiset(x + y, ws');
  }

  lemma PushMultiset(w: nat, ws: seq<nat>)
    ensures multiset([w] + ws) == multiset(ws) + multiset{w}
  {
  }

  lemma AddMerged(ws: seq<nat>, ds: seq<nat>, w: nat, top: nat)
    requires |ws| == |ds| && IsTop(ds, top) && top > 0
    ensures IsTop([top - 1] + ds, top) && Used([top - 1] + ds, top) == 2 + Used(ds, top)
    ensures Total([w] + ws, [top - 1] + ds) == w * (top - 1) + Total(ws, ds)
  {
    assert ([top - 1] + ds)[1..] == ds && ([w] + ws)[1..] == ws;
    assert Pow2(1) == 2;
  }

  lemma RemoveTwo(ws: seq<nat>, ds: seq<nat>, top: nat, i: nat, j: nat) returns (ws': seq<nat>, ds': seq<nat>)
    requires |ws| == |ds| && i < |ds| && j < |ds| && i != j && IsTop(ds, top) && ds[i] == top && ds[j] == top
    ensures |ws'| == |ds'| == |ws| - 2 && IsTop(ds', top)
    ensures multiset(ws') == multiset(ws) - multiset{ws[i]} - multiset{ws[j]}
    ensures Used(ds, top) == Used(ds', top) + 2
    ensures Total(ws, ds) == Total(ws', ds') + ws[i] * top + ws[j] * top
  {
    hide Used, Total;
    assert Pow2(0) == 1;
    var j' := if j < i then j else j - 1;
    var ws1, ds1 := Without(ws, i), Without(ds, i);
    UsedWithout(ds, i, top);
    TotalWithout(ws, ds, i);
    MultisetWithout(ws, i);
    assert ds1[j'] == top && ws1[j'] == ws[j];
    ws', ds' := Without(ws1, j'), Without(ds1, j');
    UsedWithout(ds1, j', top);
    TotalWithout(ws1, ds1, j');
    MultisetWithout(ws1, j');
  }

  lemma MergedCost(x: nat, y: nat, top: nat)
    requires top > 0
    ensures x * top + y * top == (x + y) * (top - 1) + (x + y)
  {
  }
}
