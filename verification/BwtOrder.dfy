/**
 The two columns of the Burrows-Wheeler matrix, and why stepping from the first to the last column
 walks through the rows of the text's suffixes in text order.
 */
module BwtOrder {
  import opened Sequences
  import opened SuffixOrder

  // The trailing '$', less than every byte in the matrix.
  const EOS: nat := 256

  ghost predicate IsBytes(s: seq<nat>) {
    forall i :: 0 <= i < |s| ==> s[i] < NUM_BYTES
  }

  // ----- Counting

  ghost function LessSet(s: seq<nat>, c: nat): (r: set<nat>)
    ensures forall i: nat :: i in r <==> i < |s| && s[i] < c
  {
    set i | 0 <= i < |s| && s[i] < c
  }

  ghost function EqualSet(s: seq<nat>, c: nat): (r: set<nat>)
    ensures forall i: nat :: i in r <==> i < |s| && s[i] == c
  {
    set i | 0 <= i < |s| && s[i] == c
  }

  ghost function Image(a: set<nat>, p: seq<nat>): (r: set<nat>)
    requires forall x | x in a :: x < |p|
    ensures forall y :: y in r <==> exists x :: x in a && p[x] == y
  {
    set x | x in a :: p[x]
  }

  lemma {:induction false} ImageSize(a: set<nat>, p: seq<nat>)
    requires Distinct(p) && forall x | x in a :: x < |p|
    ensures |Image(a, p)| == |a|
    decreases |a|
  {
    if a != {} {
      var x :| x in a;
      ImageSize(a - {x}, p);
      assert Image(a, p) == Image(a - {x}, p) + {p[x]};
      assert p[x] !in Image(a - {x}, p);
    }
  }

  lemma LessStep(s: seq<nat>, c: nat)
    ensures |LessSet(s, c + 1)| == |LessSet(s, c)| + |EqualSet(s, c)|
    ensures LessSet(s, 0) == {}
  {
    assert LessSet(s, c + 1) == LessSet(s, c) + EqualSet(s, c);
    assert LessSet(s, c) !! EqualSet(s, c);
  }

  lemma LessAll(s: seq<nat>, c: nat)
    requires forall i :: 0 <= i < |s| ==> s[i] < c
    ensures |LessSet(s, c)| == |s|
  {
    assert LessSet(s, c) == Upto(|s|);
    UptoSize(|s|);
  }

  lemma {:induction false} LessMonotone(s: seq<nat>, c: nat, d: nat)
    requires c <= d
    ensures |LessSet(s, c)| <= |LessSet(s, d)| <= |s|
  {
    SubsetSize(LessSet(s, c), LessSet(s, d));
    assert LessSet(s, d) <= Upto(|s|);
    UptoSize(|s|);
    SubsetSize(LessSet(s, d), Upto(|s|));
  }

  // Rearranging a string does not change how often anything occurs in it.
  lemma Rearranged(s: seq<nat>, t: seq<nat>, p: seq<nat>, c: nat)
    requires |s| == |t| && IsPermutation(p, |t|)
    requires forall i :: 0 <= i < |s| ==> s[i] == t[p[i]]
    ensures |LessSet(s, c)| == |LessSet(t, c)|
    ensures |EqualSet(s, c)| == |EqualSet(t, c)|
  {
    Pigeonhole(p, |t|);
    ImageSize(LessSet(s, c), p);
    ImageSize(EqualSet(s, c), p);
    CoversImage(LessSet(s, c), LessSet(t, c), p);
    CoversImage(EqualSet(s, c), EqualSet(t, c), p);
  }

  lemma CoversImage(a: set<nat>, b: set<nat>, p: seq<nat>)
    requires forall x | x in a :: x < |p| && p[x] in b
    requires forall y | y in b :: y in p
    requires forall x :: 0 <= x < |p| && p[x] in b ==> x in a
    ensures Image(a, p) == b
  {
    forall y | y in b
      ensures y in Image(a, p)
    {
      assert y in p;
      var x :| 0 <= x < |p| && p[x] == y;
      assert x in a;
    }
  }

  // In a sorted string the places of the smaller elements are the first ones.
  lemma SortedPrefix(u: seq<nat>, c: nat, k: nat)
    requires k < |u| && forall i, j :: 0 <= i < j < |u| ==> u[i] <= u[j]
    ensures u[k] < c <==> k < |LessSet(u, c)|
  {
    var a := LessSet(u, c);
    UptoSize(k);
    UptoSize(k + 1);
    if u[k] < c {
      assert Upto(k + 1) <= a;
      SubsetSize(Upto(k + 1), a);
    } else {
      assert a <= Upto(k);
      SubsetSize(a, Upto(k));
    }
  }

  // ----- The first column

  ghost predicate IsStarts(starts: seq<nat>, s: seq<nat>) {
    |starts| == NUM_BYTES && forall c :: 0 <= c < NUM_BYTES ==> starts[c] == |LessSet(s, c)|
  }

  // The index of the first element of a that is greater than x.
  function UpperBound(a: seq<nat>, x: nat): (i: nat)
    ensures i <= |a|
    ensures forall k :: 0 <= k < i ==> a[k] <= x
    ensures i < |a| ==> a[i] > x
  {
    if a == [] || a[0] > x then 0 else 1 + UpperBound(a[1..], x)
  }

  // The character of row i of the first column.
  function FirstAt(starts: seq<nat>, i: nat): nat {
    if i == 0 then EOS
    else
      var ub := UpperBound(starts, i - 1);
      if ub == 0 then 0 else ub - 1
  }

  // The rank of the character of row i among equal characters of the first column.
  function RankAt(starts: seq<nat>, i: nat): nat {
    if i == 0 then 0
    else
      var ub := UpperBound(starts, i - 1);
      if ub == 0 then i - 1 else i - 1 - starts[ub - 1]
  }

  // Row i + 1 holds the character c when i is among the places of c in the sorted bytes.
  lemma FirstColumn(starts: seq<nat>, s: seq<nat>, i: nat, c: nat)
    requires IsStarts(starts, s) && IsBytes(s) && c < NUM_BYTES
    requires |LessSet(s, c)| <= i < |LessSet(s, c + 1)|
    ensures FirstAt(starts, i + 1) == c && RankAt(starts, i + 1) == i - |LessSet(s, c)|
  {
    hide FirstAt, RankAt;
    var ub := UpperBound(starts, i);
    if ub <= c {
      LessMonotone(s, ub, c);
    }
    assert ub == c + 1;
    FirstAtUpperBound(starts, i, c);
  }

  lemma FirstAtUpperBound(starts: seq<nat>, i: nat, c: nat)
    requires UpperBound(starts, i) == c + 1
    ensures FirstAt(starts, i + 1) == c && RankAt(starts, i + 1) == i - starts[c]
  {
  }

  // Every row but the first falls among the places of one byte.
  lemma {:induction false} SomeByte(s: seq<nat>, i: nat, d: nat) returns (c: nat)
    requires i < |LessSet(s, d)|
    ensures c < d && |LessSet(s, c)| <= i < |LessSet(s, c + 1)|
  {
    LessStep(s, 0);
    if i < |LessSet(s, d - 1)| {
      c := SomeByte(s, i, d - 1);
    } else {
      c := d - 1;
    }
  }

  // ----- The last column

  // The character of row i of the last column, with '$' put back after the row of the text itself.
  function LastAt(s: seq<nat>, start: nat, i: nat): nat
    requires start < |s| && i <= |s|
  {
    if i == 0 then s[start] else if i == start + 1 then EOS else s[i - 1]
  }

  // The rows below n that end in c, in order.
  function RowsOf(s: seq<nat>, start: nat, c: nat, n: nat): (rows: seq<nat>)
    requires start < |s| && n <= |s| + 1
    ensures forall k :: 0 <= k < |rows| ==> rows[k] < n && LastAt(s, start, rows[k]) == c
    ensures forall k, l :: 0 <= k < l < |rows| ==> rows[k] < rows[l]
    ensures forall i :: 0 <= i < n && LastAt(s, start, i) == c ==> i in rows
  {
    if n == 0 then []
    else RowsOf(s, start, c, n - 1) + (if LastAt(s, start, n - 1) == c then [n - 1] else [])
  }

  // A byte ends as many rows as it has occurrences.
  lemma RowsCount(s: seq<nat>, start: nat, c: nat)
    requires start < |s| && c < NUM_BYTES
    ensures |RowsOf(s, start, c, |s| + 1)| == |EqualSet(s, c)|
  {
    hide LastAt, RowsOf;
    var rows := RowsOf(s, start, c, |s| + 1);
    var shifted := ShiftedPlaces(s, c);
    var all := RowsAsSet(s, start, c);
    DistinctSize(rows);
    if s[start] == c {
      ReplacedSize(all, shifted, start + 1);
    } else {
      assert all == shifted;
    }
  }

  // Zero in place of x.
  lemma ReplacedSize(a: set<nat>, b: set<nat>, x: nat)
    requires x in b && 0 !in b && forall i: nat :: i in a <==> i == 0 || (i in b && i != x)
    ensures |a| == |b|
  {
    var rest := b - {x};
    assert a == rest + {0};
  }

  lemma RowsAsSet(s: seq<nat>, start: nat, c: nat) returns (all: set<nat>)
    requires start < |s| && c < NUM_BYTES
    ensures all == Elements(RowsOf(s, start, c, |s| + 1))
    ensures forall i: nat :: i in all <==>
              (if i == 0 then s[start] == c else i != start + 1 && i <= |s| && s[i - 1] == c)
  {
    hide RowsOf;
    var rows := RowsOf(s, start, c, |s| + 1);
    all := Elements(rows);
    assert forall i: nat :: i in rows <==> i <= |s| && LastAt(s, start, i) == c;
  }

  lemma ShiftedPlaces(s: seq<nat>, c: nat) returns (r: set<nat>)
    ensures |r| == |EqualSet(s, c)|
    ensures forall i: nat :: i in r <==> 1 <= i <= |s| && s[i - 1] == c
  {
    var shift: seq<nat> := seq(|s|, i requires 0 <= i < |s| => i + 1);
    r := Image(EqualSet(s, c), shift);
    ImageSize(EqualSet(s, c), shift);
    forall i: nat | 1 <= i <= |s| && s[i - 1] == c
      ensures i in r
    {
      assert shift[i - 1] == i && i - 1 in EqualSet(s, c);
    }
  }

  // ----- The walk

  // The row after i steps of the reverse transform from the row of the text.
  ghost function Walk(s: seq<nat>, starts: seq<nat>, start: nat, i: nat): nat
    requires start < |s|
  {
    if i == 0 then start + 1
    else
      var curr := Walk(s, starts, start, i - 1);
      var rows := RowsOf(s, start, FirstAt(starts, curr), |s| + 1);
      if RankAt(starts, curr) < |rows| then rows[RankAt(starts, curr)] else 0
  }

  // From any row but the first, the step to the last column is defined.
  lemma StepIsDefined(s: seq<nat>, starts: seq<nat>, start: nat, curr: nat)
    requires IsStarts(starts, s) && IsBytes(s) && start < |s| && 0 < curr <= |s|
    ensures FirstAt(starts, curr) < NUM_BYTES
    ensures RankAt(starts, curr) < |RowsOf(s, start, FirstAt(starts, curr), |s| + 1)|
  {
    hide FirstAt, RankAt, RowsOf;
    LessAll(s, NUM_BYTES);
    var c := SomeByte(s, curr - 1, NUM_BYTES);
    FirstColumn(starts, s, curr - 1, c);
    RowsCount(s, start, c);
    LessStep(s, c);
  }

  lemma {:induction false} WalkInRange(s: seq<nat>, starts: seq<nat>, start: nat, i: nat)
    requires start < |s|
    ensures Walk(s, starts, start, i) <= |s|
  {
    if i > 0 {
      WalkInRange(s, starts, start, i - 1);
    }
  }

  // One step of the walk, from a row other than the first.
  lemma WalkStep(s: seq<nat>, starts: seq<nat>, start: nat, i: nat)
    requires IsStarts(starts, s) && IsBytes(s) && start < |s| && Walk(s, starts, start, i) != 0
    ensures var curr := Walk(s, starts, start, i);
            var rows := RowsOf(s, start, FirstAt(starts, curr), |s| + 1);
            && FirstAt(starts, curr) < NUM_BYTES && RankAt(starts, curr) < |rows|
            && Walk(s, starts, start, i + 1) == rows[RankAt(starts, curr)]
  {
    hide FirstAt, RankAt, RowsOf, IsStarts, IsBytes;
    WalkInRange(s, starts, start, i);
    StepIsDefined(s, starts, start, Walk(s, starts, start, i));
  }

  // ----- The transform of a text

  // r is the last column of the sorted rotations of t without '$', start the row of t itself.
  ghost predicate Transformed(t: seq<nat>, sa: seq<nat>, r: seq<nat>, start: nat) {
    && IsSuffixArray(t, sa) && |r| == |t|
    && (forall k :: 0 <= k < |t| ==> r[k] == t[if sa[k] == 0 then |t| - 1 else sa[k] - 1])
    && (|t| > 0 ==> start < |t| && sa[start] == 0)
  }

  // The suffix whose row this is: the first row belongs to '$' alone.
  ghost function SuffixOf(t: seq<nat>, sa: seq<nat>, row: nat): nat
    requires |sa| == |t| && row <= |t|
  {
    if row == 0 then |t| else sa[row - 1]
  }

  lemma RowsAreSorted(t: seq<nat>, sa: seq<nat>, x: nat, y: nat)
    requires IsSuffixArray(t, sa) && x < y <= |t|
    ensures SuffixOf(t, sa, x) <= |t| && SuffixOf(t, sa, y) < |t|
    ensures Before(t, SuffixOf(t, sa, x), SuffixOf(t, sa, y))
  {
  }

  lemma RowOf(t: seq<nat>, sa: seq<nat>, i: nat) returns (row: nat)
    requires IsSuffixArray(t, sa) && i < |t|
    ensures 0 < row <= |t| && SuffixOf(t, sa, row) == i
  {
    hide Before;
    SuffixArrayIsPermutation(t, sa);
    assert i in sa;
    var k :| 0 <= k < |sa| && sa[k] == i;
    row := k + 1;
  }

  // The transform only rearranges the text.
  lemma TransformCounts(t: seq<nat>, sa: seq<nat>, r: seq<nat>, start: nat, c: nat)
    requires Transformed(t, sa, r, start)
    ensures |LessSet(r, c)| == |LessSet(t, c)| && |EqualSet(r, c)| == |EqualSet(t, c)|
  {
    hide Before;
    var n := |t|;
    SuffixArrayIsPermutation(t, sa);
    var p: seq<nat> := seq(n, k requires 0 <= k < n => if sa[k] == 0 then n - 1 else sa[k] - 1);
    Rearranged(r, t, p, c);
  }

  // The first column of row k + 1 is the first character of its suffix.
  lemma FirstOfRow(t: seq<nat>, sa: seq<nat>, r: seq<nat>, start: nat, k: nat)
    requires Transformed(t, sa, r, start) && k < |t|
    ensures |LessSet(r, t[sa[k]])| <= k < |LessSet(r, t[sa[k]] + 1)|
  {
    hide Before, LessSet, EqualSet, Transformed;
    TransformedBasics(t, sa, r, start, k + 1);
    var u := SortedHeads(t, sa);
    var c := u[k];
    SortedPrefix(u, c, k);
    SortedPrefix(u, c + 1, k);
    HeadCounts(t, sa, r, start, u, c);
    HeadCounts(t, sa, r, start, u, c + 1);
  }

  lemma HeadCounts(t: seq<nat>, sa: seq<nat>, r: seq<nat>, start: nat, u: seq<nat>, c: nat)
    requires Transformed(t, sa, r, start) && |u| == |t| && forall i :: 0 <= i < |t| ==> u[i] == t[sa[i]]
    ensures |LessSet(u, c)| == |LessSet(r, c)|
  {
    hide Before;
    SuffixArrayIsPermutation(t, sa);
    Rearranged(u, t, sa, c);
    TransformCounts(t, sa, r, start, c);
  }

  lemma SortedHeads(t: seq<nat>, sa: seq<nat>) returns (u: seq<nat>)
    requires IsSuffixArray(t, sa)
    ensures |u| == |t| && forall i :: 0 <= i < |t| ==> u[i] == t[sa[i]]
    ensures forall i, j :: 0 <= i < j < |u| ==> u[i] <= u[j]
  {
    u := seq(|t|, i requires 0 <= i < |t| => t[sa[i]]);
    forall i, j | 0 <= i < j < |t|
      ensures u[i] <= u[j]
    {
      assert Before(t, sa[i], sa[j]);
    }
  }

  // Row x of the last column ends with the character before its suffix.
  lemma LastOfRow(t: seq<nat>, sa: seq<nat>, r: seq<nat>, start: nat, row: nat)
    requires Transformed(t, sa, r, start) && row <= |t| && |t| > 0
    ensures var j := SuffixOf(t, sa, row);
            LastAt(r, start, row) == if j == 0 then EOS else t[j - 1]
  {
    hide Before;
    if row > 0 && sa[row - 1] == 0 && row - 1 != start {
      SuffixArrayIsPermutation(t, sa);
    }
  }

  // Strictly rising numbers that just fill a range are the range.
  lemma {:induction false} FillsRange(f: seq<nat>, lo: nat, x: nat)
    requires x < |f| && forall k, l :: 0 <= k < l < |f| ==> f[k] < f[l]
    requires forall k :: 0 <= k < |f| ==> lo <= f[k] < lo + |f|
    ensures f[x] == lo + x
  {
    AtLeast(f, lo, x);
    AtMost(f, lo + |f|, x);
  }

  lemma {:induction false} AtLeast(f: seq<nat>, lo: nat, x: nat)
    requires x < |f| && forall k, l :: 0 <= k < l < |f| ==> f[k] < f[l]
    requires lo <= f[0]
    ensures f[x] >= lo + x
  {
    if x > 0 {
      AtLeast(f, lo, x - 1);
    }
  }

  lemma {:induction false} AtMost(f: seq<nat>, hi: nat, x: nat)
    requires x < |f| && forall k, l :: 0 <= k < l < |f| ==> f[k] < f[l]
    requires f[|f| - 1] < hi
    ensures f[x] + (|f| - x) <= hi
    decreases |f| - x
  {
    if x < |f| - 1 {
      AtMost(f, hi, x + 1);
    }
  }

  // The rows of the suffixes that start with c, taken in the order of the rows that end in c.
  lemma StepsToNextSuffix(t: seq<nat>, sa: seq<nat>, r: seq<nat>, start: nat, starts: seq<nat>, row: nat)
    requires Transformed(t, sa, r, start) && IsBytes(t) && IsStarts(starts, r) && 0 < row <= |t|
    ensures var i := SuffixOf(t, sa, row);
            var rows := RowsOf(r, start, t[i], |t| + 1);
            && FirstAt(starts, row) == t[i]
            && RankAt(starts, row) < |rows|
            && rows[RankAt(starts, row)] <= |t|
            && SuffixOf(t, sa, rows[RankAt(starts, row)]) == i + 1
  {
    hide Before, FirstAt, RankAt, LastAt, RowsOf, IsStarts, Transformed;
    TransformedBasics(t, sa, r, start, row);
    var i := SuffixOf(t, sa, row);
    var c := t[i];
    TransformedBytes(t, sa, r, start);
    FirstOfRow(t, sa, r, start, row - 1);
    FirstColumn(starts, r, row - 1, c);
    var lo := |LessSet(r, c)|;
    LessStep(r, c);
    RowsCount(r, start, c);
    var f := FrontRows(t, sa, r, start, c, lo);
    FillsRange(f, lo + 1, row - 1 - lo);
    SameSuffix(t, sa, r, start, c, f, row - 1 - lo, row);
  }

  lemma TransformedBasics(t: seq<nat>, sa: seq<nat>, r: seq<nat>, start: nat, row: nat)
    requires Transformed(t, sa, r, start) && 0 < row <= |t|
    ensures IsSuffixArray(t, sa) && SuffixOf(t, sa, row) < |t| && |r| == |t| > start
  {
  }

  lemma TransformedBytes(t: seq<nat>, sa: seq<nat>, r: seq<nat>, start: nat)
    requires Transformed(t, sa, r, start) && IsBytes(t)
    ensures IsBytes(r)
  {
  }

  // f[x] is the row of the suffix one before that of the x-th row ending in c.
  ghost predicate AreFrontRows(t: seq<nat>, sa: seq<nat>, rows: seq<nat>, c: nat, f: seq<nat>)
    requires |sa| == |t|
  {
    && |f| == |rows|
    && forall x :: 0 <= x < |f| ==>
         && 0 < f[x] <= |t| && rows[x] <= |t|
         && SuffixOf(t, sa, f[x]) < |t| && t[SuffixOf(t, sa, f[x])] == c
         && SuffixOf(t, sa, rows[x]) == SuffixOf(t, sa, f[x]) + 1
  }

  lemma FrontRow(t: seq<nat>, sa: seq<nat>, r: seq<nat>, start: nat, c: nat, row: nat) returns (f: nat)
    requires Transformed(t, sa, r, start) && row <= |t| && |t| > 0 && c < NUM_BYTES && LastAt(r, start, row) == c
    ensures 0 < f <= |t| && SuffixOf(t, sa, f) < |t| && t[SuffixOf(t, sa, f)] == c
    ensures SuffixOf(t, sa, row) == SuffixOf(t, sa, f) + 1
  {
    hide Before, LastAt;
    LastOfRow(t, sa, r, start, row);
    var j := SuffixOf(t, sa, row);
    f := RowOf(t, sa, j - 1);
  }

  lemma FrontRows(t: seq<nat>, sa: seq<nat>, r: seq<nat>, start: nat, c: nat, lo: nat) returns (f: seq<nat>)
    requires Transformed(t, sa, r, start) && |t| > 0 && c < NUM_BYTES && lo == |LessSet(r, c)|
    ensures AreFrontRows(t, sa, RowsOf(r, start, c, |t| + 1), c, f)
    ensures forall x, y :: 0 <= x < y < |f| ==> f[x] < f[y]
    ensures forall x :: 0 <= x < |f| ==> lo + 1 <= f[x] < lo + 1 + |EqualSet(r, c)|
  {
    hide Before, LastAt, RowsOf, SuffixOf;
    var rows := RowsOf(r, start, c, |t| + 1);
    f := CollectFrontRows(t, sa, r, start, c, rows);
    forall x | 0 <= x < |f|
      ensures lo + 1 <= f[x] < lo + 1 + |EqualSet(r, c)|
    {
      InBlock(t, sa, r, start, c, f[x]);
    }
    forall x, y | 0 <= x < y < |f|
      ensures f[x] < f[y]
    {
      FrontRowsRise(t, sa, rows[x], rows[y], f[x], f[y], c);
    }
  }

  lemma {:induction false} CollectFrontRows(t: seq<nat>, sa: seq<nat>, r: seq<nat>, start: nat, c: nat, rows: seq<nat>)
    returns (f: seq<nat>)
    requires Transformed(t, sa, r, start) && |t| > 0 && c < NUM_BYTES
    requires forall k :: 0 <= k < |rows| ==> rows[k] <= |t| && LastAt(r, start, rows[k]) == c
    ensures AreFrontRows(t, sa, rows, c, f)
    decreases |rows|
  {
    hide Before, LastAt, SuffixOf;
    if rows == [] {
      f := [];
    } else {
      var f' := CollectFrontRows(t, sa, r, start, c, rows[..|rows| - 1]);
      var last := FrontRow(t, sa, r, start, c, rows[|rows| - 1]);
      f := f' + [last];
    }
  }

  lemma InBlock(t: seq<nat>, sa: seq<nat>, r: seq<nat>, start: nat, c: nat, row: nat)
    requires Transformed(t, sa, r, start) && 0 < row <= |t| && SuffixOf(t, sa, row) < |t| && t[SuffixOf(t, sa, row)] == c
    ensures |LessSet(r, c)| + 1 <= row < |LessSet(r, c)| + 1 + |EqualSet(r, c)|
  {
    hide Before;
    FirstOfRow(t, sa, r, start, row - 1);
    LessStep(r, c);
  }

  // The same first character before the suffixes keeps their order.
  lemma FrontRowsRise(t: seq<nat>, sa: seq<nat>, x: nat, y: nat, fx: nat, fy: nat, c: nat)
    requires IsSuffixArray(t, sa) && x < y <= |t| && 0 < fx <= |t| && 0 < fy <= |t|
    requires SuffixOf(t, sa, fx) < |t| && t[SuffixOf(t, sa, fx)] == c && SuffixOf(t, sa, x) == SuffixOf(t, sa, fx) + 1
    requires SuffixOf(t, sa, fy) < |t| && t[SuffixOf(t, sa, fy)] == c && SuffixOf(t, sa, y) == SuffixOf(t, sa, fy) + 1
    ensures fx < fy
  {
    var i, j := SuffixOf(t, sa, fx), SuffixOf(t, sa, fy);
    RowsAreSorted(t, sa, x, y);
    assert Before(t, i, j);
    if fy < fx {
      RowsAreSorted(t, sa, fy, fx);
      BeforeAntisymmetric(t, i, j);
    } else if fx == fy {
      BeforeIrreflexive(t, i);
    }
  }

  lemma SameSuffix(t: seq<nat>, sa: seq<nat>, r: seq<nat>, start: nat, c: nat, f: seq<nat>, x: nat, row: nat)
    requires |r| == |t| == |sa| && start < |r| && 0 < row <= |t|
    requires AreFrontRows(t, sa, RowsOf(r, start, c, |t| + 1), c, f) && x < |f| && f[x] == row
    ensures var rows := RowsOf(r, start, c, |t| + 1);
            rows[x] <= |t| && SuffixOf(t, sa, rows[x]) == SuffixOf(t, sa, row) + 1
  {
  }

  // After i steps the walk is in the row of the suffix at i; it meets the row of '$' only at the end.
  lemma {:induction false} WalkVisitsSuffixes(t: seq<nat>, sa: seq<nat>, r: seq<nat>, start: nat, starts: seq<nat>, i: nat)
    requires Transformed(t, sa, r, start) && IsBytes(t) && IsStarts(starts, r) && |t| > 0 && i <= |t|
    ensures Walk(r, starts, start, i) <= |t|
    ensures SuffixOf(t, sa, Walk(r, starts, start, i)) == i
    ensures i < |t| ==> Walk(r, starts, start, i) > 0 && FirstAt(starts, Walk(r, starts, start, i)) == t[i]
  {
    hide Before, FirstAt, RankAt, RowsOf, IsStarts;
    var row := Walk(r, starts, start, i);
    if i > 0 {
      WalkVisitsSuffixes(t, sa, r, start, starts, i - 1);
      StepsToNextSuffix(t, sa, r, start, starts, Walk(r, starts, start, i - 1));
    }
    if i < |t| {
      StepsToNextSuffix(t, sa, r, start, starts, row);
    }
  }
}
