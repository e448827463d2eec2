/**
 coding::BWT and coding::RevBWT.
 */
module Bwt {
  import opened Sequences
  import opened SuffixOrder
  import opened BwtOrder
  import Skew

  // The sorted first column, by the start of each byte's group.
  class FirstColumnOf {
    const n: nat
    const starts: seq<nat>
    ghost const s: seq<nat>

    ghost predicate Valid() {
      n == |s| && IsBytes(s) && IsStarts(starts, s)
    }

    constructor (s: seq<nat>)
      requires IsBytes(s)
      ensures Valid() && this.s == s
    {
      var n := |s|;
      var counts := new nat[NUM_BYTES](_ => 0);
      for i := 0 to n
        invariant forall c :: 0 <= c < NUM_BYTES ==> counts[c] == |EqualSet(s[..i], c)|
      {
        CountNext(s, i);
        counts[s[i]] := counts[s[i]] + 1;
      }
      assert s[..n] == s;
      var offset := 0;
      LessStep(s, 0);
      for c := 0 to NUM_BYTES
        invariant offset == |LessSet(s, c)|
        invariant forall d :: 0 <= d < c ==> counts[d] == |LessSet(s, d)|
        invariant forall d :: c <= d < NUM_BYTES ==> counts[d] == |EqualSet(s, d)|
      {
        LessStep(s, c);
        var count := counts[c];
        counts[c] := offset;
        offset := offset + count;
      }
      this.n, this.s, starts := n, s, counts[..];
    }

    function Size(): nat { n + 1 }

    function At(i: nat): nat { FirstAt(starts, i) }

    function Rank(i: nat): nat { RankAt(starts, i) }
  }

  lemma CountNext(s: seq<nat>, i: nat)
    requires i < |s|
    ensures forall c: nat :: |EqualSet(s[..i + 1], c)| == |EqualSet(s[..i], c)| + (if s[i] == c then 1 else 0)
  {
    forall c: nat
      ensures |EqualSet(s[..i + 1], c)| == |EqualSet(s[..i], c)| + (if s[i] == c then 1 else 0)
    {
      if s[i] == c {
        assert EqualSet(s[..i + 1], c) == EqualSet(s[..i], c) + {i};
      } else {
        assert EqualSet(s[..i + 1], c) == EqualSet(s[..i], c);
      }
    }
  }

  lemma NoRows(s: seq<nat>, start: nat)
    requires start < |s|
    ensures forall c :: 0 <= c < NUM_BYTES ==> RowsOf(s, start, c, 0) == []
  {
  }

  lemma NextRow(s: seq<nat>, start: nat, i: nat)
    requires start < |s| && i <= |s|
    ensures forall c :: 0 <= c < NUM_BYTES ==>
                RowsOf(s, start, c, i + 1) == RowsOf(s, start, c, i) + if LastAt(s, start, i) == c then [i] else []
  {
  }

  // The last column, with '$' put back, and the rows that each byte ends.
  class LastColumnOf {
    const n: nat
    const start: nat
    const s: seq<nat>
    const rows: seq<seq<nat>>

    ghost predicate Valid() {
      && n == |s| && start < n && |rows| == NUM_BYTES
      && forall c :: 0 <= c < NUM_BYTES ==> rows[c] == RowsOf(s, start, c, n + 1)
    }

    constructor (n: nat, start: nat, s: seq<nat>)
      requires n == |s| && start < n && IsBytes(s)
      ensures Valid() && this.s == s && this.start == start
    {
      hide RowsOf;
      var table := new seq<nat>[NUM_BYTES](_ => []);
      NoRows(s, start);
      for i := 0 to n + 1
        invariant forall c :: 0 <= c < NUM_BYTES ==> table[c] == RowsOf(s, start, c, i)
      {
        NextRow(s, start, i);
        var b := LastAt(s, start, i);
        if b != EOS {
          table[b] := table[b] + [i];
        }
      }
      this.n, this.start, this.s, rows := n, start, s, table[..];
    }

    // The index of the rank-th row that ends in the byte.
    function Select(byte: nat, rank: nat): (i: nat)
      requires Valid() && if byte == EOS then rank == 0 else byte < NUM_BYTES && rank < |rows[byte]|
      ensures byte != EOS ==> i == RowsOf(s, start, byte, |s| + 1)[rank]
    {
      if byte == EOS then 0 else rows[byte][rank]
    }
  }

  // The transform: r is determined by the suffix array, which the construction finds.
  method Forward(n: nat, s: seq<nat>, r: array<nat>) returns (result: nat, ghost sa: seq<nat>)
    requires n == |s| <= r.Length && IsBytes(s)
    modifies r
    ensures Transformed(s, sa, r[..n], result)
    ensures n == 0 ==> result == 0
    ensures r[n..] == old(r[n..])
  {
    var suffixes := new nat[n](_ => 0);
    Skew.Skew(n, s, suffixes);
    sa := suffixes[..n];
    SuffixArrayIsPermutation(s, sa);
    result := 0;
    for i := 0 to n
      invariant suffixes[..n] == sa && r[n..] == old(r[n..])
      invariant forall k :: 0 <= k < i ==> r[k] == s[if sa[k] == 0 then n - 1 else sa[k] - 1]
      invariant forall k :: 0 <= k < i && sa[k] == 0 ==> result == k
      invariant n == 0 ==> result == 0
    {
      assert suffixes[i] == sa[i];
      if suffixes[i] != 0 {
        r[i] := s[suffixes[i] - 1];
      } else {
        result := i;
        r[i] := s[n - 1];
      }
    }
    if n > 0 {
      assert 0 in sa;
    }
  }

  // What the reverse transform demands of its input: it must not meet the row of '$' before the end.
  ghost predicate Reversible(s: seq<nat>, start: nat) {
    && IsBytes(s)
    && (|s| > 0 ==> start < |s|)
    && forall starts, i | IsStarts(starts, s) && 0 <= i < |s| :: Walk(s, starts, start, i) != 0
  }

  lemma WalkBegins(s: seq<nat>, starts: seq<nat>, start: nat)
    requires start < |s|
    ensures Walk(s, starts, start, 0) == start + 1
  {
  }

  method Reverse(n: nat, start: nat, s: seq<nat>, r: array<nat>) returns (ghost starts: seq<nat>)
    requires n == |s| <= r.Length && Reversible(s, start)
    modifies r
    ensures n > 0 ==> IsStarts(starts, s) && forall i :: 0 <= i < n ==> r[i] == FirstAt(starts, Walk(s, starts, start, i))
    ensures r[n..] == old(r[n..])
  {
    hide FirstAt, RankAt, RowsOf, IsStarts, IsBytes, Walk;
    if n == 0 {
      starts := [];
      return;
    }
    var first := new FirstColumnOf(s);
    var last := new LastColumnOf(n, start, s);
    starts := first.starts;
    var curr := start + 1;
    WalkBegins(s, starts, start);
    for i := 0 to n
      invariant curr == Walk(s, starts, start, i)
      invariant forall k :: 0 <= k < i ==> r[k] == FirstAt(starts, Walk(s, starts, start, k))
      invariant r[n..] == old(r[n..])
    {
      WalkStep(s, starts, start, i);
      r[i] := first.At(curr);
      curr := last.Select(r[i], first.Rank(curr));
    }
  }

  // The reverse transform of the transform of a text is the text, whatever bytes it has.
  lemma ReverseUndoesForward(t: seq<nat>, sa: seq<nat>, r: seq<nat>, start: nat)
    requires IsBytes(t) && Transformed(t, sa, r, start)
    ensures Reversible(r, start)
    ensures forall starts, i | IsStarts(starts, r) && 0 <= i < |t| :: FirstAt(starts, Walk(r, starts, start, i)) == t[i]
    ensures forall starts | IsStarts(starts, r) && |t| > 0 :: Walk(r, starts, start, |t|) == 0
  {
    TransformedBytes(t, sa, r, start);
    forall starts, i | IsStarts(starts, r) && 0 <= i < |t|
      ensures Walk(r, starts, start, i) != 0 && FirstAt(starts, Walk(r, starts, start, i)) == t[i]
    {
      WalkVisitsSuffixes(t, sa, r, start, starts, i);
    }
    forall starts | IsStarts(starts, r) && |t| > 0
      ensures Walk(r, starts, start, |t|) == 0
    {
      WalkVisitsSuffixes(t, sa, r, start, starts, |t|);
    }
  }

  method RoundTrip(t: seq<nat>) returns (r: seq<nat>)
    requires IsBytes(t)
    ensures r == t
  {
    var n := |t|;
    var buffer := new nat[n](_ => 0);
    var start, sa := Forward(n, t, buffer);
    ReverseUndoesForward(t, sa, buffer[..n], start);
    var rev := new nat[n](_ => 0);
    ghost var starts := Reverse(n, start, buffer[..n], rev);
    r := rev[..];
  }
}
