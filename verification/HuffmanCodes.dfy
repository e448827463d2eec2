/**
 The codes of a Huffman tree: paths to its leaves, no one a prefix of another.
 */
module HuffmanCodes {
  import opened Bits
  import opened Kraft
  import opened HuffmanTree

  // The path to a leaf, from the root; false is left.
  datatype Entry = Entry(path: seq<bool>, symbol: nat)

  // A path as the program keeps it: its bits, the first one the least significant, and their number.
  datatype Code = Code(bits: nat, len: nat) {
    predicate Less(rhs: Code) {
      bits < rhs.bits || (bits == rhs.bits && len < rhs.len)
    }
  }

  function CodeOf(path: seq<bool>): Code {
    Code(ToNat(path), |path|)
  }

  function PathOf(c: Code): seq<bool> {
    FromNat(c.bits, c.len)
  }

  lemma PathOfCode(path: seq<bool>)
    ensures PathOf(CodeOf(path)) == path
  {
    RoundTrip(path);
  }

  function Entries(t: Tree, path: seq<bool>): (r: seq<Entry>)
    ensures r != []
  {
    match t
    case Leaf(s, _) => [Entry(path, s)]
    case Inner(_, _, l, r) => Entries(l, path + [false]) + Entries(r, path + [true])
  }

  ghost predicate PrefixFree(es: seq<Entry>) {
    forall i, j :: 0 <= i < |es| && 0 <= j < |es| && i != j ==> !(es[i].path <= es[j].path)
  }

  ghost predicate DistinctSymbols(es: seq<Entry>) {
    forall i, j :: 0 <= i < j < |es| ==> es[i].symbol != es[j].symbol
  }

  lemma {:induction false} EntriesBelow(t: Tree, path: seq<bool>)
    ensures forall i :: 0 <= i < |Entries(t, path)| ==> path <= Entries(t, path)[i].path
    ensures forall i :: 0 <= i < |Entries(t, path)| ==> |Entries(t, path)[i].path| <= |path| + Height(t)
  {
    match t
    case Leaf(_, _) =>
    case Inner(_, _, l, r) =>
      EntriesBelow(l, path + [false]);
      EntriesBelow(r, path + [true]);
      var a, b := Entries(l, path + [false]), Entries(r, path + [true]);
      var all: seq<Entry> := a + b;
      forall i | 0 <= i < |all|
        ensures path <= all[i].path && |all[i].path| <= |path| + Height(t)
      {
        if i < |a| {
          assert path + [false] <= a[i].path;
        } else {
          assert path + [true] <= b[i - |a|].path;
        }
      }
  }

  // No code is a prefix of another one.
  lemma {:induction false} EntriesArePrefixFree(t: Tree, path: seq<bool>)
    ensures PrefixFree(Entries(t, path))
  {
    match t
    case Leaf(_, _) =>
    case Inner(_, _, l, r) =>
      var a, b := Entries(l, path + [false]), Entries(r, path + [true]);
      EntriesArePrefixFree(l, path + [false]);
      EntriesArePrefixFree(r, path + [true]);
      EntriesBelow(l, path + [false]);
      EntriesBelow(r, path + [true]);
      TwoSides(a, b, path);
  }

  lemma TwoSides(a: seq<Entry>, b: seq<Entry>, path: seq<bool>)
    requires PrefixFree(a) && PrefixFree(b)
    requires forall i :: 0 <= i < |a| ==> path + [false] <= a[i].path
    requires forall i :: 0 <= i < |b| ==> path + [true] <= b[i].path
    ensures PrefixFree(a + b)
  {
    var all, d := a + b, |path|;
    assert forall i :: 0 <= i < |a| ==> all[i].path[d] == (path + [false])[d];
    assert forall i :: |a| <= i < |all| ==> all[i].path[d] == (path + [true])[d];
    forall i, j | 0 <= i < |all| && 0 <= j < |all| && i != j
      ensures !(all[i].path <= all[j].path)
    {
      if (i < |a|) != (j < |a|) {
        assert |all[i].path| > d && |all[j].path| > d && all[i].path[d] != all[j].path[d];
      } else if i < |a| {
        assert all[i] == a[i] && all[j] == a[j];
      } else {
        assert all[i] == b[i - |a|] && all[j] == b[j - |a|];
      }
    }
  }

  // The symbols of the codes are those of the leaves, in the same order.
  lemma {:induction false} EntriesMatchLeaves(t: Tree, path: seq<bool>)
    ensures |Entries(t, path)| == |Leaves(t)|
    ensures forall i :: 0 <= i < |Leaves(t)| ==> Entries(t, path)[i].symbol == Leaves(t)[i].symbol
  {
    match t
    case Leaf(_, _) =>
    case Inner(_, _, l, r) =>
      EntriesMatchLeaves(l, path + [false]);
      EntriesMatchLeaves(r, path + [true]);
  }

  lemma {:induction false} PathLengths(t: Tree, path: seq<bool>)
    ensures |Entries(t, path)| == |Depths(t, |path|)|
    ensures forall i :: 0 <= i < |Depths(t, |path|)| ==> |Entries(t, path)[i].path| == Depths(t, |path|)[i]
  {
    match t
    case Leaf(_, _) =>
    case Inner(_, _, l, r) =>
      PathLengths(l, path + [false]);
      PathLengths(r, path + [true]);
  }

  // Leaves that come from a table have different symbols, one for every key.
  lemma TableSymbols(t: Tree, freqs: Table)
    requires multiset(Leaves(t)) == Items(freqs.Keys, freqs)
    ensures DistinctSymbols(Entries(t, []))
    ensures forall s :: s in freqs <==> exists i :: 0 <= i < |Entries(t, [])| && Entries(t, [])[i].symbol == s
  {
    hide Leaves, Entries;
    EntriesMatchLeaves(t, []);
    var es, ls := Entries(t, []), Leaves(t);
    var items := set s | s in freqs :: LeafInfo(s, freqs[s]);
    assert multiset(ls) == multiset(items);
    forall i, j | 0 <= i < j < |es|
      ensures es[i].symbol != es[j].symbol
    {
      TwiceInMultiset(ls, i, j);
      assert ls[i] in multiset(ls) && ls[j] in multiset(ls);
      assert ls[i] in items && ls[j] in items;
    }
    forall s
      ensures s in freqs <==> exists i :: 0 <= i < |es| && es[i].symbol == s
    {
      if s in freqs {
        assert LeafInfo(s, freqs[s]) in items;
        assert LeafInfo(s, freqs[s]) in multiset(ls);
        assert LeafInfo(s, freqs[s]) in ls;
      }
      if i :| 0 <= i < |es| && es[i].symbol == s {
        assert ls[i] in multiset(ls);
        assert ls[i] in items;
      }
    }
  }

  // ----- The limit of the codes' length

  lemma FibThirtyFive()
    ensures Fib(35) == 9227465
  {
    assert Fib(4) == 3 && Fib(5) == 5;
    assert Fib(6) == 8 && Fib(7) == 13;
    assert Fib(8) == 21 && Fib(9) == 34;
    assert Fib(10) == 55 && Fib(11) == 89;
    assert Fib(12) == 144 && Fib(13) == 233;
    assert Fib(14) == 377 && Fib(15) == 610;
    assert Fib(16) == 987 && Fib(17) == 1597;
    assert Fib(18) == 2584 && Fib(19) == 4181;
    assert Fib(20) == 6765 && Fib(21) == 10946;
    assert Fib(22) == 17711 && Fib(23) == 28657;
    assert Fib(24) == 46368 && Fib(25) == 75025;
    assert Fib(26) == 121393 && Fib(27) == 196418;
    assert Fib(28) == 317811 && Fib(29) == 514229;
    assert Fib(30) == 832040 && Fib(31) == 1346269;
    assert Fib(32) == 2178309 && Fib(33) == 3524578;
    assert Fib(34) == 5702887;
  }

  // Fewer than 9227465 symbols never need a code of more than 32 bits, so that the check of SetDepths
  // cannot fail for them.
  lemma ShortCodes(t: Tree)
    requires Heavy(t) && Weight(t) < 9227465
    ensures Height(t) <= 32
  {
    hide Weight, Heavy, Fib;
    HeavyMeans(t);
    FibThirtyFive();
    if Height(t) > 32 {
      FibMonotone(35, Height(t) + 2);
    }
  }
}
