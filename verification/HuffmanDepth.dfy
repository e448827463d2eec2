/**
 How deep the tree of a text can be.  Texts whose symbols occur as often as the Fibonacci numbers say
 have the deepest trees for their length, so that the limit of 32 bits is met by the 9227465 symbols
 of such a text already.
 */
module HuffmanDepth {
  import opened Kraft
  import opened HuffmanTree
  import opened HuffmanCodes
  import opened Huffman
  import opened Frequencies

  // How often symbol k occurs, when h is the last symbol.
  function Occurrences(k: nat, h: nat, extra: nat): (f: nat)
    ensures k < h ==> f == if k == 0 then 1 else Fib(k)
  {
    if k == 0 then 1 else if k == h then Fib(h) + extra else Fib(k)
  }

  // ----- The rounds of merging

  // The tree of the symbols below k: every symbol is merged with all those before it.
  function Spine(k: nat, h: nat, extra: nat): (t: Tree)
    requires 0 < k <= h + 1
    ensures t.symbol == 0 && Height(t) == k - 1
  {
    if k == 1 then Leaf(0, 1)
    else
      var t, f := Spine(k - 1, h, extra), Occurrences(k - 1, h, extra);
      Inner(0, t.freq + f, t, Leaf(k - 1, f))
  }

  lemma {:induction false} SpineFreq(k: nat, h: nat, extra: nat)
    requires 0 < k <= h + 1
    ensures Spine(k, h, extra).freq == Fib(k + 1) + if h > 0 && k == h + 1 then extra else 0
  {
    if k > 1 {
      SpineFreq(k - 1, h, extra);
    }
  }

  function SymbolsFrom(k: nat, h: nat, extra: nat): (infos: seq<LeafInfo>)
    requires k <= h + 1
    ensures |infos| == h + 1 - k
    ensures forall i :: 0 <= i < |infos| ==> infos[i] == LeafInfo(k + i, Occurrences(k + i, h, extra))
  {
    seq(h + 1 - k, i requires 0 <= i => LeafInfo(k + i, Occurrences(k + i, h, extra)))
  }

  // The queue when the symbols below k have been merged.
  function Waiting(k: nat, h: nat, extra: nat): (ts: seq<Tree>)
    requires 0 < k <= h + 1
    ensures |ts| == h + 2 - k
  {
    LeafTrees(SymbolsFrom(k, h, extra)) + [Spine(k, h, extra)]
  }

  // All later symbols occur at least as often as the merged ones taken together.
  lemma LaterAreHeavier(k: nat, m: nat, h: nat, extra: nat)
    requires 0 < k < m <= h
    ensures Occurrences(m, h, extra) >= Spine(k, h, extra).freq
    ensures Occurrences(m, h, extra) >= Occurrences(k, h, extra)
  {
    hide Fib, Spine;
    SpineFreq(k, h, extra);
    FibMonotone(k + 1, m);
    FibMonotone(k, k + 1);
  }

  // The first tree and the last one are popped when nothing in between comes before either.
  lemma PopEnds(a: Tree, between: seq<Tree>, b: Tree) returns (i: nat, j: nat)
    requires forall m :: 0 <= m < |between| ==> !between[m].ComesBefore(a) && !between[m].ComesBefore(b)
    ensures PopsTwo([a] + between + [b], i, j)
    ensures AfterRound([a] + between + [b], i, j) in {between + [Joined(a, b)], between + [Joined(b, a)]}
  {
    var ts := [a] + between + [b];
    if b.ComesBefore(a) {
      i, j := |ts| - 1, 0;
      assert Without(ts, i) == [a] + between && Without(Without(ts, i), j) == between;
    } else {
      i, j := 0, |ts| - 2;
      assert Without(ts, i) == between + [b] && Without(Without(ts, i), j) == between;
    }
  }

  // One round takes the symbol k and the tree of those before it.
  lemma RoundOfSpine(k: nat, h: nat, extra: nat) returns (i: nat, j: nat)
    requires 0 < k <= h
    ensures PopsTwo(Waiting(k, h, extra), i, j)
    ensures AfterRound(Waiting(k, h, extra), i, j) == Waiting(k + 1, h, extra)
  {
    hide Fib, Spine, Height, Occurrences, PopsTwo, AfterRound, Joined;
    var ts, spine := Waiting(k, h, extra), Spine(k, h, extra);
    var leaf, later := ts[0], LeafTrees(SymbolsFrom(k + 1, h, extra));
    forall m | 0 <= m < |later|
      ensures !later[m].ComesBefore(spine) && !later[m].ComesBefore(leaf)
    {
      LaterAreHeavier(k, k + 1 + m, h, extra);
    }
    assert ts == [leaf] + later + [spine];
    i, j := PopEnds(leaf, later, spine);
    NextSpine(k, h, extra);
  }

  lemma NextSpine(k: nat, h: nat, extra: nat)
    requires 0 < k <= h
    ensures var t, leaf := Spine(k, h, extra), Leaf(k, Occurrences(k, h, extra));
            Spine(k + 1, h, extra) == Joined(t, leaf) == Joined(leaf, t)
  {
  }

  lemma {:induction false} BuildsSpine(k: nat, h: nat, extra: nat)
    requires 0 < k <= h + 1
    ensures Builds(Waiting(k, h, extra), Spine(h + 1, h, extra))
    decreases h + 1 - k
  {
    hide PopsTwo, AfterRound, Spine;
    if k <= h {
      var i, j := RoundOfSpine(k, h, extra);
      BuildsSpine(k + 1, h, extra);
    }
  }

  // ----- The text

  function Repeated(c: nat, n: nat): (r: seq<nat>)
    ensures |r| == n
  {
    if n == 0 then [] else Repeated(c, n - 1) + [c]
  }

  lemma CountConcat(a: seq<nat>, b: seq<nat>, d: nat)
    ensures multiset(a + b)[d] == multiset(a)[d] + multiset(b)[d]
  {
  }

  lemma {:induction false} CountRepeated(c: nat, n: nat, d: nat)
    ensures multiset(Repeated(c, n))[d] == if d == c then n else 0
  {
    if n > 0 {
      CountRepeated(c, n - 1, d);
      CountConcat(Repeated(c, n - 1), [c], d);
    }
  }

  // The symbols below k, as often as they occur.
  function FibonacciText(k: nat, h: nat, extra: nat): seq<nat> {
    if k == 0 then [] else FibonacciText(k - 1, h, extra) + Repeated(k - 1, Occurrences(k - 1, h, extra))
  }

  lemma {:induction false} CountFibonacci(k: nat, h: nat, extra: nat, d: nat)
    ensures multiset(FibonacciText(k, h, extra))[d] == if d < k then Occurrences(d, h, extra) else 0
  {
    hide Occurrences, Repeated;
    if k > 0 {
      CountFibonacci(k - 1, h, extra, d);
      CountRepeated(k - 1, Occurrences(k - 1, h, extra), d);
      CountConcat(FibonacciText(k - 1, h, extra), Repeated(k - 1, Occurrences(k - 1, h, extra)), d);
    }
  }

  lemma {:induction false} FibonacciLength(k: nat, h: nat, extra: nat)
    requires 0 < k <= h + 1
    ensures |FibonacciText(k, h, extra)| == Spine(k, h, extra).freq
  {
    if k > 1 {
      FibonacciLength(k - 1, h, extra);
    } else {
      assert FibonacciText(0, h, extra) == [];
    }
  }

  function SymbolSet(k: nat, h: nat): (symbols: set<nat>)
    ensures forall c :: c in symbols <==> k <= c <= h
    decreases h + 1 - k
  {
    if k > h then {} else {k} + SymbolSet(k + 1, h)
  }

  lemma FibonacciTable(h: nat, extra: nat)
    requires h > 0
    ensures var t := CountTable(FibonacciText(h + 1, h, extra));
            t.Keys == SymbolSet(0, h) && forall c: nat | c <= h :: t[c] == Occurrences(c, h, extra)
  {
    hide FibonacciText, Occurrences;
    var t := CountTable(FibonacciText(h + 1, h, extra));
    forall c: nat
      ensures c in t <==> c in SymbolSet(0, h)
      ensures c in t ==> t[c] == Occurrences(c, h, extra)
    {
      CountFibonacci(h + 1, h, extra, c);
      OccursAtAll(c, h, extra);
      InTable(FibonacciText(h + 1, h, extra), c);
    }
  }

  lemma InTable(text: seq<nat>, c: nat)
    ensures c in CountTable(text) <==> multiset(text)[c] > 0
    ensures c in CountTable(text) ==> CountTable(text)[c] == multiset(text)[c]
  {
    assert c in text <==> c in multiset(text);
  }

  lemma OccursAtAll(d: nat, h: nat, extra: nat)
    ensures d <= h ==> Occurrences(d, h, extra) > 0
  {
    hide Fib;
    SmallFibs();
    if d > 0 {
      FibMonotone(1, d);
    }
  }

  // The symbols from k on are the items of the table for these keys.
  lemma {:induction false} ItemsFrom(k: nat, h: nat, extra: nat, t: Table)
    requires k <= h + 1 && t.Keys == SymbolSet(0, h) && forall c: nat | c <= h :: t[c] == Occurrences(c, h, extra)
    ensures multiset(SymbolsFrom(k, h, extra)) == Items(SymbolSet(k, h), t)
    decreases h + 1 - k
  {
    hide Items, Occurrences, SymbolsFrom;
    var keys := SymbolSet(k, h);
    if k > h {
      assert keys == {} && SymbolsFrom(k, h, extra) == [];
      NoItems(t);
    } else {
      var rest := SymbolSet(k + 1, h);
      ItemsFrom(k + 1, h, extra, t);
      assert keys == rest + {k};
      AddItem(rest, t, k);
      FirstSymbol(k, h, extra);
    }
  }

  lemma FirstSymbol(k: nat, h: nat, extra: nat)
    requires k <= h
    ensures multiset(SymbolsFrom(k, h, extra)) ==
            multiset(SymbolsFrom(k + 1, h, extra)) + multiset([LeafInfo(k, Occurrences(k, h, extra))])
  {
    assert SymbolsFrom(k, h, extra) == [LeafInfo(k, Occurrences(k, h, extra))] + SymbolsFrom(k + 1, h, extra);
  }

  // The order in which the symbols enter the queue that BuildsSpine starts from.
  function LastIsFirst(h: nat, extra: nat): seq<LeafInfo> {
    SymbolsFrom(1, h, extra) + [LeafInfo(0, Occurrences(0, h, extra))]
  }

  lemma SpineQueue(h: nat, extra: nat)
    ensures LeafTrees(LastIsFirst(h, extra)) == Waiting(1, h, extra)
    ensures multiset(LastIsFirst(h, extra)) == multiset(SymbolsFrom(0, h, extra))
  {
    hide Occurrences, Spine;
    FirstSymbol(0, h, extra);
    FirstSpine(h, extra);
  }

  lemma SpineIsTree(h: nat, extra: nat)
    requires h > 0
    ensures IsTreeOf(Spine(h + 1, h, extra), CountTable(FibonacciText(h + 1, h, extra)))
  {
    hide Items, Occurrences, Spine, Builds, CountTable, FibonacciText, SymbolsFrom, LastIsFirst, LeafTrees, Waiting, SymbolSet;
    FibonacciTable(h, extra);
    ItemsFrom(0, h, extra, CountTable(FibonacciText(h + 1, h, extra)));
    SpineQueue(h, extra);
    BuildsSpine(1, h, extra);
  }

  lemma FirstSpine(h: nat, extra: nat)
    ensures Spine(1, h, extra) == Leaf(0, Occurrences(0, h, extra))
  {
  }

  // The tree for such a text is as deep as it has symbols, and whatever tree is built is this one.
  lemma FibonacciIsDeep(h: nat, extra: nat, root: Tree)
    requires h > 0 && IsTreeOf(root, CountTable(FibonacciText(h + 1, h, extra)))
    ensures Height(root) == h && |FibonacciText(h + 1, h, extra)| == Fib(h + 2) + extra
  {
    hide IsTreeOf, CountTable, FibonacciText;
    SpineIsTree(h, extra);
    TreeIsUnique(CountTable(FibonacciText(h + 1, h, extra)), root, Spine(h + 1, h, extra));
    FibonacciLength(h + 1, h, extra);
    SpineFreq(h + 1, h, extra);
  }

  // ----- The limit

  lemma TreeIsHeavy(text: seq<nat>, root: Tree)
    requires IsTreeOf(root, CountTable(text))
    ensures |text| >= Fib(Height(root) + 2)
  {
    hide Items, Builds, LeafTrees, Heavy, Optimal, Leaves, Height, Fib, CountTable;
    var t := CountTable(text);
    var infos :| multiset(infos) == Items(t.Keys, t) && Builds(LeafTrees(infos), root);
    CountsArePositive(text);
    TreeOfTable(t, infos, root);
    CountsAddUp(text, Leaves(root));
    HeavyMeans(root);
  }

  // The trees of all texts with n symbols are at most h deep exactly when n is below a Fibonacci number.
  lemma HeightWithinIff(n: nat, h: nat)
    ensures (forall text, root :: |text| == n && IsTreeOf(root, CountTable(text)) ==> Height(root) <= h) <==> n < Fib(h + 3)
  {
    hide IsTreeOf, CountTable, Height, Fib, FibonacciText;
    if n < Fib(h + 3) {
      forall text, root | |text| == n && IsTreeOf(root, CountTable(text))
        ensures Height(root) <= h
      {
        TreeIsHeavy(text, root);
        if Height(root) > h {
          FibMonotone(h + 3, Height(root) + 2);
        }
      }
    } else {
      var extra := n - Fib(h + 3);
      SpineIsTree(h + 1, extra);
      FibonacciIsDeep(h + 1, extra, Spine(h + 2, h + 1, extra));
    }
  }

  // No text of n symbols needs a code of more than 32 bits exactly when n is less than 9227465.
  lemma ShortCodesIff(n: nat)
    ensures (forall text, root :: |text| == n && IsTreeOf(root, CountTable(text)) ==> Height(root) <= MAX_DEPTH)
            <==> n < 9227465
  {
    hide IsTreeOf, CountTable, Height, Fib;
    FibThirtyFive();
    HeightWithinIff(n, MAX_DEPTH);
  }
}
