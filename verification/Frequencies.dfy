/**
 The frequencies from which a Huffman code is built, and what the leaves of its tree add up to.
 */
module Frequencies {
  import opened Kraft
  import opened HuffmanTree

  // How often each symbol of a text occurs in it.
  ghost function CountTable(text: seq<nat>): Table {
    map c | c in text :: multiset(text)[c]
  }

  method CountSymbols(text: seq<nat>) returns (freqs: Table)
    ensures freqs.Keys == (set c | c in text) && forall c | c in text :: freqs[c] == multiset(text)[c]
    ensures freqs == CountTable(text)
  {
    freqs := map[];
    for i := 0 to |text|
      invariant freqs == CountTable(text[..i])
    {
      CountNext(text[..i], text[i]);
      assert text[..i + 1] == text[..i] + [text[i]];
      freqs := freqs[text[i] := (if text[i] in freqs then freqs[text[i]] else 0) + 1];
    }
    assert text[..|text|] == text;
  }

  lemma CountNext(text: seq<nat>, c: nat)
    ensures var t := CountTable(text);
            CountTable(text + [c]) == t[c := (if c in t then t[c] else 0) + 1]
  {
  }

  lemma CountsArePositive(text: seq<nat>)
    ensures forall c :: c in CountTable(text) <==> c in text
    ensures forall c | c in CountTable(text) :: CountTable(text)[c] > 0
  {
  }

  // ----- What the leaves add up to, when every occurrence of a symbol counts f of it

  ghost function Lengths(leaves: seq<LeafInfo>, f: nat -> nat): (r: seq<nat>)
    ensures |r| == |leaves| && forall i :: 0 <= i < |r| ==> r[i] == f(leaves[i].symbol)
  {
    seq<nat>(|leaves|, i requires 0 <= i < |leaves| => f(leaves[i].symbol))
  }

  ghost function LeafTotal(leaves: seq<LeafInfo>, f: nat -> nat): nat {
    Total(Freqs(leaves), Lengths(leaves, f))
  }

  ghost function TextTotal(text: seq<nat>, f: nat -> nat): nat {
    if text == [] then 0 else TextTotal(text[..|text| - 1], f) + f(text[|text| - 1])
  }

  // Counting by leaves comes to the same as counting along the text.
  lemma {:induction false} TotalsAgree(text: seq<nat>, leaves: seq<LeafInfo>, f: nat -> nat)
    requires multiset(leaves) == Items(CountTable(text).Keys, CountTable(text))
    ensures LeafTotal(leaves, f) == TextTotal(text, f)
  {
    hide LeafTotal, Items, Kraft.Without;
    if text == [] {
      NoLeaves(leaves, f);
    } else {
      var text', c := text[..|text| - 1], text[|text| - 1];
      var leaves' := TakeOne(text, leaves, f);
      TotalsAgree(text', leaves', f);
    }
  }

  lemma NoLeaves(leaves: seq<LeafInfo>, f: nat -> nat)
    requires multiset(leaves) == Items(CountTable([]).Keys, CountTable([]))
    ensures LeafTotal(leaves, f) == 0
  {
    assert |multiset(leaves)| == |leaves|;
    assert CountTable([]).Keys == {};
    assert Items({}, map[]) == multiset{};
    assert leaves == [];
  }

  lemma LeafTotalWithout(leaves: seq<LeafInfo>, i: nat, f: nat -> nat)
    requires i < |leaves|
    ensures LeafTotal(leaves, f) == LeafTotal(Kraft.Without(leaves, i), f) + leaves[i].freq * f(leaves[i].symbol)
  {
    hide Total;
    TotalWithout(Freqs(leaves), Lengths(leaves, f), i);
    assert Freqs(Kraft.Without(leaves, i)) == Kraft.Without(Freqs(leaves), i);
    assert Lengths(Kraft.Without(leaves, i), f) == Kraft.Without(Lengths(leaves, f), i);
  }

  // Takes the leaf of a symbol away.
  lemma TakeLeaf(leaves: seq<LeafInfo>, t: Table, c: nat, f: nat -> nat) returns (rest: seq<LeafInfo>)
    requires multiset(leaves) == Items(t.Keys, t) && c in t
    ensures multiset(rest) == Items(t.Keys - {c}, t)
    ensures LeafTotal(leaves, f) == LeafTotal(rest, f) + t[c] * f(c)
  {
    hide LeafTotal, Items;
    var leaf := LeafInfo(c, t[c]);
    SplitItem(t, c);
    assert leaf in multiset(leaves);
    var i :| 0 <= i < |leaves| && leaves[i] == leaf;
    rest := Kraft.Without(leaves, i);
    MultisetWithout(leaves, i);
    LeafTotalWithout(leaves, i, f);
    assert multiset([leaf]) == multiset{leaf};
  }

  // Adds a leaf for a symbol.
  lemma PutLeaf(rest: seq<LeafInfo>, t: Table, c: nat, f: nat -> nat) returns (leaves: seq<LeafInfo>)
    requires c in t && multiset(rest) == Items(t.Keys - {c}, t)
    ensures multiset(leaves) == Items(t.Keys, t)
    ensures LeafTotal(leaves, f) == LeafTotal(rest, f) + t[c] * f(c)
  {
    hide LeafTotal, Items;
    SplitItem(t, c);
    leaves := [LeafInfo(c, t[c])] + rest;
    LeafTotalWithout(leaves, 0, f);
    assert Kraft.Without(leaves, 0) == rest;
  }

  // The leaves for a text that is one symbol shorter.
  lemma TakeOne(text: seq<nat>, leaves: seq<LeafInfo>, f: nat -> nat) returns (leaves': seq<LeafInfo>)
    requires text != [] && multiset(leaves) == Items(CountTable(text).Keys, CountTable(text))
    ensures var text' := text[..|text| - 1];
            multiset(leaves') == Items(CountTable(text').Keys, CountTable(text'))
    ensures LeafTotal(leaves, f) == LeafTotal(leaves', f) + f(text[|text| - 1])
  {
    hide LeafTotal, Items, CountTable;
    var text', c := text[..|text| - 1], text[|text| - 1];
    var t, t' := CountTable(text), CountTable(text');
    assert text == text' + [c];
    CountNext(text', c);
    var rest := TakeLeaf(leaves, t, c, f);
    assert t.Keys - {c} == t'.Keys - {c};
    SameItems(t.Keys - {c}, t, t');
    if c in t' {
      leaves' := PutLeaf(rest, t', c, f);
      OneTimeMore(t'[c], f(c));
    } else {
      assert t'.Keys - {c} == t'.Keys;
      leaves' := rest;
    }
  }

  lemma OneTimeMore(n: nat, x: nat)
    ensures (n + 1) * x == n * x + x
  {
  }

  lemma SplitItem(t: Table, c: nat)
    requires c in t
    ensures Items(t.Keys, t) == Items(t.Keys - {c}, t) + multiset([LeafInfo(c, t[c])])
  {
    assert t.Keys - {c} + {c} == t.Keys;
    AddItem(t.Keys - {c}, t, c);
  }

  lemma SameItems(keys: set<nat>, t: Table, t': Table)
    requires keys <= t.Keys && keys <= t'.Keys && forall k | k in keys :: t[k] == t'[k]
    ensures Items(keys, t) == Items(keys, t')
  {
    assert (set k | k in keys :: LeafInfo(k, t[k])) == (set k | k in keys :: LeafInfo(k, t'[k]));
  }

  // The frequencies of all symbols add up to the length of the text.
  lemma CountsAddUp(text: seq<nat>, leaves: seq<LeafInfo>)
    requires multiset(leaves) == Items(CountTable(text).Keys, CountTable(text))
    ensures Sum(Freqs(leaves)) == |text|
  {
    hide Freqs, Items, CountTable;
    var one: nat -> nat := _ => 1;
    TotalsAgree(text, leaves, one);
    TotalOfOnes(Freqs(leaves), Lengths(leaves, one));
    TextOfOnes(text, one);
  }

  lemma {:induction false} TotalOfOnes(ws: seq<nat>, ds: seq<nat>)
    requires |ws| == |ds| && forall i :: 0 <= i < |ds| ==> ds[i] == 1
    ensures Total(ws, ds) == Sum(ws)
  {
    if ws != [] {
      TotalOfOnes(ws[1..], ds[1..]);
    }
  }

  lemma {:induction false} TextOfOnes(text: seq<nat>, f: nat -> nat)
    requires forall x :: f(x) == 1
    ensures TextTotal(text, f) == |text|
  {
    if text != [] {
      TextOfOnes(text[..|text| - 1], f);
    }
  }
}
