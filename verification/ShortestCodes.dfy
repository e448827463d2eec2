/**
 Why a Huffman code is worth building: no other prefix-free code makes the text shorter.
 */
module ShortestCodes {
  import opened Bits
  import opened Kraft
  import opened HuffmanTree
  import opened HuffmanCodes
  import opened Huffman
  import opened Frequencies

  // ----- Kraft's inequality

  ghost predicate PathsFree(ps: seq<seq<bool>>) {
    forall i, j :: 0 <= i < |ps| && 0 <= j < |ps| && i != j ==> !(ps[i] <= ps[j])
  }

  ghost predicate NoneEmpty(ps: seq<seq<bool>>) {
    forall i :: 0 <= i < |ps| ==> ps[i] != []
  }

  ghost function Sizes(ps: seq<seq<bool>>): (r: seq<nat>)
    ensures |r| == |ps| && forall i :: 0 <= i < |r| ==> r[i] == |ps[i]|
  {
    seq(|ps|, i requires 0 <= i < |ps| => |ps[i]|)
  }

  // What follows the first bit of the paths that begin with b.
  ghost function Tails(ps: seq<seq<bool>>, b: bool): seq<seq<bool>>
    requires NoneEmpty(ps)
  {
    if ps == [] then []
    else (if ps[0][0] == b then [ps[0][1..]] else []) + Tails(ps[1..], b)
  }

  lemma {:induction false} TailsAreFree(ps: seq<seq<bool>>, b: bool)
    requires NoneEmpty(ps) && PathsFree(ps)
    ensures PathsFree(Tails(ps, b)) && forall x | x in Tails(ps, b) :: [b] + x in ps
  {
    if ps != [] {
      var first, rest := ps[0], ps[1..];
      TailsAreFree(rest, b);
      var tails := Tails(rest, b);
      forall x | x in tails
        ensures [b] + x in rest && !(first <= [b] + x) && !([b] + x <= first)
      {
        var k :| 0 <= k < |rest| && rest[k] == [b] + x;
        assert ps[k + 1] == rest[k];
      }
      if first[0] == b {
        assert [b] + first[1..] == first;
        PutPathFirst(first[1..], tails, b);
      } else {
        assert Tails(ps, b) == tails;
      }
    }
  }

  lemma PutPathFirst(p: seq<bool>, ps: seq<seq<bool>>, b: bool)
    requires PathsFree(ps) && forall x | x in ps :: !([b] + p <= [b] + x) && !([b] + x <= [b] + p)
    ensures PathsFree([p] + ps)
  {
    forall x | x in ps
      ensures !(p <= x) && !(x <= p)
    {
      BehindFirstBit(b, p, x);
      BehindFirstBit(b, x, p);
    }
    var all := [p] + ps;
    forall i, j | 0 <= i < |all| && 0 <= j < |all| && i != j
      ensures !(all[i] <= all[j])
    {
      assert i > 0 ==> all[i] == ps[i - 1] && all[i] in ps;
      assert j > 0 ==> all[j] == ps[j - 1] && all[j] in ps;
    }
  }

  lemma BehindFirstBit(b: bool, p: seq<bool>, x: seq<bool>)
    ensures p <= x <==> [b] + p <= [b] + x
  {
    assert ([b] + p)[1..] == p && ([b] + x)[1..] == x;
  }

  lemma FreeMeans(ps: seq<seq<bool>>, i: nat, j: nat)
    requires PathsFree(ps) && i < |ps| && j < |ps| && i != j
    ensures !(ps[i] <= ps[j])
  {
  }

  // Half of the space for each first bit.
  lemma {:induction false} TailsUse(ps: seq<seq<bool>>, top: nat)
    requires NoneEmpty(ps) && IsTop(Sizes(ps), top) && top > 0
    ensures IsTop(Sizes(Tails(ps, false)), top - 1) && IsTop(Sizes(Tails(ps, true)), top - 1)
    ensures Used(Sizes(ps), top) == Used(Sizes(Tails(ps, false)), top - 1) + Used(Sizes(Tails(ps, true)), top - 1)
  {
    hide Used, Pow2;
    if ps == [] {
      NothingUsed(top);
      NothingUsed(top - 1);
      assert Sizes(ps) == [];
    } else {
      var first, rest := ps[0], ps[1..];
      SizesFirst(ps);
      assert IsTop(Sizes(rest), top);
      TailsUse(rest, top);
      UsedFirst(Sizes(ps), top);
      var own, other := Tails(rest, first[0]), Tails(rest, !first[0]);
      assert Tails(ps, first[0]) == [first[1..]] + own && Tails(ps, !first[0]) == other;
      SizesFirst([first[1..]] + own);
      assert ([first[1..]] + own)[1..] == own;
      UsedFirst(Sizes([first[1..]] + own), top - 1);
    }
  }

  lemma SizesFirst(ps: seq<seq<bool>>)
    requires ps != []
    ensures Sizes(ps)[0] == |ps[0]| && Sizes(ps)[1..] == Sizes(ps[1..])
  {
  }

  lemma NothingUsed(top: nat)
    ensures IsTop([], top) && Used([], top) == 0
  {
  }

  // The codes of which none is a prefix of another one never need more than the space there is.
  lemma {:induction false} KraftInequality(ps: seq<seq<bool>>, top: nat)
    requires PathsFree(ps) && IsTop(Sizes(ps), top)
    ensures FitsCode(Sizes(ps), top)
    decreases top
  {
    hide Used, Pow2, PathsFree, Tails, Sizes;
    if !NoneEmpty(ps) {
      var i :| 0 <= i < |ps| && ps[i] == [];
      AloneInCode(ps, i, top);
    } else if ps == [] {
      NothingUsed(top);
      assert Sizes(ps) == [];
    } else {
      assert top > 0 by {
        assert Sizes(ps)[0] == |ps[0]|;
      }
      hide IsTop;
      TailsUse(ps, top);
      TailsAreFree(ps, false);
      TailsAreFree(ps, true);
      KraftInequality(Tails(ps, false), top - 1);
      KraftInequality(Tails(ps, true), top - 1);
      TwoHalves(top);
    }
  }

  lemma TwoHalves(top: nat)
    requires top > 0
    ensures Pow2(top) == 2 * Pow2(top - 1)
  {
  }

  lemma AloneInCode(ps: seq<seq<bool>>, i: nat, top: nat)
    requires PathsFree(ps) && IsTop(Sizes(ps), top) && i < |ps| && ps[i] == []
    ensures Used(Sizes(ps), top) == Pow2(top)
  {
    hide PathsFree;
    if |ps| > 1 {
      FreeMeans(ps, i, if i == 0 then 1 else 0);
      assert false;
    }
    assert Sizes(ps) == [0];
    assert Used([], top) == 0;
    assert [0][1..] == [];
  }

  lemma {:induction false} SomeTop(ds: seq<nat>) returns (top: nat)
    ensures IsTop(ds, top)
  {
    if ds == [] {
      top := 0;
    } else {
      var t := SomeTop(ds[1..]);
      top := if t < ds[0] then ds[0] else t;
      assert forall i :: 0 < i < |ds| ==> ds[i] == ds[1..][i - 1];
    }
  }

  // ----- The length of a message

  ghost function CodeLength(m: map<nat, Code>): nat -> nat {
    c => if c in m then m[c].len else 0
  }

  lemma {:induction false} MessageLength(m: map<nat, Code>, text: seq<nat>)
    requires Encodable(m, text)
    ensures |Message(m, text)| == TextTotal(text, CodeLength(m))
    decreases |text|
  {
    if text != [] {
      var text', c := text[..|text| - 1], text[|text| - 1];
      assert text == text' + [c];
      assert [c][1..] == [];
      MessageConcat(m, text', [c]);
      MessageLength(m, text');
    }
  }

  // The leaves have different symbols, those of the text.
  lemma LeafSymbols(tree: Tree, text: seq<nat>)
    requires multiset(Leaves(tree)) == Items(CountTable(text).Keys, CountTable(text))
    ensures var ls := Leaves(tree);
            && (forall i, j :: 0 <= i < j < |ls| ==> ls[i].symbol != ls[j].symbol)
            && (forall i :: 0 <= i < |ls| ==> ls[i].symbol in text)
  {
    hide Leaves, Entries, Items;
    var es, ls := Entries(tree, []), Leaves(tree);
    TableSymbols(tree, CountTable(text));
    EntriesMatchLeaves(tree, []);
    forall i, j | 0 <= i < j < |ls|
      ensures ls[i].symbol != ls[j].symbol
    {
      assert es[i].symbol != es[j].symbol;
    }
    forall i | 0 <= i < |ls|
      ensures ls[i].symbol in text
    {
      assert es[i].symbol in CountTable(text);
    }
  }

  // The lengths that a code gives to the symbols of the leaves satisfy Kraft's inequality.
  lemma LengthsFit(leaves: seq<LeafInfo>, list: seq<Entry>) returns (top: nat)
    requires Consistent(list) && forall i :: 0 <= i < |leaves| ==> leaves[i].symbol in EncoderMap(list)
    requires forall i, j :: 0 <= i < j < |leaves| ==> leaves[i].symbol != leaves[j].symbol
    ensures FitsCode(Lengths(leaves, CodeLength(EncoderMap(list))), top)
  {
    hide EncoderMap, FitsCode;
    var m := EncoderMap(list);
    var ps := seq(|leaves|, i requires 0 <= i < |leaves| => PathOf(m[leaves[i].symbol]));
    forall i, j | 0 <= i < |ps| && 0 <= j < |ps| && i != j
      ensures !(ps[i] <= ps[j])
    {
      var k := EntryOf(list, leaves[i].symbol);
      var l := EntryOf(list, leaves[j].symbol);
      assert list[k].symbol != list[l].symbol;
    }
    assert Sizes(ps) == Lengths(leaves, CodeLength(m));
    top := SomeTop(Sizes(ps));
    KraftInequality(ps, top);
  }

  lemma EntryOf(list: seq<Entry>, c: nat) returns (k: nat)
    requires Consistent(list) && c in EncoderMap(list)
    ensures k < |list| && list[k].symbol == c && PathOf(EncoderMap(list)[c]) == list[k].path
  {
    hide EncoderMap, PathOf, CodeOf;
    OnlyEntries(list);
    k :| 0 <= k < |list| && list[k].symbol == c;
    LookUp(list, k);
    PathOfCode(list[k].path);
  }

  // The lengths of a tree's own codes are the depths of its leaves.
  lemma LengthsOfTree(tree: Tree)
    requires Consistent(Entries(tree, []))
    ensures Lengths(Leaves(tree), CodeLength(EncoderMap(Entries(tree, [])))) == Depths(tree, 0)
  {
    hide Leaves, Entries, EncoderMap, Depths;
    var es, ls := Entries(tree, []), Leaves(tree);
    EntriesMatchLeaves(tree, []);
    PathLengths(tree, []);
    forall i | 0 <= i < |ls|
      ensures CodeLength(EncoderMap(es))(ls[i].symbol) == Depths(tree, 0)[i]
    {
      LookUp(es, i);
    }
  }

  // Every prefix-free code that can write the text needs at least as many bits for it.
  ghost predicate IsShortest(list: seq<Entry>, text: seq<nat>) {
    && Encodable(EncoderMap(list), text)
    && forall list' | Consistent(list') && Encodable(EncoderMap(list'), text) ::
         |Message(EncoderMap(list), text)| <= |Message(EncoderMap(list'), text)|
  }

  // That holds for the codes of an optimal tree, in whatever order they are listed.
  lemma OptimalIsShortest(tree: Tree, text: seq<nat>, list: seq<Entry>)
    requires multiset(Leaves(tree)) == Items(CountTable(text).Keys, CountTable(text)) && Optimal(tree)
    requires Consistent(Entries(tree, [])) && EncoderMap(list) == EncoderMap(Entries(tree, []))
    requires Encodable(EncoderMap(list), text)
    ensures IsShortest(list, text)
  {
    hide Leaves, Entries, Items, Encodable, Message, CountTable, Consistent;
    forall list' | Consistent(list') && Encodable(EncoderMap(list'), text)
      ensures |Message(EncoderMap(list), text)| <= |Message(EncoderMap(list'), text)|
    {
      NoShorterCode(tree, text, list');
    }
  }

  lemma NoShorterCode(tree: Tree, text: seq<nat>, list': seq<Entry>)
    requires multiset(Leaves(tree)) == Items(CountTable(text).Keys, CountTable(text)) && Optimal(tree)
    requires Consistent(Entries(tree, [])) && Encodable(EncoderMap(Entries(tree, [])), text)
    requires Consistent(list') && Encodable(EncoderMap(list'), text)
    ensures |Message(EncoderMap(Entries(tree, [])), text)| <= |Message(EncoderMap(list'), text)|
  {
    hide Leaves, Entries, Items, Message, CountTable, Consistent, EncoderMap, FitsCode, Total, TextTotal;
    var m, m' := EncoderMap(Entries(tree, [])), EncoderMap(list');
    var ls := Leaves(tree);
    MessageLength(m, text);
    MessageLength(m', text);
    TotalsAgree(text, ls, CodeLength(m));
    TotalsAgree(text, ls, CodeLength(m'));
    LengthsOfTree(tree);
    LeafSymbols(tree, text);
    assert forall i :: 0 <= i < |ls| ==> ls[i].symbol in m';
    var top := LengthsFit(ls, list');
  }
}
