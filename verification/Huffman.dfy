/**
 coding::HuffmanCoder: tables of codes, their serialized form, and texts written and read with them.
 */
module Huffman {
  import opened Options
  import opened Bits
  import opened BitStreams
  import opened HuffmanTree
  import opened HuffmanCodes

  const MAX_DEPTH: nat := 32

  // ----- Tables as maps

  ghost function EncoderMap(es: seq<Entry>): map<nat, Code> {
    if es == [] then map[]
    else EncoderMap(es[..|es| - 1])[es[|es| - 1].symbol := CodeOf(es[|es| - 1].path)]
  }

  ghost function DecoderMap(es: seq<Entry>): map<Code, nat> {
    if es == [] then map[]
    else DecoderMap(es[..|es| - 1])[CodeOf(es[|es| - 1].path) := es[|es| - 1].symbol]
  }

  lemma {:induction false} MapsConcat(a: seq<Entry>, b: seq<Entry>)
    ensures EncoderMap(a + b) == EncoderMap(a) + EncoderMap(b)
    ensures DecoderMap(a + b) == DecoderMap(a) + DecoderMap(b)
  {
    if b == [] {
      assert a + b == a;
    } else {
      assert (a + b)[..|a + b| - 1] == a + b[..|b| - 1];
      MapsConcat(a, b[..|b| - 1]);
    }
  }

  lemma {:induction false} LookUp(es: seq<Entry>, i: nat)
    requires i < |es| && DistinctSymbols(es) && PrefixFree(es)
    ensures es[i].symbol in EncoderMap(es) && EncoderMap(es)[es[i].symbol] == CodeOf(es[i].path)
    ensures CodeOf(es[i].path) in DecoderMap(es) && DecoderMap(es)[CodeOf(es[i].path)] == es[i].symbol
  {
    var n := |es| - 1;
    if i < n {
      LookUp(es[..n], i);
      PathOfCode(es[i].path);
      PathOfCode(es[n].path);
      assert !(es[i].path <= es[n].path);
    }
  }

  lemma {:induction false} OnlyEntries(es: seq<Entry>)
    ensures forall s :: s in EncoderMap(es) ==> exists i :: 0 <= i < |es| && es[i].symbol == s
    ensures forall c :: c in DecoderMap(es) ==> exists i :: 0 <= i < |es| && CodeOf(es[i].path) == c
  {
    if es != [] {
      var n := |es| - 1;
      OnlyEntries(es[..n]);
      assert forall i :: 0 <= i < n ==> es[..n][i] == es[i];
      assert es[n].symbol == es[|es| - 1].symbol;
    }
  }

  // ----- The serialized table

  function EntryBytes(e: Entry): seq<nat> {
    VarUint(ToNat(e.path)) + VarUint(|e.path|) + VarUint(e.symbol)
  }

  function TableBytes(es: seq<Entry>): seq<nat> {
    if es == [] then [] else EntryBytes(es[0]) + TableBytes(es[1..])
  }

  function EncodingBytes(es: seq<Entry>): seq<nat> {
    VarUint(|es|) + TableBytes(es)
  }

  lemma {:induction false} TablePush(es: seq<Entry>, e: Entry)
    ensures TableBytes(es + [e]) == TableBytes(es) + EntryBytes(e)
  {
    hide EntryBytes;
    if es == [] {
      assert [e][1..] == [];
    } else {
      assert (es + [e])[1..] == es[1..] + [e];
      TablePush(es[1..], e);
    }
  }

  // ----- A text in bits

  ghost predicate Encodable(table: map<nat, Code>, text: seq<nat>) {
    forall i :: 0 <= i < |text| ==> text[i] in table
  }

  ghost function Message(table: map<nat, Code>, text: seq<nat>): seq<bool>
    requires Encodable(table, text)
  {
    if text == [] then [] else PathOf(table[text[0]]) + Message(table, text[1..])
  }

  lemma {:induction false} MessageConcat(table: map<nat, Code>, a: seq<nat>, b: seq<nat>)
    requires Encodable(table, a) && Encodable(table, b)
    ensures Encodable(table, a + b) && Message(table, a + b) == Message(table, a) + Message(table, b)
  {
    if a == [] {
      assert a + b == b;
    } else {
      assert (a + b)[1..] == a[1..] + b;
      MessageConcat(table, a[1..], b);
    }
  }

  // ----- Nodes of the coder's tree, each under the path to it

  datatype NodeData = NodeData(isLeaf: bool, symbol: nat)

  type Nodes = map<seq<bool>, NodeData>

  // The tree holds exactly the codes of es as its leaves.
  ghost predicate NodesFor(nodes: Nodes, es: seq<Entry>) {
    && [] in nodes
    && (forall i, k :: 0 <= i < |es| && 0 <= k <= |es[i].path| ==> es[i].path[..k] in nodes)
    && (forall i :: 0 <= i < |es| ==> es[i].path in nodes && nodes[es[i].path] == NodeData(true, es[i].symbol))
    && (forall q | q in nodes && nodes[q].isLeaf :: exists i :: 0 <= i < |es| && es[i].path == q)
  }

  // The nodes of a built tree.
  function NodesOf(t: Tree, path: seq<bool>): (nodes: Nodes)
    ensures path in nodes && forall q | q in nodes :: path <= q
  {
    match t
    case Leaf(s, _) => map[path := NodeData(true, s)]
    case Inner(s, _, l, r) =>
      map[path := NodeData(false, s)] + NodesOf(l, path + [false]) + NodesOf(r, path + [true])
  }

  // Below a path the tree holds exactly the codes of es as its leaves.
  ghost predicate NodesBelow(nodes: Nodes, es: seq<Entry>, path: seq<bool>) {
    && (forall i :: 0 <= i < |es| ==> path <= es[i].path && es[i].path in nodes && nodes[es[i].path] == NodeData(true, es[i].symbol))
    && (forall i, k :: 0 <= i < |es| && |path| <= k <= |es[i].path| ==> es[i].path[..k] in nodes)
    && (forall q | q in nodes && nodes[q].isLeaf :: exists i :: 0 <= i < |es| && es[i].path == q)
  }

  lemma {:induction false} NodesOfTree(t: Tree, path: seq<bool>)
    ensures NodesBelow(NodesOf(t, path), Entries(t, path), path)
  {
    match t
    case Leaf(s, _) =>
      assert path[..|path|] == path;
      assert Entries(t, path)[0].path == path;
    case Inner(s, _, l, r) =>
      NodesOfTree(l, path + [false]);
      NodesOfTree(r, path + [true]);
      TwoSubtrees(NodesOf(l, path + [false]), Entries(l, path + [false]),
                  NodesOf(r, path + [true]), Entries(r, path + [true]), path, s);
  }

  lemma TwoSubtrees(n1: Nodes, es1: seq<Entry>, n2: Nodes, es2: seq<Entry>, path: seq<bool>, symbol: nat)
    requires NodesBelow(n1, es1, path + [false]) && forall q | q in n1 :: path + [false] <= q
    requires NodesBelow(n2, es2, path + [true]) && forall q | q in n2 :: path + [true] <= q
    ensures NodesBelow(map[path := NodeData(false, symbol)] + n1 + n2, es1 + es2, path)
  {
    var nodes, es := map[path := NodeData(false, symbol)] + n1 + n2, es1 + es2;
    assert path !in n1 && path !in n2;
    forall q | q in n1
      ensures |q| > |path| && !q[|path|]
    {
      assert q[|path|] == (path + [false])[|path|];
    }
    forall q | q in n2
      ensures |q| > |path| && q[|path|]
    {
      assert q[|path|] == (path + [true])[|path|];
    }
    forall i | 0 <= i < |es|
      ensures path <= es[i].path && es[i].path in nodes && nodes[es[i].path] == NodeData(true, es[i].symbol)
    {
      assert if i < |es1| then es[i] == es1[i] else es[i] == es2[i - |es1|];
    }
    forall i, k | 0 <= i < |es| && |path| <= k <= |es[i].path|
      ensures es[i].path[..k] in nodes
    {
      if k == |path| {
        assert es[i].path[..k] == path;
      } else if i < |es1| {
        assert es1[i].path[..k] in n1;
      } else {
        assert es2[i - |es1|].path[..k] in n2;
      }
    }
    forall q | q in nodes && nodes[q].isLeaf
      ensures exists i :: 0 <= i < |es| && es[i].path == q
    {
      if q in n1 {
        var i :| 0 <= i < |es1| && es1[i].path == q;
        assert es[i].path == q;
      } else {
        var i :| 0 <= i < |es2| && es2[i].path == q;
        assert es[|es1| + i].path == q;
      }
    }
  }

  lemma BuiltNodes(t: Tree)
    ensures NodesFor(NodesOf(t, []), Entries(t, []))
  {
    NodesOfTree(t, []);
  }

  lemma InnerPath(nodes: Nodes, es: seq<Entry>, i: nat, k: nat)
    requires NodesFor(nodes, es) && PrefixFree(es) && i < |es| && k < |es[i].path|
    ensures es[i].path[..k] in nodes && !nodes[es[i].path[..k]].isLeaf
  {
    var q := es[i].path[..k];
    assert q <= es[i].path && |q| < |es[i].path|;
    forall j | 0 <= j < |es|
      ensures es[j].path != q
    {
      assert j != i ==> !(es[j].path <= es[i].path);
    }
  }

  // Growing the tree by one more code that is no prefix of the others, nor they of it.
  lemma GrowNodes(nodes: Nodes, nodes': Nodes, es: seq<Entry>, e: Entry)
    requires NodesFor(nodes, es) && PrefixFree(es + [e])
    requires nodes'.Keys == nodes.Keys + set k | 0 <= k <= |e.path| :: e.path[..k]
    requires forall q | q in nodes' && q != e.path :: if q in nodes then nodes'[q] == nodes[q] else nodes'[q] == NodeData(false, 0)
    requires e.path in nodes' && nodes'[e.path] == NodeData(true, e.symbol)
    ensures NodesFor(nodes', es + [e])
  {
    var all := es + [e];
    forall i | 0 <= i < |all|
      ensures all[i].path in nodes' && nodes'[all[i].path] == NodeData(true, all[i].symbol)
    {
      if i < |es| {
        assert !(all[i].path <= all[|es|].path);
        assert es[i].path in nodes;
      }
    }
    forall i, k | 0 <= i < |all| && 0 <= k <= |all[i].path|
      ensures all[i].path[..k] in nodes'
    {
      if i < |es| {
        assert es[i].path[..k] in nodes;
      }
    }
    forall q | q in nodes' && nodes'[q].isLeaf
      ensures exists i :: 0 <= i < |all| && all[i].path == q
    {
      if q == e.path {
        assert all[|es|].path == q;
      } else {
        var i :| 0 <= i < |es| && es[i].path == q;
        assert all[i].path == q;
      }
    }
  }

  lemma {:induction false} BitAt(v: nat, n: nat, j: nat)
    requires j < n
    ensures FromNat(v, n)[j] == ((v / Pow2(j)) % 2 == 1)
  {
    if j > 0 {
      BitAt(v / 2, n - 1, j - 1);
      DivTwice(v, Pow2(j - 1));
      assert Pow2(j) == 2 * Pow2(j - 1);
      hide Pow2;
      assert FromNat(v, n)[j] == FromNat(v / 2, n - 1)[j - 1];
    } else {
      assert v / Pow2(0) == v;
    }
  }

  // The codes of a built tree are at most 32 bits long; SetDepths aborts on a deeper one.
  method SetDepths(t: Tree, depth: nat) returns (ok: bool)
    ensures ok <==> depth + Height(t) <= MAX_DEPTH
    decreases t
  {
    if depth > MAX_DEPTH {
      return false;
    }
    match t
    case Leaf(_, _) => ok := true;
    case Inner(_, _, l, r) =>
      ok := SetDepths(l, depth + 1);
      if ok {
        ok := SetDepths(r, depth + 1);
      }
  }

  // The entries of a coder and what its tables and its tree say about them.
  ghost predicate Consistent(es: seq<Entry>) {
    PrefixFree(es) && DistinctSymbols(es)
  }

  lemma NoEntries()
    ensures EncoderMap([]) == map[] && DecoderMap([]) == map[] && Consistent([])
  {
  }

  lemma OneEntry(e: Entry)
    ensures EncoderMap([e]) == map[e.symbol := CodeOf(e.path)]
    ensures DecoderMap([e]) == map[CodeOf(e.path) := e.symbol]
  {
    assert [e][..0] == [];
  }

  lemma AppendBit(bits: seq<bool>, b: bool)
    ensures ToNat(bits + [b]) == ToNat(bits) + (if b then Pow2(|bits|) else 0)
  {
    ToNatConcat(bits, [b]);
    assert [b][1..] == [];
    assert ToNat([b]) == if b then 1 else 0;
  }

  lemma TreeEntries(t: Tree, freqs: Table)
    requires multiset(Leaves(t)) == Items(freqs.Keys, freqs)
    ensures Consistent(Entries(t, []))
    ensures forall s :: s in freqs <==> s in EncoderMap(Entries(t, []))
  {
    hide Leaves, Entries, Items, EncoderMap, DecoderMap, PrefixFree;
    var es := Entries(t, []);
    EntriesArePrefixFree(t, []);
    TableSymbols(t, freqs);
    OnlyEntries(es);
    forall s | s in freqs
      ensures s in EncoderMap(es)
    {
      var i :| 0 <= i < |es| && es[i].symbol == s;
      LookUp(es, i);
    }
  }

  // list holds, in some order, the entries with the given codes.
  ghost predicate Listed(es: seq<Entry>, list: seq<Entry>, codes: set<Code>) {
    && (forall i :: 0 <= i < |list| ==> list[i] in es && CodeOf(list[i].path) in codes)
    && (forall i, j :: 0 <= i < j < |list| ==> CodeOf(list[i].path) != CodeOf(list[j].path))
    && (forall c | c in codes :: exists i :: 0 <= i < |list| && CodeOf(list[i].path) == c)
  }

  // The entries are in the order of their codes.
  ghost predicate InOrder(list: seq<Entry>) {
    forall i, j :: 0 <= i < j < |list| ==> CodeOf(list[i].path).Less(CodeOf(list[j].path))
  }

  ghost predicate AllLess(codes: set<Code>, rest: set<Code>) {
    forall c, d | c in codes && d in rest :: c.Less(d)
  }

  ghost predicate IsLeast(c: Code, codes: set<Code>) {
    forall d | d in codes && d != c :: c.Less(d)
  }

  lemma OrderPush(es: seq<Entry>, list: seq<Entry>, codes: set<Code>, rest: set<Code>, c: Code, e: Entry)
    requires InOrder(list) && Listed(es, list, codes) && CodeOf(e.path) == c
    requires AllLess(codes, rest) && c in rest && IsLeast(c, rest)
    ensures InOrder(list + [e]) && AllLess(codes + {c}, rest - {c})
  {
    hide CodeOf;
  }

  lemma ListNext(es: seq<Entry>, list: seq<Entry>, codes: set<Code>, c: Code) returns (e: Entry)
    requires Consistent(es) && Listed(es, list, codes) && c !in codes && c in DecoderMap(es)
    ensures CodeOf(e.path) == c && e.symbol == DecoderMap(es)[c]
    ensures Listed(es, list + [e], codes + {c})
  {
    hide EncoderMap, DecoderMap, CodeOf, PrefixFree, DistinctSymbols;
    OnlyEntries(es);
    var i :| 0 <= i < |es| && CodeOf(es[i].path) == c;
    LookUp(es, i);
    e := es[i];
    var all := list + [e];
    assert all[|list|] == e;
    forall d | d in codes + {c}
      ensures exists k :: 0 <= k < |all| && CodeOf(all[k].path) == d
    {
      if d != c {
        var k :| 0 <= k < |list| && CodeOf(list[k].path) == d;
        assert all[k] == list[k];
      }
    }
  }

  lemma SamePath(p: seq<bool>, q: seq<bool>)
    ensures CodeOf(p) == CodeOf(q) <==> p == q
  {
    PathOfCode(p);
    PathOfCode(q);
  }

  lemma AllListed(es: seq<Entry>, list: seq<Entry>)
    requires Consistent(es) && Listed(es, list, DecoderMap(es).Keys)
    ensures Consistent(list) && EncoderMap(list) == EncoderMap(es)
  {
    hide EncoderMap, DecoderMap, CodeOf;
    ListedIsConsistent(es, list);
    OnlyEntries(es);
    OnlyEntries(list);
    forall s | s in EncoderMap(es)
      ensures s in EncoderMap(list) && EncoderMap(list)[s] == EncoderMap(es)[s]
    {
      var i :| 0 <= i < |es| && es[i].symbol == s;
      LookUp(es, i);
      var k :| 0 <= k < |list| && CodeOf(list[k].path) == CodeOf(es[i].path);
      SamePath(list[k].path, es[i].path);
      SameEntry(es, i, list[k]);
      LookUp(list, k);
    }
    forall s | s in EncoderMap(list)
      ensures s in EncoderMap(es)
    {
      var k :| 0 <= k < |list| && list[k].symbol == s;
      assert list[k] in es;
      var i :| 0 <= i < |es| && es[i] == list[k];
      LookUp(es, i);
    }
  }

  lemma SameEntry(es: seq<Entry>, i: nat, e: Entry)
    requires PrefixFree(es) && i < |es| && e in es && e.path == es[i].path
    ensures e == es[i]
  {
    var j :| 0 <= j < |es| && es[j] == e;
    assert j != i ==> !(es[i].path <= es[j].path);
  }

  lemma ListedIsConsistent(es: seq<Entry>, list: seq<Entry>)
    requires Consistent(es) && Listed(es, list, DecoderMap(es).Keys)
    ensures Consistent(list)
  {
    hide DecoderMap;
    forall i, j | 0 <= i < |list| && 0 <= j < |list| && i != j
      ensures !(list[i].path <= list[j].path) && list[i].symbol != list[j].symbol
    {
      assert list[i] in es && list[j] in es;
      var a :| 0 <= a < |es| && es[a] == list[i];
      var b :| 0 <= b < |es| && es[b] == list[j];
      assert a != b;
    }
  }

  class HuffmanCoder {
    var nodes: Nodes
    var encoderTable: map<nat, Code>
    var decoderTable: map<Code, nat>
    // The codes of this coder.
    ghost var entries: seq<Entry>

    ghost predicate Valid()
      reads this
    {
      && Consistent(entries)
      && encoderTable == EncoderMap(entries) && decoderTable == DecoderMap(entries)
      && (entries == [] || NodesFor(nodes, entries))
    }

    constructor ()
      ensures Valid() && entries == []
    {
      nodes, encoderTable, decoderTable, entries := map[], map[], map[], [];
    }

    // Builds an optimal code for the frequencies; fails when it would need more than 32 bits.
    method Init(freqs: Table) returns (ok: bool, ghost tree: Option<Tree>)
      modifies this
      ensures tree.None? <==> freqs == map[]
      ensures tree.None? ==> ok && entries == []
      ensures tree.Some? ==>
                && IsTreeOf(tree.value, freqs)
                && multiset(Leaves(tree.value)) == Items(freqs.Keys, freqs) && Optimal(tree.value)
                && (ok <==> Height(tree.value) <= MAX_DEPTH)
                && (ok ==> entries == Entries(tree.value, []))
      ensures (forall s | s in freqs :: freqs[s] > 0) && tree.Some? ==> Heavy(tree.value)
      ensures ok ==> Valid() && forall s :: s in freqs <==> s in encoderTable
    {
      hide IsTreeOf, Optimal, Leaves, Height, Heavy, Entries, Items, PrefixFree, DistinctSymbols, NodesOf, NodesFor;
      nodes, encoderTable, decoderTable, entries := map[], map[], map[], [];
      var root := BuildHuffmanTree(freqs);
      tree := root;
      if root.None? {
        ok := true;
        NoEntries();
        return;
      }
      ok := SetDepths(root.value, 0);
      if ok {
        BuildTables(root.value, 0, 0, []);
        nodes, entries := NodesOf(root.value, []), Entries(root.value, []);
        BuiltNodes(root.value);
        TreeEntries(root.value, freqs);
        assert map[] + EncoderMap(entries) == EncoderMap(entries);
        assert map[] + DecoderMap(entries) == DecoderMap(entries);
      }
    }

    method BuildTables(root: Tree, path: nat, depth: nat, ghost bits: seq<bool>)
      requires |bits| == depth && path == ToNat(bits)
      modifies this`encoderTable, this`decoderTable
      ensures encoderTable == old(encoderTable) + EncoderMap(Entries(root, bits))
      ensures decoderTable == old(decoderTable) + DecoderMap(Entries(root, bits))
      decreases root
    {
      hide EncoderMap, DecoderMap, ToNat, Pow2;
      match root
      case Leaf(symbol, _) =>
        var code := Code(path, depth);
        OneEntry(Entry(bits, symbol));
        encoderTable := encoderTable[symbol := code];
        decoderTable := decoderTable[code := symbol];
      case Inner(_, _, l, r) =>
        AppendBit(bits, false);
        AppendBit(bits, true);
        BuildTables(l, path, depth + 1, bits + [false]);
        BuildTables(r, path + Pow2(depth), depth + 1, bits + [true]);
        MapsConcat(Entries(l, bits + [false]), Entries(r, bits + [true]));
    }

    // The least of some codes, the next one of the program's ordered table.
    static method LeastCode(codes: set<Code>) returns (c: Code)
      requires codes != {}
      ensures c in codes && IsLeast(c, codes)
    {
      c :| c in codes;
      var rest := codes - {c};
      while rest != {}
        invariant c in codes && rest <= codes
        invariant forall d | d in codes && d !in rest && d != c :: c.Less(d)
        decreases rest
      {
        var d :| d in rest;
        if d.Less(c) {
          c := d;
        }
        rest := rest - {d};
      }
    }

    // Writes all codes with their symbols; list is the order in which they are written.
    method WriteEncoding(writer: Sink) returns (ghost list: seq<Entry>)
      requires Valid()
      modifies writer
      ensures writer.data == old(writer.data) + EncodingBytes(list)
      ensures Consistent(list) && EncoderMap(list) == encoderTable
      ensures InOrder(list)
    {
      hide EntryBytes, EncoderMap, DecoderMap, Listed, Consistent, VarUint, TableBytes, InOrder, AllLess, IsLeast, CodeOf;
      ghost var base := writer.data;
      WriteVarUint(writer, |decoderTable|);
      list := [];
      var rest := decoderTable.Keys;
      ghost var done: set<Code> := {};
      NothingListed(entries);
      NothingLess(rest);
      while rest != {}
        invariant rest !! done && rest + done == decoderTable.Keys && |list| == |done|
        invariant Listed(entries, list, done)
        invariant InOrder(list) && AllLess(done, rest)
        invariant writer.data == base + VarUint(|decoderTable|) + TableBytes(list)
        decreases rest
      {
        var c := LeastCode(rest);
        ghost var e := ListNext(entries, list, done, c);
        OrderPush(entries, list, done, rest, c, e);
        TablePush(list, e);
        WriteEntry(writer, c, decoderTable[c], e);
        list := list + [e];
        rest := rest - {c};
        done := done + {c};
      }
      assert done == decoderTable.Keys;
      AllListed(entries, list);
    }

    static method WriteEntry(writer: Sink, c: Code, symbol: nat, ghost e: Entry)
      requires c == CodeOf(e.path) && symbol == e.symbol
      modifies writer
      ensures writer.data == old(writer.data) + EntryBytes(e)
    {
      WriteVarUint(writer, c.bits);
      WriteVarUint(writer, c.len);
      WriteVarUint(writer, symbol);
    }

    // Reads the codes that WriteEncoding has written, and grows the tree for them.
    method ReadEncoding(src: Source, ghost list: seq<Entry>, ghost rest: seq<nat>)
      requires src.Valid() && src.Left() == EncodingBytes(list) + rest && Consistent(list)
      modifies this, src
      ensures src.Valid() && src.Left() == rest
      ensures Valid() && entries == list
    {
      hide EntryBytes, EncoderMap, DecoderMap, VarUint, TableBytes, PrefixFree, DistinctSymbols;
      nodes, encoderTable, decoderTable, entries := map[[] := NodeData(false, 0)], map[], map[], [];
      NoEntries();
      EmptyTree();
      assert src.Left() == VarUint(|list|) + (TableBytes(list) + rest);
      var sz := ReadVarUint(src, |list|, TableBytes(list) + rest);
      for i := 0 to sz
        invariant src.Valid() && src.Left() == TableBytes(list[i..]) + rest
        invariant entries == list[..i] && Valid() && NodesFor(nodes, entries)
      {
        ghost var e := list[i];
        NextEntry(list, i, rest);
        var bits := ReadVarUint(src, ToNat(e.path), VarUint(|e.path|) + VarUint(e.symbol) + TableBytes(list[i + 1..]) + rest);
        var len := ReadVarUint(src, |e.path|, VarUint(e.symbol) + TableBytes(list[i + 1..]) + rest);
        var symbol := ReadVarUint(src, e.symbol, TableBytes(list[i + 1..]) + rest);
        var code := Code(bits, len);
        AddCode(code, symbol, e, list, i);
      }
      assert list[sz..] == [] && list[..sz] == list;
      assert TableBytes([]) + rest == rest by { NoBytes(); }
    }

    method AddCode(code: Code, symbol: nat, ghost e: Entry, ghost list: seq<Entry>, ghost i: nat)
      requires code == CodeOf(e.path) && symbol == e.symbol && i < |list| && e == list[i]
      requires Consistent(list) && entries == list[..i] && Valid() && NodesFor(nodes, entries)
      modifies this
      ensures entries == list[..i + 1] && Valid() && NodesFor(nodes, entries)
    {
      hide EncoderMap, DecoderMap, PrefixFree, DistinctSymbols, NodesFor, ToNat;
      ghost var before := nodes;
      MoreEntries(list, i);
      encoderTable := encoderTable[symbol := code];
      decoderTable := decoderTable[code := symbol];
      entries := list[..i + 1];
      ghost var encoders, decoders := encoderTable, decoderTable;
      RootExists(before, list[..i]);
      var cur: seq<bool> := [];
      assert e.path[..0] == [];
      for j := 0 to code.len
        invariant cur == e.path[..j] && cur in nodes
        invariant entries == list[..i + 1] && encoderTable == encoders && decoderTable == decoders
        invariant nodes.Keys == before.Keys + set k | 0 <= k <= j :: e.path[..k]
        invariant forall q | q in nodes :: if q in before then nodes[q] == before[q] else nodes[q] == NodeData(false, 0)
      {
        CodeBit(e.path, j);
        var next := cur + [(code.bits / Pow2(j)) % 2 == 1];
        assert next == e.path[..j + 1];
        if next !in nodes {
          nodes := nodes[next := NodeData(false, 0)];
        }
        cur := next;
      }
      assert e.path[..code.len] == e.path;
      nodes := nodes[cur := NodeData(true, symbol)];
      GrowNodes(before, nodes, list[..i], e);
      assert entries == list[..i] + [e];
      assert encoderTable == EncoderMap(entries) && decoderTable == DecoderMap(entries);
    }

    // Writes a text as its length and the codes of its symbols; returns the number of their bits.
    method EncodeAndWrite(writer: Sink, text: seq<nat>) returns (sz: nat)
      requires Encodable(encoderTable, text)
      modifies writer
      ensures sz == |Message(encoderTable, text)|
      ensures writer.data == old(writer.data) + VarUint(|text|) + PackAll(Message(encoderTable, text))
    {
      hide VarUint, Message, Pack, Rest, PathOf;
      var bitWriter := new BitWriter(writer);
      WriteVarUint(writer, |text|);
      ghost var base := writer.data;
      sz := 0;
      NoMessage(encoderTable);
      for i := 0 to |text|
        invariant bitWriter.Valid() && fresh(bitWriter)
        invariant Encodable(encoderTable, text[..i]) && sz == |Message(encoderTable, text[..i])|
        invariant writer.data == base + Pack(Message(encoderTable, text[..i]))
        invariant bitWriter.Pending() == Rest(Message(encoderTable, text[..i]))
      {
        MessageNext(encoderTable, text, i);
        var n := WriteSymbol(bitWriter, text[i], base, Message(encoderTable, text[..i]));
        sz := sz + n;
      }
      assert text[..|text|] == text;
      bitWriter.Flush();
    }

    // One code, byte by byte.
    method WriteSymbol(bitWriter: BitWriter, symbol: nat, ghost base: seq<nat>, ghost bits: seq<bool>) returns (n: nat)
      requires symbol in encoderTable && bitWriter.Valid()
      requires bitWriter.writer.data == base + Pack(bits) && bitWriter.Pending() == Rest(bits)
      modifies bitWriter, bitWriter.writer
      ensures bitWriter.Valid() && n == |PathOf(encoderTable[symbol])|
      ensures bitWriter.writer.data == base + Pack(bits + PathOf(encoderTable[symbol]))
      ensures bitWriter.Pending() == Rest(bits + PathOf(encoderTable[symbol]))
    {
      hide Pack, Rest, FromNat;
      var code := encoderTable[symbol];
      var fullBytes, rem := code.len / 8, code.len % 8;
      var left := code.bits;
      ghost var written: seq<bool> := [];
      assert bits + written == bits;
      for i := 0 to fullBytes
        invariant bitWriter.Valid()
        invariant written + FromNat(left, code.len - 8 * i) == FromNat(code.bits, code.len)
        invariant bitWriter.writer.data == base + Pack(bits + written) && bitWriter.Pending() == Rest(bits + written)
      {
        NextPiece(written, left, code.len - 8 * i);
        WritePiece(bitWriter, left % 256, 8, base, bits, written);
        written := written + FromNat(left % 256, 8);
        left := left / 256;
      }
      assert rem == code.len - 8 * fullBytes;
      WritePiece(bitWriter, left, rem, base, bits, written);
      assert encoderTable[symbol] == code && written + FromNat(left, rem) == PathOf(code);
      n := code.len;
    }

    // Some more bits of a code.
    static method WritePiece(bitWriter: BitWriter, value: nat, n: nat, ghost base: seq<nat>, ghost bits: seq<bool>, ghost written: seq<bool>)
      requires bitWriter.Valid() && n <= 8
      requires bitWriter.writer.data == base + Pack(bits + written) && bitWriter.Pending() == Rest(bits + written)
      modifies bitWriter, bitWriter.writer
      ensures bitWriter.Valid()
      ensures bitWriter.writer.data == base + Pack(bits + (written + FromNat(value, n)))
      ensures bitWriter.Pending() == Rest(bits + (written + FromNat(value, n)))
    {
      hide Pack, Rest, FromNat;
      PackConcat(bits + written, FromNat(value, n));
      bitWriter.Write(value, n);
      assert bits + written + FromNat(value, n) == bits + (written + FromNat(value, n));
    }

    // Reads a text that EncodeAndWrite has written, and no byte more.
    method ReadAndDecode(src: Source, ghost text: seq<nat>, ghost rest: seq<nat>) returns (out: seq<nat>)
      requires Valid() && src.Valid() && Encodable(encoderTable, text)
      requires src.Left() == VarUint(|text|) + PackAll(Message(encoderTable, text)) + rest
      requires forall k :: 0 <= k < |rest| ==> rest[k] < 256
      modifies src
      ensures out == text && src.Valid() && src.Left() == rest
    {
      hide VarUint, Message, PackAll, Unpack, PathOf, EncoderMap, DecoderMap, NodesFor;
      ghost var bits := Message(encoderTable, text);
      ghost var packed := PackAll(bits) + rest;
      var bitReader := new BitReader(src);
      assert src.Left() == VarUint(|text|) + packed;
      var sz := ReadVarUint(src, |text|, packed);
      PackAllBytes(bits);
      MessageStream(bits, rest);
      NoMessage(encoderTable);
      BufferedNothing(bitReader);
      out := [];
      for i := 0 to sz
        invariant bitReader.Valid() && fresh(bitReader) && src.pos >= |src.data| - |packed| && packed == src.data[|src.data| - |packed|..]
        invariant |out| == i && out == text[..i]
        invariant Encodable(encoderTable, text[..i])
        invariant |Message(encoderTable, text[..i])| <= |Unpack(packed)|
        invariant bitReader.Stream() == Unpack(packed)[|Message(encoderTable, text[..i])|..]
      {
        MessageNext(encoderTable, text, i);
        CodeIsNext(encoderTable, text, i, Unpack(packed));
        assert forall k :: 0 <= k < |src.Left()| ==> src.Left()[k] == packed[k + |packed| - |src.Left()|];
        ghost var e := EntryOf(encoderTable, entries, text[i]);
        var symbol := ReadSymbol(bitReader, e);
        out := out + [symbol];
      }
      assert text[..sz] == text;
      StreamLength(bitReader);
      UnpackLength(packed);
      assert |src.Left()| == |rest|;
    }

    // One symbol: from the root along the bits to a leaf.
    method ReadSymbol(reader: BitReader, ghost i: nat) returns (symbol: nat)
      requires Valid() && reader.Valid() && i < |entries|
      requires entries[i].path <= reader.Stream()
      requires forall k :: 0 <= k < |reader.src.Left()| ==> reader.src.Left()[k] < 256
      modifies reader, reader.src
      ensures symbol == entries[i].symbol
      ensures reader.Valid() && reader.Stream() == old(reader.Stream())[|entries[i].path|..]
      ensures reader.src.pos >= old(reader.src.pos)
    {
      hide NodesFor, EncoderMap, DecoderMap, ToNat, FromNat, Unpack, Pow2;
      ghost var path, stream := entries[i].path, reader.Stream();
      var cur: seq<bool> := [];
      assert stream[0..] == stream;
      PathInTree(nodes, entries, i);
      while !nodes[cur].isLeaf
        invariant reader.Valid() && cur <= path && cur in nodes
        invariant reader.Stream() == stream[|cur|..] && reader.src.pos >= old(reader.src.pos)
        invariant forall k :: 0 <= k < |reader.src.Left()| ==> reader.src.Left()[k] < 256
        decreases |path| - |cur|
      {
        assert cur != path;
        ghost var before := reader.Stream();
        NextBit(stream, path, cur);
        BitValue(before[..1]);
        var bit := reader.Read(1);
        cur := cur + [bit != 0];
        assert cur == path[..|cur|];
      }
      assert cur == path[..|cur|];
      LeafIsPath(nodes, entries, i, |cur|);
      symbol := nodes[cur].symbol;
    }
  }

  lemma NextPiece(written: seq<bool>, left: nat, n: nat)
    requires n >= 8
    ensures written + FromNat(left % 256, 8) + FromNat(left / 256, n - 8) == written + FromNat(left, n)
  {
    hide FromNat;
    FirstByte(left, n);
  }

  lemma PathInTree(nodes: Nodes, es: seq<Entry>, i: nat)
    requires NodesFor(nodes, es) && i < |es|
    ensures [] in nodes && es[i].path in nodes && nodes[es[i].path].isLeaf
    ensures forall k :: 0 <= k <= |es[i].path| ==> es[i].path[..k] in nodes
  {
  }

  // The next bit of the stream is the next step of the path.
  lemma NextBit(stream: seq<bool>, path: seq<bool>, cur: seq<bool>)
    requires path <= stream && cur <= path && cur != path
    ensures |cur| < |path| && |stream[|cur|..]| >= 1
    ensures stream[|cur|..][..1] == [path[|cur|]] && cur + [path[|cur|]] == path[..|cur| + 1]
    ensures stream[|cur|..][1..] == stream[|cur| + 1..]
  {
  }

  lemma NoMessage(table: map<nat, Code>)
    ensures Message(table, []) == [] && Pack([]) == [] && Rest([]) == []
  {
  }

  lemma BufferedNothing(reader: BitReader)
    requires reader.src.Valid() && reader.bufferedBits == 0
    ensures reader.Stream() == Unpack(reader.src.Left())
  {
  }

  lemma StreamLength(reader: BitReader)
    requires reader.src.Valid()
    ensures |reader.Stream()| == reader.bufferedBits + 8 * |reader.src.Left()|
  {
    UnpackLength(reader.src.Left());
  }

  // The packed message starts with its bits.
  lemma MessageStream(bits: seq<bool>, rest: seq<nat>)
    ensures bits <= Unpack(PackAll(bits) + rest)
  {
    hide PackAll, Unpack;
    UnpackConcat(PackAll(bits), rest);
    UnpackPackAll(bits);
  }

  lemma EntryOf(table: map<nat, Code>, es: seq<Entry>, symbol: nat) returns (i: nat)
    requires table == EncoderMap(es) && Consistent(es) && symbol in table
    ensures i < |es| && es[i].symbol == symbol && PathOf(table[symbol]) == es[i].path
  {
    OnlyEntries(es);
    i :| 0 <= i < |es| && es[i].symbol == symbol;
    LookUp(es, i);
    PathOfCode(es[i].path);
  }

  // Behind the codes read so far the stream goes on with the next one.
  lemma CodeIsNext(table: map<nat, Code>, text: seq<nat>, i: nat, stream: seq<bool>)
    requires Encodable(table, text) && i < |text| && Message(table, text) <= stream
    ensures Encodable(table, text[..i]) && Encodable(table, text[..i + 1])
    ensures Message(table, text[..i]) <= stream && Message(table, text[..i + 1]) <= stream
    ensures PathOf(table[text[i]]) <= stream[|Message(table, text[..i])|..]
    ensures stream[|Message(table, text[..i + 1])|..] == stream[|Message(table, text[..i])|..][|PathOf(table[text[i]])|..]
  {
    hide Message, PathOf;
    MessageNext(table, text, i);
    assert text == text[..i] + text[i..] && text == text[..i + 1] + text[i + 1..];
    MessageConcat(table, text[..i], text[i..]);
    MessageConcat(table, text[..i + 1], text[i + 1..]);
  }

  lemma {:induction false} MessageNext(table: map<nat, Code>, text: seq<nat>, i: nat)
    requires Encodable(table, text) && i < |text|
    ensures Encodable(table, text[..i]) && Encodable(table, text[..i + 1]) && Encodable(table, text[i..]) && Encodable(table, text[i + 1..])
    ensures Message(table, text[..i + 1]) == Message(table, text[..i]) + PathOf(table[text[i]])
    ensures Message(table, text[i..]) == PathOf(table[text[i]]) + Message(table, text[i + 1..])
  {
    hide PathOf;
    assert text[..i + 1] == text[..i] + [text[i]] && text[i..][1..] == text[i + 1..];
    assert [text[i]][1..] == [];
    MessageConcat(table, text[..i], [text[i]]);
    assert Message(table, [text[i]]) == PathOf(table[text[i]]) + Message(table, []);
  }

  lemma NothingLess(rest: set<Code>)
    ensures AllLess({}, rest)
  {
  }

  lemma NothingListed(es: seq<Entry>)
    ensures Listed(es, [], {}) && TableBytes([]) == [] && InOrder([])
  {
  }

  lemma NoBytes()
    ensures TableBytes([]) == []
  {
  }

  lemma EmptyTree()
    ensures NodesFor(map[[] := NodeData(false, 0)], [])
  {
  }

  lemma RootExists(nodes: Nodes, es: seq<Entry>)
    requires NodesFor(nodes, es)
    ensures [] in nodes
  {
  }

  lemma NextEntry(list: seq<Entry>, i: nat, rest: seq<nat>)
    requires i < |list|
    ensures TableBytes(list[i..]) + rest ==
            VarUint(ToNat(list[i].path)) + (VarUint(|list[i].path|) + VarUint(list[i].symbol) + TableBytes(list[i + 1..]) + rest)
    ensures VarUint(|list[i].path|) + VarUint(list[i].symbol) + TableBytes(list[i + 1..]) + rest ==
            VarUint(|list[i].path|) + (VarUint(list[i].symbol) + TableBytes(list[i + 1..]) + rest)
    ensures VarUint(list[i].symbol) + TableBytes(list[i + 1..]) + rest ==
            VarUint(list[i].symbol) + (TableBytes(list[i + 1..]) + rest)
  {
    hide VarUint, ToNat;
    assert list[i..][1..] == list[i + 1..];
  }

  lemma MoreEntries(list: seq<Entry>, i: nat)
    requires i < |list| && Consistent(list)
    ensures Consistent(list[..i]) && Consistent(list[..i + 1])
    ensures list[..i + 1] == list[..i] + [list[i]]
    ensures EncoderMap(list[..i + 1]) == EncoderMap(list[..i])[list[i].symbol := CodeOf(list[i].path)]
    ensures DecoderMap(list[..i + 1]) == DecoderMap(list[..i])[CodeOf(list[i].path) := list[i].symbol]
  {
    hide CodeOf;
    assert list[..i + 1][..i] == list[..i];
  }

  lemma BitValue(bits: seq<bool>)
    requires |bits| == 1
    ensures ToNat(bits) != 0 <==> bits[0]
  {
    assert bits[1..] == [];
  }

  lemma LeafIsPath(nodes: Nodes, es: seq<Entry>, i: nat, k: nat)
    requires NodesFor(nodes, es) && PrefixFree(es) && i < |es| && k <= |es[i].path|
    requires es[i].path[..k] in nodes && nodes[es[i].path[..k]].isLeaf
    ensures es[i].path[..k] == es[i].path && nodes[es[i].path] == NodeData(true, es[i].symbol)
  {
    if k < |es[i].path| {
      InnerPath(nodes, es, i, k);
    }
  }

  lemma CodeBit(path: seq<bool>, j: nat)
    requires j < |path|
    ensures path[j] == ((ToNat(path) / Pow2(j)) % 2 == 1)
  {
    RoundTrip(path);
    BitAt(ToNat(path), |path|, j);
  }
}
