/**
 Edit scripts: the reference meaning of every distance in this project.  A script is a list of
 edits read left to right; it spells out the string it starts from and the string it ends in.
 No piece of either string is touched by two edits, which is what "all transformations are
 applied in parallel" asks for.
 */
module EditScripts {

  // A character is a 32-bit code point in the program; its width plays no role here.
  type UniChar = nat

  datatype Edit =
    | Keep(c: UniChar)
    | Insert(c: UniChar)
    | Delete(c: UniChar)
    | Replace(c: UniChar, d: UniChar)
    | Swap(c: UniChar, d: UniChar)
  {
    // The piece of the first string that this edit consumes.
    function Before(): seq<UniChar> {
      match this
      case Keep(c) => [c]
      case Insert(c) => []
      case Delete(c) => [c]
      case Replace(c, d) => [c]
      case Swap(c, d) => [c, d]
    }

    // The piece of the second string that this edit produces.
    function After(): seq<UniChar> {
      match this
      case Keep(c) => [c]
      case Insert(c) => [c]
      case Delete(c) => []
      case Replace(c, d) => [d]
      case Swap(c, d) => [d, c]
    }

    function Price(): nat {
      if Keep? then 0 else 1
    }
  }

  type Script = seq<Edit>

  ghost function Source(es: Script): seq<UniChar> {
    if es == [] then [] else es[0].Before() + Source(es[1..])
  }

  ghost function Target(es: Script): seq<UniChar> {
    if es == [] then [] else es[0].After() + Target(es[1..])
  }

  ghost function Cost(es: Script): nat {
    if es == [] then 0 else es[0].Price() + Cost(es[1..])
  }

  // Which edits a distance may use.
  datatype Kind = WithSwaps | NoSwaps | IndelsOnly

  ghost predicate Uses(es: Script, kind: Kind) {
    match kind
    case WithSwaps => true
    case NoSwaps => forall e | e in es :: !e.Swap?
    case IndelsOnly => forall e | e in es :: !e.Swap? && !e.Replace?
  }

  ghost predicate Transforms(es: Script, kind: Kind, s: seq<UniChar>, w: seq<UniChar>) {
    Uses(es, kind) && Source(es) == s && Target(es) == w
  }

  // d is the least price of a script of the given kind that turns s into w.
  ghost predicate IsDistance(d: nat, kind: Kind, s: seq<UniChar>, w: seq<UniChar>) {
    && (exists es :: Transforms(es, kind, s, w) && Cost(es) == d)
    && (forall es :: Transforms(es, kind, s, w) ==> d <= Cost(es))
  }

  lemma {:induction false} ScriptConcat(a: Script, b: Script)
    ensures Source(a + b) == Source(a) + Source(b)
    ensures Target(a + b) == Target(a) + Target(b)
    ensures Cost(a + b) == Cost(a) + Cost(b)
  {
    if a == [] {
      assert a + b == b;
    } else {
      assert (a + b)[1..] == a[1..] + b;
      ScriptConcat(a[1..], b);
      Reassociate(a[0].Before(), Source(a[1..]), Source(b));
      Reassociate(a[0].After(), Target(a[1..]), Target(b));
    }
  }

  lemma Reassociate(x: seq<UniChar>, y: seq<UniChar>, z: seq<UniChar>)
    ensures (x + y) + z == x + (y + z)
  {
  }

  lemma ScriptCons(e: Edit, es: Script)
    ensures Source([e] + es) == e.Before() + Source(es)
    ensures Target([e] + es) == e.After() + Target(es)
    ensures Cost([e] + es) == e.Price() + Cost(es)
  {
    assert ([e] + es)[1..] == es;
  }

  lemma ExtendFront(e: Edit, es: Script, kind: Kind, s: seq<UniChar>, w: seq<UniChar>)
    requires Transforms(es, kind, s, w)
    requires Uses([e], kind)
    ensures Transforms([e] + es, kind, e.Before() + s, e.After() + w)
    ensures Cost([e] + es) == e.Price() + Cost(es)
  {
    ScriptCons(e, es);
    assert forall x | x in [e] + es :: x in [e] || x in es;
  }

  lemma ExtendBack(es: Script, e: Edit, kind: Kind, s: seq<UniChar>, w: seq<UniChar>)
    requires Transforms(es, kind, s, w) && Uses([e], kind)
    ensures Transforms(es + [e], kind, s + e.Before(), w + e.After()) && Cost(es + [e]) == Cost(es) + e.Price()
  {
    ScriptPush(es, e);
  }

  lemma ScriptPush(es: Script, e: Edit)
    ensures Source(es + [e]) == Source(es) + e.Before()
    ensures Target(es + [e]) == Target(es) + e.After()
    ensures Cost(es + [e]) == Cost(es) + e.Price()
  {
    ScriptConcat(es, [e]);
    ScriptCons(e, []);
    assert [e] + [] == [e];
  }

  lemma DistanceUnique(d: nat, d': nat, kind: Kind, s: seq<UniChar>, w: seq<UniChar>)
    requires IsDistance(d, kind, s, w) && IsDistance(d', kind, s, w)
    ensures d == d'
  {
    var es :| Transforms(es, kind, s, w) && Cost(es) == d;
    var es' :| Transforms(es', kind, s, w) && Cost(es') == d';
  }

  // A richer set of edits never makes a distance larger.
  lemma MoreEditsHelp(d: nat, d': nat, kind: Kind, s: seq<UniChar>, w: seq<UniChar>)
    requires IsDistance(d, kind, s, w) && IsDistance(d', WithSwaps, s, w)
    ensures d' <= d
  {
    var es :| Transforms(es, kind, s, w) && Cost(es) == d;
    assert Transforms(es, WithSwaps, s, w);
  }
}
