/**
 The automaton with a restricted prefix: which edits an accepted word may need there, and which
 words with a misprint in the prefix are accepted.
 */
module LevenshteinPrefixes {
  import opened EditScripts
  import opened LevenshteinStates
  import opened LevenshteinMoves
  import opened LevenshteinLanguage

  // ----- Scripts that respect the prefix

  // Both characters are in one set of misprints.
  ghost predicate ShareSet(t: TransitionTable, c: UniChar, d: UniChar) {
    exists m :: m in t.prefixMisprints && c in m && d in m
  }

  // Within the prefix characters are kept or replaced by a misprint, and others may be put between them.
  ghost predicate MayEdit(t: TransitionTable, place: nat, e: Edit) {
    place < t.prefixSize ==>
      match e
      case Keep(_) => true
      case Insert(_) => true
      case Replace(c, d) => ShareSet(t, c, d)
      case Delete(_) => false
      case Swap(_, _) => false
  }

  ghost predicate Respects(t: TransitionTable, es: Script) {
    forall i :: 0 <= i < |es| ==> MayEdit(t, |Source(es[..i])|, es[i])
  }

  // The script turns the first o characters of the pattern into w at the given cost.
  ghost predicate Spells(t: TransitionTable, es: Script, o: nat, w: seq<UniChar>, cost: nat)
    requires o <= |t.s|
  {
    Transforms(es, WithSwaps, t.s[..o], w) && Respects(t, es) && Cost(es) == cost
  }

  lemma PushSpelled(t: TransitionTable, es: Script, o: nat, w: seq<UniChar>, cost: nat, e: Edit)
    requires o <= |t.s| && Spells(t, es, o, w, cost) && MayEdit(t, o, e)
    requires o + |e.Before()| <= |t.s| && e.Before() == t.s[o..o + |e.Before()|]
    ensures Spells(t, es + [e], o + |e.Before()|, w + e.After(), cost + e.Price())
  {
    var all := es + [e];
    ScriptPush(es, e);
    assert t.s[..o] + e.Before() == t.s[..o + |e.Before()|];
    forall i | 0 <= i < |all|
      ensures MayEdit(t, |Source(all[..i])|, all[i])
    {
      if i < |es| {
        assert all[..i] == es[..i] && all[i] == es[i];
      } else {
        assert all[..i] == es;
      }
    }
  }

  lemma {:induction false} PushDeletes(t: TransitionTable, es: Script, o: nat, w: seq<UniChar>, cost: nat, i: nat) returns (es': Script)
    requires t.prefixSize <= o && o + i <= |t.s| && Spells(t, es, o, w, cost)
    ensures Spells(t, es', o + i, w, cost + i)
    decreases i
  {
    if i == 0 {
      es' := es;
    } else {
      hide Spells;
      var e := Delete(t.s[o]);
      assert w + e.After() == w && e.Before() == t.s[o..o + 1];
      PushSpelled(t, es, o, w, cost, e);
      es' := PushDeletes(t, es + [e], o + 1, w, cost + 1, i - 1);
    }
  }

  // ----- Every position of a run stands for such a script

  // With a transposed position the second character of the swap has been read, the first one has not.
  ghost predicate IsSpelled(t: TransitionTable, maxErrors: nat, p: Position, w: seq<UniChar>, es: Script) {
    && t.Fits(p) && p.errorsLeft <= maxErrors
    && if !p.transposed then Spells(t, es, p.offset, w, maxErrors - p.errorsLeft)
       else
         && p.errorsLeft < maxErrors && t.prefixSize <= p.offset && w != [] && w[|w| - 1] == t.s[p.offset + 1]
         && Spells(t, es, p.offset, w[..|w| - 1], maxErrors - p.errorsLeft - 1)
  }

  lemma MoveIsSpelled(t: TransitionTable, maxErrors: nat, p: Position, c: UniChar, q: Position, w: seq<UniChar>, es: Script)
    returns (es': Script)
    requires t.prefixSize <= |t.s| && IsSpelled(t, maxErrors, p, w, es) && q in t.Moves(p, c)
    ensures IsSpelled(t, maxErrors, q, w + [c], es')
  {
    hide ShareSet, FirstIndex, Spells;
    var s, o, e := t.s, p.offset, p.errorsLeft;
    if p.transposed {
      es' := SwapIsSpelled(t, maxErrors, p, c, w, es);
    } else if o < |s| && s[o] == c {
      es' := EditIsSpelled(t, maxErrors, p, Keep(c), w, es);
    } else if q == Position(o, e - 1, false) {
      es' := EditIsSpelled(t, maxErrors, p, Insert(c), w, es);
    } else if q == Position(o + 1, e - 1, false) {
      AllowedReplace(t, p, c, q);
      es' := EditIsSpelled(t, maxErrors, p, Replace(s[o], c), w, es);
    } else {
      es' := SkipIsSpelled(t, maxErrors, p, c, q, w, es);
    }
  }

  // An edit of one character at most.
  lemma EditIsSpelled(t: TransitionTable, maxErrors: nat, p: Position, e: Edit, w: seq<UniChar>, es: Script) returns (es': Script)
    requires IsSpelled(t, maxErrors, p, w, es) && !p.transposed && MayEdit(t, p.offset, e)
    requires e.Keep? || e.Insert? || e.Replace?
    requires !e.Insert? ==> p.offset < |t.s| && e.c == t.s[p.offset]
    requires e.Price() <= p.errorsLeft
    ensures IsSpelled(t, maxErrors, Position(p.offset + |e.Before()|, p.errorsLeft - e.Price(), false), w + e.After(), es')
  {
    hide Spells, MayEdit;
    assert e.Before() == t.s[p.offset..p.offset + |e.Before()|];
    PushSpelled(t, es, p.offset, w, maxErrors - p.errorsLeft, e);
    es' := es + [e];
  }

  lemma SwapIsSpelled(t: TransitionTable, maxErrors: nat, p: Position, c: UniChar, w: seq<UniChar>, es: Script) returns (es': Script)
    requires IsSpelled(t, maxErrors, p, w, es) && p.transposed && t.s[p.offset] == c
    ensures IsSpelled(t, maxErrors, Position(p.offset + 2, p.errorsLeft, false), w + [c], es')
  {
    hide Spells;
    var s, o, first := t.s, p.offset, w[..|w| - 1];
    var swap := Swap(s[o], s[o + 1]);
    assert swap.Before() == s[o..o + 2];
    assert first + swap.After() == w + [c];
    PushSpelled(t, es, o, first, maxErrors - p.errorsLeft - 1, swap);
    es' := es + [swap];
  }

  // Within the prefix only misprints are replaced.
  lemma AllowedReplace(t: TransitionTable, p: Position, c: UniChar, q: Position)
    requires t.prefixSize <= |t.s| && t.Fits(p) && !p.transposed && p.offset < |t.s| && t.s[p.offset] != c
    requires p.errorsLeft > 0 && q == Position(p.offset + 1, p.errorsLeft - 1, false) && q in t.Moves(p, c)
    ensures MayEdit(t, p.offset, Replace(t.s[p.offset], c))
  {
    if p.offset < t.prefixSize {
      assert t.IsAllowedPrefixMisprint(c, p.offset);
    }
  }

  // The moves that skip to the next c.
  lemma SkippingMove(t: TransitionTable, p: Position, c: UniChar, q: Position) returns (i: nat)
    requires t.prefixSize <= |t.s| && t.Fits(p) && !p.transposed && q in t.Moves(p, c)
    requires p.offset == |t.s| || t.s[p.offset] != c
    requires q != Position(p.offset, p.errorsLeft - 1, false) && q != Position(p.offset + 1, p.errorsLeft - 1, false)
    ensures t.prefixSize <= p.offset && p.offset + i < |t.s| && t.s[p.offset + i] == c && i <= p.errorsLeft
    ensures q == Position(p.offset + i + 1, p.errorsLeft - i, false) || (i == 1 && q == Position(p.offset, p.errorsLeft - 1, true))
  {
    i := FirstIndex(t.s[p.offset..], c);
    hide FirstIndex;
  }

  // The characters before the next c are deleted, or one is swapped with it.
  lemma SkipIsSpelled(t: TransitionTable, maxErrors: nat, p: Position, c: UniChar, q: Position, w: seq<UniChar>, es: Script)
    returns (es': Script)
    requires t.prefixSize <= |t.s| && IsSpelled(t, maxErrors, p, w, es) && !p.transposed && q in t.Moves(p, c)
    requires p.offset == |t.s| || t.s[p.offset] != c
    requires q != Position(p.offset, p.errorsLeft - 1, false) && q != Position(p.offset + 1, p.errorsLeft - 1, false)
    ensures IsSpelled(t, maxErrors, q, w + [c], es')
  {
    hide Spells, TransitionTable.Moves;
    var s, o, e := t.s, p.offset, p.errorsLeft;
    var i := SkippingMove(t, p, c, q);
    if q.transposed {
      assert (w + [c])[..|w|] == w;
      es' := es;
    } else {
      var skipped := PushDeletes(t, es, o, w, maxErrors - e, i);
      assert Keep(c).Before() == s[o + i..o + i + 1];
      PushSpelled(t, skipped, o + i, w, maxErrors - e + i, Keep(c));
      es' := skipped + [Keep(c)];
    }
  }

  lemma {:induction false} RunIsSpelled(t: TransitionTable, maxErrors: nat, w: seq<UniChar>, q: Position) returns (es: Script)
    requires t.prefixSize <= |t.s| && q in Run(t, maxErrors, w)
    ensures IsSpelled(t, maxErrors, q, w, es)
    decreases |w|
  {
    hide IsSpelled, Run, TransitionTable.Next, TransitionTable.Moves, TransitionTable.AllFit;
    if w == [] {
      es := [];
      RunAtStart(t, maxErrors, q);
      StartIsSpelled(t, maxErrors);
    } else {
      var w', c := w[..|w| - 1], w[|w| - 1];
      RunAtEnd(t, maxErrors, w);
      var p := CameFrom(t, Run(t, maxErrors, w'), c, q);
      var es0 := RunIsSpelled(t, maxErrors, w', p);
      es := MoveIsSpelled(t, maxErrors, p, c, q, w', es0);
      assert w' + [c] == w;
    }
  }

  lemma RunAtStart(t: TransitionTable, maxErrors: nat, q: Position)
    requires t.prefixSize <= |t.s| && q in Run(t, maxErrors, [])
    ensures q == Position(0, maxErrors, false)
  {
  }

  lemma RunAtEnd(t: TransitionTable, maxErrors: nat, w: seq<UniChar>)
    requires t.prefixSize <= |t.s| && w != []
    ensures Run(t, maxErrors, w) == t.Next(Run(t, maxErrors, w[..|w| - 1]), w[|w| - 1])
  {
    hide TransitionTable.Next;
  }

  lemma CameFrom(t: TransitionTable, ps: Positions, c: UniChar, q: Position) returns (p: Position)
    requires t.prefixSize <= |t.s| && t.AllFit(ps) && q in t.Next(ps, c)
    ensures p in ps && q in t.Moves(p, c)
  {
    hide TransitionTable.Moves;
    assert q in Elems(t.Next(ps, c));
    p :| p in ps && q in t.Moves(p, c);
  }

  lemma StartIsSpelled(t: TransitionTable, maxErrors: nat)
    ensures IsSpelled(t, maxErrors, Position(0, maxErrors, false), [], [])
  {
    assert t.s[..0] == [];
  }

  // An accepted word comes from the pattern by as many edits as are reported, no more than allowed:
  // a script that respects the prefix, and the deletion of what is left of the pattern.
  lemma PrefixIsRespected(t: TransitionTable, maxErrors: nat, w: seq<UniChar>, n: int) returns (o: nat, es: Script)
    requires t.prefixSize <= |t.s| && Accepts(t, Run(t, maxErrors, w))
    requires IsErrorsMade(t, maxErrors, Run(t, maxErrors, w), n)
    ensures o <= |t.s| && Transforms(es, WithSwaps, t.s[..o], w) && Respects(t, es)
    ensures Cost(es) + (|t.s| - o) == n <= maxErrors
  {
    hide Run, Respects;
    var ps := Run(t, maxErrors, w);
    var p :| p in ps && IsAccepting(t, p) && n == maxErrors - (p.errorsLeft - (|t.s| - p.offset));
    o := p.offset;
    es := RunIsSpelled(t, maxErrors, w, p);
  }

  // ----- One misprint

  lemma RunStep(t: TransitionTable, maxErrors: nat, u: seq<UniChar>, c: UniChar)
    requires t.prefixSize <= |t.s|
    ensures Run(t, maxErrors, u + [c]) == t.Next(Run(t, maxErrors, u), c)
  {
    var w := u + [c];
    assert w[..|w| - 1] == u;
  }

  lemma OneMove(t: TransitionTable, p: Position, c: UniChar, q: Position)
    requires t.prefixSize <= |t.s| && t.Fits(p) && t.Moves(p, c) == [q]
    ensures t.Next([p], c) == [q]
  {
    hide TransitionTable.Moves;
    var moves := t.AllMoves([p], c);
    assert q in t.Moves(p, c) && p in [p];
    assert moves == {q};
    assert Maximal({q}) == {q};
    assert Elems([q]) == {q};
    SortedIsUnique(Canon({q}), [q]);
  }

  lemma KeepMove(t: TransitionTable, o: nat, e: nat)
    requires t.prefixSize <= |t.s| && o < |t.s|
    ensures t.Moves(Position(o, e, false), t.s[o]) == [Position(o + 1, e, false)]
  {
  }

  lemma OnTrackStep(t: TransitionTable, maxErrors: nat, u: seq<UniChar>, o: nat, e: nat)
    requires t.prefixSize <= |t.s| && o < |t.s| && Run(t, maxErrors, u) == [Position(o, e, false)]
    ensures Run(t, maxErrors, u + [t.s[o]]) == [Position(o + 1, e, false)]
  {
    hide Run, TransitionTable.Next, TransitionTable.AllFit, TransitionTable.Moves;
    RunStep(t, maxErrors, u, t.s[o]);
    KeepMove(t, o, e);
    OneMove(t, Position(o, e, false), t.s[o], Position(o + 1, e, false));
  }

  // As long as the word is the pattern there is one position only.
  lemma {:induction false} OnTrack(t: TransitionTable, maxErrors: nat, k: nat)
    requires t.prefixSize <= |t.s| && k <= |t.s|
    ensures Run(t, maxErrors, t.s[..k]) == [Position(k, maxErrors, false)]
  {
    hide TransitionTable.Next, TransitionTable.AllFit;
    if k > 0 {
      var u := t.s[..k - 1];
      assert u + [t.s[k - 1]] == t.s[..k];
      hide Run;
      OnTrack(t, maxErrors, k - 1);
      OnTrackStep(t, maxErrors, u, k - 1, maxErrors);
    } else {
      assert t.s[..k] == [];
    }
  }

  // The position is in the state, and none has more errors left.
  ghost predicate Leads(ps: Positions, q: Position) {
    q in ps && forall p | p in ps :: p.errorsLeft <= q.errorsLeft
  }

  lemma LeadsOn(t: TransitionTable, ps: Positions, o: nat, e: nat, c: UniChar)
    requires t.prefixSize <= |t.s| && t.AllFit(ps) && o < |t.s| && t.s[o] == c
    requires Leads(ps, Position(o, e, false))
    ensures Leads(t.Next(ps, c), Position(o + 1, e, false))
  {
    var p, q := Position(o, e, false), Position(o + 1, e, false);
    var moves := t.AllMoves(ps, c);
    assert t.Moves(p, c) == [q];
    assert p in ps && q in t.Moves(p, c);
    assert q in moves;
    forall r | r in moves
      ensures r.errorsLeft <= e
    {
      var p' :| p' in ps && r in t.Moves(p', c);
      t.MovesFit(p', c, r);
    }
    assert q in Maximal(moves);
    assert forall r :: r in t.Next(ps, c) <==> r in Elems(t.Next(ps, c));
  }

  lemma {:induction false} LeadsToEnd(t: TransitionTable, maxErrors: nat, u: seq<UniChar>, o: nat, e: nat, k: nat)
    requires t.prefixSize <= |t.s| && o + k <= |t.s| && Leads(Run(t, maxErrors, u), Position(o, e, false))
    ensures Leads(Run(t, maxErrors, u + t.s[o..o + k]), Position(o + k, e, false))
    decreases k
  {
    hide Leads, Run, TransitionTable.Next, TransitionTable.AllFit;
    if k == 0 {
      assert u + t.s[o..o + k] == u;
    } else {
      var u', c := u + t.s[o..o + k - 1], t.s[o + k - 1];
      LeadsToEnd(t, maxErrors, u, o, e, k - 1);
      LeadsOn(t, Run(t, maxErrors, u'), o + k - 1, e, c);
      RunStep(t, maxErrors, u', c);
      assert u' + [c] == u + t.s[o..o + k];
    }
  }

  lemma Misprinted(t: TransitionTable, maxErrors: nat, k: nat, d: UniChar)
    requires k < t.prefixSize <= |t.s| && d != t.s[k] && ShareSet(t, t.s[k], d) && maxErrors > 0
    ensures Leads(Run(t, maxErrors, t.s[..k] + [d]), Position(k + 1, maxErrors - 1, false))
  {
    hide Run, TransitionTable.Next, TransitionTable.AllFit;
    OnTrack(t, maxErrors, k);
    RunStep(t, maxErrors, t.s[..k], d);
    MisprintLeads(t, maxErrors, k, d);
  }

  lemma MisprintLeads(t: TransitionTable, e: nat, k: nat, d: UniChar)
    requires k < t.prefixSize <= |t.s| && d != t.s[k] && ShareSet(t, t.s[k], d) && e > 0
    ensures Leads(t.Next([Position(k, e, false)], d), Position(k + 1, e - 1, false))
  {
    var p, q := Position(k, e, false), Position(k + 1, e - 1, false);
    assert t.IsAllowedPrefixMisprint(d, k);
    var both := [Position(k, e - 1, false), q];
    assert t.Moves(p, d) == both;
    assert both[1] == q;
    assert q in t.Moves(p, d);
    hide TransitionTable.Moves;
    assert p in [p];
    var moves := t.AllMoves([p], d);
    assert q in moves;
    assert forall r :: r in moves ==> r.errorsLeft == e - 1;
    assert q in Maximal(moves);
    assert forall r :: r in t.Next([p], d) <==> r in Elems(t.Next([p], d));
  }

  // The pattern with one misprint of its prefix is accepted, with one error.
  lemma MisprintIsAccepted(t: TransitionTable, maxErrors: nat, k: nat, d: UniChar, n: int)
    requires k < t.prefixSize <= |t.s| && d != t.s[k] && ShareSet(t, t.s[k], d) && maxErrors > 0
    requires IsErrorsMade(t, maxErrors, Run(t, maxErrors, t.s[k := d]), n)
    ensures Accepts(t, Run(t, maxErrors, t.s[k := d])) && n == 1
  {
    hide Run, ShareSet;
    var u, w := t.s[..k] + [d], t.s[k := d];
    Misprinted(t, maxErrors, k, d);
    LeadsToEnd(t, maxErrors, u, k + 1, maxErrors - 1, |t.s| - k - 1);
    assert u + t.s[k + 1..|t.s|] == w;
    assert IsAccepting(t, Position(|t.s|, maxErrors - 1, false));
  }

  // ----- One error only

  lemma {:induction false} NoCostIsEqual(es: Script)
    requires Cost(es) == 0
    ensures Source(es) == Target(es)
  {
    if es != [] {
      NoCostIsEqual(es[1..]);
    }
  }

  // A script of one edit: nothing is changed before it and behind it.
  lemma {:induction false} SingleEdit(es: Script) returns (front: Script, e: Edit, back: Script)
    requires Cost(es) == 1
    ensures es == front + [e] + back && e.Price() == 1
    ensures Source(front) == Target(front) && Source(back) == Target(back)
  {
    var first, rest := es[0], es[1..];
    assert es == [first] + rest;
    if first.Keep? {
      front, e, back := SingleEdit(rest);
      KeepFirst(first.c, front);
      front := [first] + front;
    } else {
      front, e, back := [], first, rest;
      NoCostIsEqual(rest);
    }
  }

  lemma KeepFirst(c: UniChar, es: Script)
    requires Source(es) == Target(es)
    ensures Source([Keep(c)] + es) == Target([Keep(c)] + es)
  {
    ScriptCons(Keep(c), es);
  }

  lemma ThreeParts(front: Script, e: Edit, back: Script)
    ensures Source(front + [e] + back) == Source(front) + e.Before() + Source(back)
    ensures Target(front + [e] + back) == Target(front) + e.After() + Target(back)
  {
    ScriptConcat(front + [e], back);
    ScriptPush(front, e);
  }

  // Where a single edit changes one character of the prefix, it is a misprint.
  lemma SingleChange(t: TransitionTable, es: Script, s: seq<UniChar>, k: nat, d: UniChar)
    requires k < |s| && k < t.prefixSize && d != s[k]
    requires Transforms(es, WithSwaps, s, s[k := d]) && Respects(t, es) && Cost(es) <= 1
    ensures ShareSet(t, s[k], d)
  {
    hide ShareSet;
    assert s[k := d][k] == d;
    if Cost(es) == 0 {
      NoCostIsEqual(es);
    } else {
      var front, e, back := SingleEdit(es);
      ThreeParts(front, e, back);
      assert es[..|front|] == front && es[|front|] == e;
      assert MayEdit(t, |Source(front)|, e);
      EditAt(Source(front), e, Source(back), s, k, d);
    }
  }

  lemma EditAt(front: seq<UniChar>, e: Edit, back: seq<UniChar>, s: seq<UniChar>, k: nat, d: UniChar)
    requires k < |s| && d != s[k] && e.Price() == 1
    requires s == front + e.Before() + back && s[k := d] == front + e.After() + back
    ensures |front| <= k && (e.Replace? ==> e == Replace(s[k], d))
    ensures e.Replace? || e.Swap?
  {
    var w := s[k := d];
    forall j | 0 <= j < |s|
      ensures j < |front| ==> s[j] == front[j] == w[j]
      ensures e.Replace? && j > |front| ==> s[j] == back[j - |front| - 1] == w[j]
    {
      assert s[j] == (front + e.Before() + back)[j] && w[j] == (front + e.After() + back)[j];
    }
    assert w[k] == d;
    if e.Replace? && k == |front| {
      assert (front + e.Before() + back)[k] == e.c && (front + e.After() + back)[k] == e.d;
    }
    assert |w| == |s|;
  }

  // With one error allowed, the pattern with one other character in its prefix is accepted exactly
  // when that is a misprint.
  lemma MisprintIff(t: TransitionTable, k: nat, d: UniChar)
    requires k < t.prefixSize <= |t.s| && d != t.s[k]
    ensures Accepts(t, Run(t, 1, t.s[k := d])) <==> ShareSet(t, t.s[k], d)
  {
    hide Run, ShareSet, Respects, IsErrorsMade, Accepts;
    var w := t.s[k := d];
    var n := SomeErrors(t, 1, Run(t, 1, w));
    if ShareSet(t, t.s[k], d) {
      MisprintIsAccepted(t, 1, k, d, n);
    } else if Accepts(t, Run(t, 1, w)) {
      var o, es := PrefixIsRespected(t, 1, w, n);
      LengthByCost(es);
      assert o == |t.s| && t.s[..o] == t.s;
      SingleChange(t, es, t.s, k, d);
    }
  }

  lemma {:induction false} LengthByCost(es: Script)
    ensures |Target(es)| <= |Source(es)| + Cost(es)
  {
    if es != [] {
      LengthByCost(es[1..]);
    }
  }

  lemma {:induction false} SomeErrors(t: TransitionTable, maxErrors: nat, ps: Positions) returns (n: int)
    requires t.AllFit(ps)
    ensures IsErrorsMade(t, maxErrors, ps, n)
  {
    if ps == [] {
      n := maxErrors;
    } else {
      var rest, p := ps[..|ps| - 1], ps[|ps| - 1];
      n := SomeErrors(t, maxErrors, rest);
      assert ps == rest + [p];
      if IsAccepting(t, p) && maxErrors - (p.errorsLeft - (|t.s| - p.offset)) < n {
        n := maxErrors - (p.errorsLeft - (|t.s| - p.offset));
      }
    }
  }
}
