/**
 TransitionTable: where a position, and a whole state, of the Levenshtein automaton goes on one
 character.
 */
module LevenshteinMoves {
  import opened EditScripts
  import opened Sequences
  import opened LevenshteinStates

  // The index of the first c in t, or |t| when there is none.
  function FirstIndex(t: seq<UniChar>, c: UniChar): (i: nat)
    ensures i <= |t|
    ensures i < |t| ==> t[i] == c
    ensures forall k :: 0 <= k < i ==> t[k] != c
  {
    if t == [] || t[0] == c then 0 else 1 + FirstIndex(t[1..], c)
  }

  datatype TransitionTable = TransitionTable(s: seq<UniChar>, prefixMisprints: seq<seq<UniChar>>, prefixSize: nat)
  {
    // The positions a state may hold: a transposed one still has both swapped characters ahead.
    predicate Fits(p: Position) {
      p.offset <= |s| && (p.transposed ==> p.offset + 2 <= |s|)
    }

    predicate IsAllowedPrefixMisprint(c: UniChar, position: nat)
      requires position < |s|
    {
      exists m | m in prefixMisprints :: c in m && s[position] in m
    }

    // How many characters to skip before c matches, when that many errors are left.
    ghost predicate Relevant(p: Position, c: UniChar, i: nat)
      requires p.offset <= |s|
    {
      i < Min(|s| - p.offset, p.errorsLeft + 1) && i == FirstIndex(s[p.offset..], c)
    }

    ghost function Moves(p: Position, c: UniChar): Positions
      requires Fits(p) && prefixSize <= |s|
    {
      var Position(o, e, _) := p;
      if p.transposed then
        if s[o] == c then [Position(o + 2, e, false)] else []
      else if o < |s| && s[o] == c then
        [Position(o + 1, e, false)]
      else if e == 0 then
        []
      else
        [Position(o, e - 1, false)] +
        if o < prefixSize then
          if IsAllowedPrefixMisprint(c, o) then [Position(o + 1, e - 1, false)] else []
        else if o == |s| then
          []
        else
          [Position(o + 1, e - 1, false)] +
          var i := FirstIndex(s[o..], c);
          if !Relevant(p, c, i) then []
          else [Position(o + i + 1, e - i, false)] + if i == 1 then [Position(o, e - 1, true)] else []
    }

    ghost predicate AllFit(ps: Positions) {
      forall p | p in ps :: Fits(p)
    }

    ghost function AllMoves(ps: Positions, c: UniChar): set<Position>
      requires AllFit(ps) && prefixSize <= |s|
    {
      set p, q | p in ps && q in Moves(p, c) :: q
    }

    // The state that follows ps on c, by its meaning.
    ghost function Next(ps: Positions, c: UniChar): Positions
      requires AllFit(ps) && prefixSize <= |s|
    {
      Canon(Maximal(AllMoves(ps, c)))
    }

    method FindRelevant(p: Position, c: UniChar) returns (found: bool, i: nat)
      requires p.offset <= |s|
      ensures found <==> Relevant(p, c, FirstIndex(s[p.offset..], c))
      ensures found ==> i == FirstIndex(s[p.offset..], c)
    {
      var limit := Min(|s| - p.offset, p.errorsLeft + 1);
      i := 0;
      while i < limit
        invariant i <= limit
        invariant forall k :: 0 <= k < i ==> s[p.offset..][k] != c
      {
        if s[p.offset + i] == c {
          assert s[p.offset..][i] == c;
          return true, i;
        }
        i := i + 1;
      }
      found := false;
    }

    method GetMoves(p: Position, c: UniChar, t: State)
      requires Fits(p) && prefixSize <= |s|
      modifies t
      ensures t.positions == old(t.positions) + Moves(p, c)
    {
      if p.transposed {
        if p.offset + 2 <= |s| && s[p.offset] == c {
          t.positions := t.positions + [Position(p.offset + 2, p.errorsLeft, false)];
        }
        return;
      }
      if p.offset < |s| && s[p.offset] == c {
        t.positions := t.positions + [Position(p.offset + 1, p.errorsLeft, false)];
        return;
      }
      if p.errorsLeft == 0 {
        return;
      }
      t.positions := t.positions + [Position(p.offset, p.errorsLeft - 1, false)];
      if p.offset < prefixSize {
        if IsAllowedPrefixMisprint(c, p.offset) {
          t.positions := t.positions + [Position(p.offset + 1, p.errorsLeft - 1, false)];
        }
        return;
      }
      if p.offset == |s| {
        return;
      }
      t.positions := t.positions + [Position(p.offset + 1, p.errorsLeft - 1, false)];
      var found, i := FindRelevant(p, c);
      if found {
        assert i > 0 && p.offset + i + 1 <= |s|;
        t.positions := t.positions + [Position(p.offset + i + 1, p.errorsLeft - i, false)];
        if i == 1 {
          t.positions := t.positions + [Position(p.offset, p.errorsLeft - 1, true)];
        }
      }
    }

    method Move(ps: Positions, c: UniChar, t: State)
      requires AllFit(ps) && prefixSize <= |s|
      modifies t
      ensures t.positions == Next(ps, c)
    {
      t.Clear();
      for k := 0 to |ps|
        invariant Elems(t.positions) == AllMoves(ps[..k], c)
      {
        ghost var before := t.positions;
        GetMoves(ps[k], c, t);
        assert Elems(t.positions) == Elems(before) + Elems(Moves(ps[k], c));
        assert AllMoves(ps[..k + 1], c) == AllMoves(ps[..k], c) + Elems(Moves(ps[k], c)) by {
          assert ps[..k + 1] == ps[..k] + [ps[k]];
        }
      }
      assert ps[..|ps|] == ps;
      t.Normalize();
    }

    // ----- What every move keeps

    lemma MovesFit(p: Position, c: UniChar, q: Position)
      requires Fits(p) && prefixSize <= |s| && q in Moves(p, c)
      ensures Fits(q) && q.errorsLeft <= p.errorsLeft
    {
    }

    lemma NextFits(ps: Positions, c: UniChar)
      requires AllFit(ps) && prefixSize <= |s|
      ensures AllFit(Next(ps, c)) && StrictlySorted(Next(ps, c))
      ensures forall q | q in Next(ps, c) :: exists p :: p in ps && q.errorsLeft <= p.errorsLeft
    {
      forall q | q in Next(ps, c)
        ensures Fits(q) && exists p :: p in ps && q.errorsLeft <= p.errorsLeft
      {
        assert q in Elems(Next(ps, c));
        var p :| p in ps && q in Moves(p, c);
        MovesFit(p, c, q);
      }
    }

    // Every character that the pattern and the misprint sets leave out acts like any other such one.
    lemma UnknownCharsAgree(ps: Positions, c: UniChar, d: UniChar)
      requires AllFit(ps) && prefixSize <= |s|
      requires c !in s && d !in s
      requires forall m, k | m in prefixMisprints && 0 <= k < prefixSize && s[k] in m :: c !in m && d !in m
      ensures Next(ps, c) == Next(ps, d)
    {
      forall p | p in ps
        ensures Moves(p, c) == Moves(p, d)
      {
        var i, j := FirstIndex(s[p.offset..], c), FirstIndex(s[p.offset..], d);
        assert forall k :: 0 <= k < |s| - p.offset ==> s[p.offset..][k] in s;
      }
      assert AllMoves(ps, c) == AllMoves(ps, d);
    }
  }
}
