/**
 What the Levenshtein automaton decides, for prefixSize == 0: after any word its state accepts
 exactly when the distance from the pattern to the word is within maxErrors, and then reports that
 distance.  Nothing is lost by greedy matching, by skipping straight to the next match or by
 dropping subsumed positions.
 */
module LevenshteinLanguage {
  import opened EditScripts
  import opened Osa
  import opened LevenshteinStates
  import opened LevenshteinMoves

  // ----- The best use of the errors left

  // How many errors remain when, from p, the rest of the pattern has been turned into w at the
  // least price; negative when p cannot afford it.
  ghost function Left(t: TransitionTable, p: Position, w: seq<UniChar>): int
    requires t.Fits(p)
  {
    if !p.transposed then p.errorsLeft - Dist(t.s[p.offset..], w)
    else if w != [] && w[0] == t.s[p.offset] then p.errorsLeft - Dist(t.s[p.offset + 2..], w[1..])
    else -1
  }

  // Some position of ps reads w to the end of the pattern with at least v errors left.
  ghost predicate Finishes(t: TransitionTable, ps: set<Position>, w: seq<UniChar>, v: nat)
    requires forall p | p in ps :: t.Fits(p)
  {
    exists p :: p in ps && Left(t, p, w) >= v
  }

  // ----- Subsumption is safe

  // A position that another one subsumes is worse on every remaining word.
  lemma SubsumedIsWorse(t: TransitionTable, p: Position, q: Position, w: seq<UniChar>)
    requires t.Fits(p) && t.Fits(q) && p.SubsumedBy(q)
    requires Left(t, p, w) >= 0
    ensures Left(t, p, w) <= Left(t, q, w)
  {
    hide Dist;
    if !p.transposed && !q.transposed {
      Apart(t.s, p.offset, q.offset, w);
    } else if !p.transposed {
      NothingLeft(t.s, p.offset, w);
    } else if !q.transposed {
      SwapByOneMore(t.s, p.offset, q.offset, w);
    }
  }

  // Two places of the pattern that are k apart differ by at most k in distance to any word.
  lemma Apart(s: seq<UniChar>, a: nat, b: nat, w: seq<UniChar>)
    requires a <= |s| && b <= |s|
    ensures Dist(s[b..], w) <= Dist(s[a..], w) + AbsDiff(a, b)
  {
    if a <= b {
      SkipFromSource(s[a..], w, b - a);
      assert s[a..][b - a..] == s[b..];
    } else {
      SkipFromSource(s[b..], w, a - b);
      assert s[b..][a - b..] == s[a..];
    }
  }

  // A word equal to the rest of the pattern is one deletion away from it behind a pending swap.
  lemma NothingLeft(s: seq<UniChar>, a: nat, w: seq<UniChar>)
    requires a + 2 <= |s| && Dist(s[a..], w) == 0
    ensures w != [] && w[0] == s[a] && Dist(s[a + 2..], w[1..]) <= 1
  {
    hide Dist;
    ZeroDistIsEqual(s[a..], w);
    assert w[1..][1..] == s[a + 2..];
    NoOptionIsLess(s[a + 2..], w[1..]);
    DistOfEqual(s[a + 2..]);
  }

  // A pending swap at a, once its first character is read, costs no less than standing at b with
  // max(1, |a + 1 - b|) errors more.
  lemma SwapByOneMore(s: seq<UniChar>, a: nat, b: nat, w: seq<UniChar>)
    requires a + 2 <= |s| && b <= |s| && w != [] && w[0] == s[a]
    ensures Dist(s[b..], w) <= Dist(s[a + 2..], w[1..]) + (if a + 1 == b then 1 else AbsDiff(a + 1, b))
  {
    hide Dist;
    if b <= a {
      // delete up to a, match s[a], delete s[a + 1]
      Apart(s, a, b, w);
      GreedyMatch(s[a..], w);
      assert s[a..][1..] == s[a + 1..];
      Apart(s, a + 2, a + 1, w[1..]);
    } else if b == a + 1 {
      // replace s[a + 1]
      assert s[b..][1..] == s[a + 2..];
      NoOptionIsLess(s[b..], w);
    } else {
      // insert the character, then make up for the pattern characters already passed
      Apart(s, a + 2, b, w[1..]);
      InsertFirst(s[b..], w);
    }
  }

  lemma InsertFirst(s: seq<UniChar>, w: seq<UniChar>)
    requires w != []
    ensures Dist(s, w) <= 1 + Dist(s, w[1..])
  {
  }

  // Normalize does not change what a state can still do.
  lemma MaximalFinishes(t: TransitionTable, ps: set<Position>, w: seq<UniChar>, v: nat)
    requires forall p | p in ps :: t.Fits(p)
    ensures Finishes(t, Maximal(ps), w, v) <==> Finishes(t, ps, w, v)
  {
    if p :| p in ps && Left(t, p, w) >= v {
      var q := Top(t, ps, p, w);
    }
  }

  ghost function Above(ps: set<Position>, p: Position): set<Position> {
    set q | q in ps && p.SubsumedBy(q)
  }

  // Climbs from p to a position that nothing in ps subsumes.
  lemma {:induction false} Top(t: TransitionTable, ps: set<Position>, p: Position, w: seq<UniChar>) returns (q: Position)
    requires forall p | p in ps :: t.Fits(p)
    requires p in ps && Left(t, p, w) >= 0
    ensures q in Maximal(ps) && Left(t, q, w) >= Left(t, p, w)
    decreases Above(ps, p)
  {
    if r :| r in ps && p.SubsumedBy(r) {
      SubsumedIsWorse(t, p, r, w);
      forall x | x in ps && r.SubsumedBy(x)
        ensures p.SubsumedBy(x)
      {
        SubsumptionIsTransitive(p, r, x);
      }
      assert r !in Above(ps, r) && r in Above(ps, p);
      assert Above(ps, r) <= Above(ps, p);
      q := Top(t, ps, r, w);
    } else {
      q := p;
    }
  }

  // ----- One position, one character

  // What each kind of move means for the distance from the rest of the pattern to c followed by w.
  lemma ReplaceFirst(s: seq<UniChar>, c: UniChar, w: seq<UniChar>)
    requires s != []
    ensures Dist(s, [c] + w) <= 1 + Dist(s[1..], w)
  {
    assert ([c] + w)[1..] == w;
  }

  lemma SwapFirst(s: seq<UniChar>, c: UniChar, w: seq<UniChar>)
    requires |s| >= 2 && s[1] == c && w != [] && w[0] == s[0]
    ensures Dist(s, [c] + w) <= 1 + Dist(s[2..], w[1..])
  {
    assert ([c] + w)[2..] == w[1..];
    assert SwapsAtFront(s, [c] + w);
  }

  lemma SkipAndMatch(s: seq<UniChar>, i: nat, c: UniChar, w: seq<UniChar>)
    requires i < |s| && s[i] == c
    ensures Dist(s, [c] + w) <= i + Dist(s[i + 1..], w)
  {
    SkipFromSource(s, [c] + w, i);
    GreedyMatch(s[i..], [c] + w);
    assert s[i..][1..] == s[i + 1..] && ([c] + w)[1..] == w;
  }

  lemma MatchFirst(s: seq<UniChar>, c: UniChar, w: seq<UniChar>)
    requires s != [] && s[0] == c
    ensures Dist(s, [c] + w) == Dist(s[1..], w)
  {
    GreedyMatch(s, [c] + w);
    assert ([c] + w)[1..] == w;
  }

  lemma DropMore(s: seq<UniChar>, o: nat, k: nat)
    requires o + k <= |s|
    ensures s[o..][k..] == s[o + k..]
  {
  }

  // The moves of a standard position whose next pattern character is not c.
  ghost predicate Offered(t: TransitionTable, p: Position, c: UniChar, q: Position)
    requires p.offset <= |t.s| && p.errorsLeft > 0
  {
    var o, e := p.offset, p.errorsLeft;
    var i := FirstIndex(t.s[o..], c);
    || q == Position(o, e - 1, false)
    || (o < |t.s| && q == Position(o + 1, e - 1, false))
    || (o + i < |t.s| && 0 < i <= e && q == Position(o + i + 1, e - i, false))
    || (o + i < |t.s| && i == 1 && q == Position(o, e - 1, true))
  }

  lemma OfferedOnMismatch(t: TransitionTable, p: Position, c: UniChar, q: Position)
    requires t.prefixSize == 0 && t.Fits(p) && !p.transposed
    requires p.errorsLeft > 0 && (p.offset == |t.s| || t.s[p.offset] != c)
    ensures q in t.Moves(p, c) <==> Offered(t, p, c, q)
  {
    var o, e := p.offset, p.errorsLeft;
    var ms := t.Moves(p, c);
    assert ms[0] == Position(o, e - 1, false);
    if o < |t.s| {
      assert ms[1] == Position(o + 1, e - 1, false);
      var i := FirstIndex(t.s[o..], c);
      if o + i < |t.s| && i <= e {
        assert t.Relevant(p, c, i);
        assert ms[2] == Position(o + i + 1, e - i, false);
        assert i == 1 ==> ms[3] == Position(o, e - 1, true);
      }
    }
  }

  // No move gains anything.
  lemma MoveIsSound(t: TransitionTable, p: Position, c: UniChar, q: Position, w: seq<UniChar>)
    requires t.prefixSize == 0 && t.Fits(p) && q in t.Moves(p, c) && t.Fits(q)
    requires Left(t, q, w) >= 0
    ensures Left(t, q, w) <= Left(t, p, [c] + w)
  {
    hide Dist, Offered;
    var s, o := t.s, p.offset;
    if p.transposed {
      assert ([c] + w)[1..] == w;
    } else if o < |s| && s[o] == c {
      MatchFirst(s[o..], c, w);
      DropMore(s, o, 1);
    } else {
      OfferedOnMismatch(t, p, c, q);
      MismatchIsSound(t, p, c, q, w);
    }
  }

  lemma MismatchIsSound(t: TransitionTable, p: Position, c: UniChar, q: Position, w: seq<UniChar>)
    requires t.Fits(p) && !p.transposed && p.errorsLeft > 0 && Offered(t, p, c, q)
    requires t.Fits(q) && Left(t, q, w) >= 0
    ensures Left(t, q, w) <= Left(t, p, [c] + w)
  {
    hide Dist, FirstIndex;
    var s, o, e, rest := t.s, p.offset, p.errorsLeft, t.s[p.offset..];
    var i := FirstIndex(rest, c);
    if q == Position(o, e - 1, false) {
      InsertFirst(rest, [c] + w);
      assert ([c] + w)[1..] == w;
    } else if q == Position(o + 1, e - 1, false) {
      DropMore(s, o, 1);
      ReplaceFirst(rest, c, w);
    } else if q.transposed {
      DropMore(s, o, 2);
      SwapFirst(rest, c, w);
    } else {
      DropMore(s, o, i + 1);
      SkipAndMatch(rest, i, c, w);
    }
  }

  // The four ways in which a cheapest script can deal with the first character c of the word when
  // it differs from the first character of the pattern.
  ghost predicate ByFirstCharacter(s: seq<UniChar>, c: UniChar, w: seq<UniChar>, d: nat)
    requires s != []
  {
    var i := FirstIndex(s, c);
    || d == 1 + Dist(s, w)
    || d == 1 + Dist(s[1..], w)
    || (|s| >= 2 && i == 1 && w != [] && w[0] == s[0] && d == 1 + Dist(s[2..], w[1..]))
    || (i < |s| && d == i + Dist(s[i + 1..], w))
  }

  lemma {:induction false} FirstCharacter(s: seq<UniChar>, c: UniChar, w: seq<UniChar>)
    requires s != [] && s[0] != c
    ensures ByFirstCharacter(s, c, w, Dist(s, [c] + w))
    decreases |s|, 1
  {
    var cw := [c] + w;
    assert cw[1..] == w;
    var d := Dist(s, cw);
    LeastOption(s, cw);
    hide Dist;
    if SwapsAtFront(s, cw) && d == 1 + Dist(s[2..], cw[2..]) {
      assert cw[2..] == w[1..];
      FirstIndexIs(s, c, 1);
    } else if d == 1 + Dist(s[1..], cw) {
      DeleteThenFirstCharacter(s, c, w);
    }
  }

  // The case in which the first pattern character is deleted.
  lemma {:induction false} DeleteThenFirstCharacter(s: seq<UniChar>, c: UniChar, w: seq<UniChar>)
    requires s != [] && s[0] != c
    requires Dist(s, [c] + w) == 1 + Dist(s[1..], [c] + w)
    ensures ByFirstCharacter(s, c, w, Dist(s, [c] + w))
    decreases |s|, 0
  {
    var s', cw := s[1..], [c] + w;
    ReplaceFirst(s, c, w);
    if s' == [] {
    } else if s'[0] == c {
      FirstIndexIs(s, c, 1);
      MatchFirst(s', c, w);
      assert s'[1..] == s[2..];
    } else {
      FirstCharacter(s', c, w);
      LaterFirstCharacter(s, c, w, Dist(s', cw));
    }
  }

  // What the case analysis for the shorter pattern s[1..] says about s.
  lemma LaterFirstCharacter(s: seq<UniChar>, c: UniChar, w: seq<UniChar>, d: nat)
    requires |s| >= 2 && s[0] != c && s[1] != c
    requires ByFirstCharacter(s[1..], c, w, d)
    requires 1 + d <= 1 + Dist(s[1..], w)
    ensures ByFirstCharacter(s, c, w, 1 + d)
  {
    var s' := s[1..];
    var i, i' := FirstIndex(s, c), FirstIndex(s', c);
    assert i == i' + 1;
    hide Dist, FirstIndex;
    SkipFromSource(s', w, 1);
    if i' < |s'| && d == i' + Dist(s'[i' + 1..], w) {
      DropMore(s, 1, i' + 1);
    } else if d == 1 + Dist(s', w) || d == 1 + Dist(s'[1..], w) {
    } else {
      MatchFirst(s', w[0], w[1..]);
      assert [w[0]] + w[1..] == w;
      SkipFromSource(s'[1..], w[1..], 1);
      DropMore(s', 1, 1);
    }
  }

  lemma FirstIndexIs(s: seq<UniChar>, c: UniChar, i: nat)
    requires i < |s| && s[i] == c && forall k :: 0 <= k < i ==> s[k] != c
    ensures FirstIndex(s, c) == i
  {
  }

  // Some move keeps everything.
  lemma MoveIsComplete(t: TransitionTable, p: Position, c: UniChar, w: seq<UniChar>) returns (q: Position)
    requires t.prefixSize == 0 && t.Fits(p)
    requires Left(t, p, [c] + w) >= 0
    ensures q in t.Moves(p, c) && t.Fits(q)
    ensures Left(t, q, w) >= Left(t, p, [c] + w)
  {
    var s, o, e := t.s, p.offset, p.errorsLeft;
    var rest := s[o..];
    if p.transposed {
      q := Position(o + 2, e, false);
      assert ([c] + w)[1..] == w;
    } else if o < |s| && s[o] == c {
      q := Position(o + 1, e, false);
      MatchFirst(rest, c, w);
      assert rest[1..] == s[o + 1..];
    } else {
      DistOfDifferent(rest, [c] + w);
      q := BestMove(t, p, c, w);
    }
  }

  // The move to take when c does not match.
  lemma BestMove(t: TransitionTable, p: Position, c: UniChar, w: seq<UniChar>) returns (q: Position)
    requires t.prefixSize == 0 && t.Fits(p) && !p.transposed
    requires p.errorsLeft > 0 && (p.offset == |t.s| || t.s[p.offset] != c)
    requires Dist(t.s[p.offset..], [c] + w) <= p.errorsLeft
    ensures q in t.Moves(p, c) && t.Fits(q)
    ensures Left(t, q, w) == p.errorsLeft - Dist(t.s[p.offset..], [c] + w)
  {
    var o, e, rest := p.offset, p.errorsLeft, t.s[p.offset..];
    var d := Dist(rest, [c] + w);
    if rest == [] {
      q := Position(o, e - 1, false);
      assert Dist(rest, w) == |w|;
    } else {
      FirstCharacter(rest, c, w);
      q := MoveFor(t, p, c, w, d);
    }
    OfferedOnMismatch(t, p, c, q);
  }

  lemma MoveFor(t: TransitionTable, p: Position, c: UniChar, w: seq<UniChar>, d: nat) returns (q: Position)
    requires t.prefixSize == 0 && t.Fits(p) && !p.transposed && p.offset < |t.s|
    requires p.errorsLeft > 0 && t.s[p.offset] != c
    requires d <= p.errorsLeft && ByFirstCharacter(t.s[p.offset..], c, w, d)
    ensures Offered(t, p, c, q) && t.Fits(q)
    ensures Left(t, q, w) == p.errorsLeft - d
  {
    hide Dist, FirstIndex, Left;
    var o, e, rest := p.offset, p.errorsLeft, t.s[p.offset..];
    var i := FirstIndex(rest, c);
    if d == 1 + Dist(rest, w) {
      q := Position(o, e - 1, false);
      LeftStandard(t, o, 0, e - 1, w);
    } else if d == 1 + Dist(rest[1..], w) {
      q := Position(o + 1, e - 1, false);
      LeftStandard(t, o, 1, e - 1, w);
    } else if i < |rest| && d == i + Dist(rest[i + 1..], w) {
      q := Position(o + i + 1, e - i, false);
      LeftStandard(t, o, i + 1, e - i, w);
    } else {
      q := Position(o, e - 1, true);
      LeftTransposed(t, o, e - 1, w);
    }
  }

  lemma LeftStandard(t: TransitionTable, o: nat, k: nat, e: nat, w: seq<UniChar>)
    requires o + k <= |t.s|
    ensures Left(t, Position(o + k, e, false), w) == e - Dist(t.s[o..][k..], w)
    ensures t.s[o..][0..] == t.s[o..]
  {
    hide Dist;
    DropMore(t.s, o, k);
  }

  lemma LeftTransposed(t: TransitionTable, o: nat, e: nat, w: seq<UniChar>)
    requires o + 2 <= |t.s| && w != [] && w[0] == t.s[o]
    ensures Left(t, Position(o, e, true), w) == e - Dist(t.s[o..][2..], w[1..])
  {
    hide Dist;
    DropMore(t.s, o, 2);
  }

  lemma DistOfDifferent(s: seq<UniChar>, w: seq<UniChar>)
    requires w != [] && (s == [] || s[0] != w[0])
    ensures Dist(s, w) >= 1
  {
    if Dist(s, w) == 0 {
      ZeroDistIsEqual(s, w);
    }
  }

  // ----- States and runs

  // Reading c from ps leaves exactly the possibilities that ps had on the words starting with c.
  lemma NextIsExact(t: TransitionTable, ps: Positions, c: UniChar, w: seq<UniChar>, v: nat)
    requires t.prefixSize == 0 && t.AllFit(ps)
    ensures t.AllFit(t.Next(ps, c))
    ensures Finishes(t, Elems(t.Next(ps, c)), w, v) <==> Finishes(t, Elems(ps), [c] + w, v)
  {
    t.NextFits(ps, c);
    var qs := t.AllMoves(ps, c);
    forall q | q in qs
      ensures t.Fits(q)
    {
      var p :| p in ps && q in t.Moves(p, c);
      t.MovesFit(p, c, q);
    }
    MaximalFinishes(t, qs, w, v);
    if q :| q in qs && Left(t, q, w) >= v {
      var p :| p in ps && q in t.Moves(p, c);
      MoveIsSound(t, p, c, q, w);
      assert p in Elems(ps);
    }
    if p :| p in Elems(ps) && Left(t, p, [c] + w) >= v {
      var q := MoveIsComplete(t, p, c, w);
      assert q in qs;
    }
  }

  function Start(maxErrors: nat): Positions {
    [Position(0, maxErrors, false)]
  }

  // The state after the word w.
  ghost function Run(t: TransitionTable, maxErrors: nat, w: seq<UniChar>): (ps: Positions)
    requires t.prefixSize <= |t.s|
    ensures t.AllFit(ps)
  {
    if w == [] then Start(maxErrors)
    else
      var prev, c := Run(t, maxErrors, w[..|w| - 1]), w[|w| - 1];
      t.NextFits(prev, c);
      t.Next(prev, c)
  }

  // Nothing is reachable from the state without positions.
  lemma EmptyIsASink(t: TransitionTable, c: UniChar)
    requires t.prefixSize <= |t.s|
    ensures t.Next([], c) == []
  {
    var r := t.Next([], c);
    assert t.AllMoves([], c) == {};
    assert Elems(r) == {};
    assert forall p :: p in r ==> p in Elems(r);
  }

  // Once the run has no positions left, it accepts no continuation.
  lemma {:induction false} RejectedForever(t: TransitionTable, maxErrors: nat, w: seq<UniChar>, u: seq<UniChar>)
    requires t.prefixSize <= |t.s| && Run(t, maxErrors, w) == []
    ensures Run(t, maxErrors, w + u) == []
    decreases |u|
  {
    if u == [] {
      assert w + u == w;
    } else {
      var u', c := u[..|u| - 1], u[|u| - 1];
      RejectedForever(t, maxErrors, w, u');
      assert (w + u)[..|w + u| - 1] == w + u' && (w + u)[|w + u| - 1] == c;
      EmptyIsASink(t, c);
    }
  }

  lemma StartIsExact(t: TransitionTable, maxErrors: nat, w: seq<UniChar>, v: nat)
    ensures Finishes(t, Elems(Start(maxErrors)), w, v) <==> maxErrors - Dist(t.s, w) >= v
  {
    var p := Position(0, maxErrors, false);
    assert p in Start(maxErrors);
    assert t.s[0..] == t.s;
    assert Left(t, p, w) == maxErrors - Dist(t.s, w);
  }

  // After u, the run can still finish on w with v errors left exactly when the distance to u + w
  // leaves that many.
  lemma {:induction false} RunIsExact(t: TransitionTable, maxErrors: nat, u: seq<UniChar>, w: seq<UniChar>, v: nat)
    requires t.prefixSize == 0
    ensures Finishes(t, Elems(Run(t, maxErrors, u)), w, v) <==> maxErrors - Dist(t.s, u + w) >= v
    decreases |u|
  {
    hide TransitionTable.Next, TransitionTable.AllMoves, Finishes, Dist, Left;
    if u == [] {
      assert u + w == w;
      StartIsExact(t, maxErrors, w, v);
    } else {
      var u', c := u[..|u| - 1], u[|u| - 1];
      NextIsExact(t, Run(t, maxErrors, u'), c, w, v);
      RunIsExact(t, maxErrors, u', [c] + w, v);
      assert u' + ([c] + w) == u + w;
    }
  }

  // ----- Acceptance

  predicate IsAccepting(t: TransitionTable, p: Position)
    requires t.Fits(p)
  {
    !p.transposed && |t.s| - p.offset <= p.errorsLeft
  }

  predicate Accepts(t: TransitionTable, ps: Positions)
    requires forall p | p in ps :: t.Fits(p)
  {
    exists p | p in ps :: IsAccepting(t, p)
  }

  // n is the least number of errors over the accepting positions, or maxErrors without any.
  ghost predicate IsErrorsMade(t: TransitionTable, maxErrors: nat, ps: Positions, n: int)
    requires t.AllFit(ps)
  {
    && n <= maxErrors
    && (forall p | p in ps && IsAccepting(t, p) :: n <= maxErrors - (p.errorsLeft - (|t.s| - p.offset)))
    && (n == maxErrors || exists p :: p in ps && IsAccepting(t, p) && n == maxErrors - (p.errorsLeft - (|t.s| - p.offset)))
  }

  lemma LeftAtTheEnd(t: TransitionTable, p: Position)
    requires t.Fits(p)
    ensures Left(t, p, []) >= 0 <==> IsAccepting(t, p)
    ensures !p.transposed ==> Left(t, p, []) == p.errorsLeft - (|t.s| - p.offset)
  {
  }

  // The run on w ends in an accepting state exactly when w is close enough to the pattern, and the
  // number of errors made is then the distance itself.
  lemma AcceptsIffClose(t: TransitionTable, maxErrors: nat, w: seq<UniChar>, n: int)
    requires t.prefixSize == 0
    requires IsErrorsMade(t, maxErrors, Run(t, maxErrors, w), n)
    ensures Accepts(t, Run(t, maxErrors, w)) <==> Dist(t.s, w) <= maxErrors
    ensures Dist(t.s, w) <= maxErrors ==> n == Dist(t.s, w)
  {
    var ps := Run(t, maxErrors, w);
    assert w + [] == w;
    RunIsExact(t, maxErrors, w, [], 0);
    forall p | p in ps
      ensures Left(t, p, []) >= 0 <==> IsAccepting(t, p)
      ensures !p.transposed ==> Left(t, p, []) == p.errorsLeft - (|t.s| - p.offset)
    {
      LeftAtTheEnd(t, p);
    }
    if Dist(t.s, w) <= maxErrors {
      var v := maxErrors - Dist(t.s, w);
      RunIsExact(t, maxErrors, w, [], v);
      var p :| p in Elems(ps) && Left(t, p, []) >= v;
      RunIsExact(t, maxErrors, w, [], Left(t, p, []));
      assert IsAccepting(t, p);
      if q :| q in ps && IsAccepting(t, q) && n == maxErrors - (q.errorsLeft - (|t.s| - q.offset)) {
        assert q in Elems(ps);
        RunIsExact(t, maxErrors, w, [], Left(t, q, []));
      }
    }
  }
}
