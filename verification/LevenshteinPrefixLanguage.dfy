/**
 What the automaton decides when edits of a prefix are restricted.  A prefix of one character, which
 is what search asks for, or one error only: exactly the words that some script makes that respects
 the prefix.  Otherwise subsumption, which takes deletions for granted, loses words.
 */
module LevenshteinPrefixLanguage {
  import opened EditScripts
  import opened Osa
  import opened Sequences
  import opened LevenshteinStates
  import opened LevenshteinMoves
  import opened LevenshteinLanguage
  import opened LevenshteinPrefixes

  // ----- The distance from the pattern at o to w

  ghost function PrefixDist(t: TransitionTable, o: nat, w: seq<UniChar>): nat
    requires t.prefixSize <= |t.s| && o <= |t.s|
    decreases |w|
  {
    if o >= t.prefixSize then Dist(t.s[o..], w)
    else if w == [] then |t.s| - o
    else
      var inserted, paired := 1 + PrefixDist(t, o, w[1..]), PrefixDist(t, o + 1, w[1..]);
      if t.s[o] == w[0] then Min(inserted, paired)
      else if ShareSet(t, t.s[o], w[0]) then Min(inserted, 1 + paired)
      else inserted
  }

  lemma InsertedFirst(t: TransitionTable, o: nat, c: UniChar, w: seq<UniChar>)
    requires t.prefixSize <= |t.s| && o <= |t.s|
    ensures PrefixDist(t, o, [c] + w) <= 1 + PrefixDist(t, o, w)
  {
    assert ([c] + w)[1..] == w;
    if o >= t.prefixSize {
      InsertFirst(t.s[o..], [c] + w);
    }
  }

  // Starting one character later costs at most one more.
  lemma {:induction false} DropPlace(t: TransitionTable, o: nat, w: seq<UniChar>)
    requires t.prefixSize <= |t.s| && o < |t.s|
    ensures PrefixDist(t, o + 1, w) <= 1 + PrefixDist(t, o, w)
    decreases |w|
  {
    hide Dist;
    if o >= t.prefixSize {
      Apart(t.s, o, o + 1, w);
    } else if w == [] {
      EmptyDist(t.s[o + 1..]);
    } else {
      DropPlace(t, o, w[1..]);
      InsertedFirst(t, o + 1, w[0], w[1..]);
      assert [w[0]] + w[1..] == w;
    }
  }

  lemma {:induction false} DropPlaces(t: TransitionTable, a: nat, b: nat, w: seq<UniChar>)
    requires t.prefixSize <= |t.s| && a <= b <= |t.s|
    ensures PrefixDist(t, b, w) <= PrefixDist(t, a, w) + (b - a)
    decreases b - a
  {
    hide PrefixDist;
    if a < b {
      DropPlaces(t, a, b - 1, w);
      DropPlace(t, b - 1, w);
    }
  }

  // Keeping an equal first character is always best.
  lemma KeptFirst(t: TransitionTable, o: nat, w: seq<UniChar>)
    requires t.prefixSize <= |t.s| && o < t.prefixSize
    ensures PrefixDist(t, o, [t.s[o]] + w) == PrefixDist(t, o + 1, w)
  {
    hide Dist;
    assert ([t.s[o]] + w)[1..] == w;
    DropPlace(t, o, w);
  }

  // No script that respects the prefix costs less.
  lemma {:induction false} PrefixDistIsLeast(t: TransitionTable, o: nat, es: Script)
    requires t.prefixSize <= |t.s| && o + |Source(es)| <= |t.s| && Source(es) == t.s[o..o + |Source(es)|]
    requires RespectsFrom(t, o, es)
    ensures PrefixDist(t, o, Target(es)) <= Cost(es) + (|t.s| - o - |Source(es)|)
    decreases |es|
  {
    hide PrefixDist, Source, Target, Cost, MayEdit;
    if es == [] {
      NoEdits(t, o);
    } else {
      var e, rest := es[0], es[1..];
      FirstEdit(es);
      SplitPiece(t.s, o, e.Before(), Source(rest));
      PrefixDistIsLeast(t, o + |e.Before()|, rest);
      PrefixDistOfEdit(t, o, e, Target(rest));
    }
  }

  lemma NoEdits(t: TransitionTable, o: nat)
    requires t.prefixSize <= |t.s| && o <= |t.s|
    ensures Source([]) == [] && Target([]) == [] && Cost([]) == 0 && PrefixDist(t, o, []) == |t.s| - o
  {
    hide Dist;
    EmptyDist(t.s[o..]);
  }

  lemma FirstEdit(es: Script)
    requires es != []
    ensures Source(es) == es[0].Before() + Source(es[1..]) && Target(es) == es[0].After() + Target(es[1..])
    ensures Cost(es) == es[0].Price() + Cost(es[1..])
  {
  }

  lemma SplitPiece(s: seq<UniChar>, o: nat, a: seq<UniChar>, b: seq<UniChar>)
    requires o + |a + b| <= |s| && a + b == s[o..o + |a + b|]
    ensures a == s[o..o + |a|] && b == s[o + |a|..o + |a| + |b|]
  {
    assert a == (a + b)[..|a|] && b == (a + b)[|a|..];
  }

  // As Respects, for a script that starts at place o.
  ghost predicate RespectsFrom(t: TransitionTable, o: nat, es: Script)
    decreases |es|
  {
    es != [] ==> MayEdit(t, o, es[0]) && RespectsFrom(t, o + |es[0].Before()|, es[1..])
  }

  lemma PrefixDistOfEdit(t: TransitionTable, o: nat, e: Edit, w: seq<UniChar>)
    requires t.prefixSize <= |t.s| && o + |e.Before()| <= |t.s| && e.Before() == t.s[o..o + |e.Before()|]
    requires MayEdit(t, o, e)
    ensures PrefixDist(t, o, e.After() + w) <= e.Price() + PrefixDist(t, o + |e.Before()|, w)
  {
    hide Dist, ShareSet;
    if o >= t.prefixSize {
      assert t.s[o..] == e.Before() + t.s[o + |e.Before()|..];
      DistOfEdit(e, t.s[o + |e.Before()|..], w);
    } else {
      match e
      case Keep(c) =>
        assert e.Before()[0] == c;
        KeptFirst(t, o, w);
      case Insert(c) => InsertedFirst(t, o, c, w);
      case Replace(c, d) =>
        assert e.Before()[0] == c;
        assert ([d] + w)[1..] == w;
    }
  }

  lemma {:induction false} RespectsAll(t: TransitionTable, pre: Script, es: Script)
    requires Respects(t, pre + es)
    ensures RespectsFrom(t, |Source(pre)|, es)
    decreases |es|
  {
    if es != [] {
      hide Respects, MayEdit, Source, Target, Cost;
      EditInside(t, pre, es);
      ScriptPush(pre, es[0]);
      MoveOne(pre, es);
      RespectsAll(t, pre + [es[0]], es[1..]);
    }
  }

  lemma MoveOne(pre: Script, es: Script)
    requires es != []
    ensures (pre + [es[0]]) + es[1..] == pre + es
  {
  }

  lemma EditInside(t: TransitionTable, pre: Script, es: Script)
    requires es != [] && Respects(t, pre + es)
    ensures MayEdit(t, |Source(pre)|, es[0])
  {
    hide MayEdit, Source;
    var all := pre + es;
    assert all[..|pre|] == pre && all[|pre|] == es[0];
    assert MayEdit(t, |Source(all[..|pre|])|, all[|pre|]);
  }

  // ----- It is reached by a script that respects the prefix

  lemma {:induction false} RespectsBehind(t: TransitionTable, o: nat, es: Script)
    requires o >= t.prefixSize
    ensures RespectsFrom(t, o, es)
    decreases |es|
  {
    if es != [] {
      RespectsBehind(t, o + |es[0].Before()|, es[1..]);
    }
  }

  lemma {:induction false} PrefixDistIsReached(t: TransitionTable, o: nat, w: seq<UniChar>) returns (o': nat, es: Script)
    requires t.prefixSize <= |t.s| && o <= |t.s|
    ensures o <= o' <= |t.s| && Source(es) == t.s[o..o'] && Target(es) == w && RespectsFrom(t, o, es)
    ensures Cost(es) + (|t.s| - o') == PrefixDist(t, o, w)
    decreases |w|
  {
    hide Dist, ShareSet;
    if o >= t.prefixSize {
      es := DistIsReached(t.s[o..], w);
      o' := |t.s|;
      RespectsBehind(t, o, es);
    } else if w == [] {
      o', es := o, [];
    } else {
      var e, o1 := PrefixStep(t, o, w);
      var w', rest := w[1..], [];
      hide PrefixDist, MayEdit, RespectsFrom;
      assert w == e.After() + w';
      o', rest := PrefixDistIsReached(t, o1, w');
      es := OneEditMore(t, o, e, o', rest, w');
    }
  }

  // The first edit of a cheapest script at a place of the prefix.
  lemma PrefixStep(t: TransitionTable, o: nat, w: seq<UniChar>) returns (e: Edit, o': nat)
    requires o < t.prefixSize <= |t.s| && w != []
    ensures o' == o + |e.Before()| <= |t.s| && e.Before() == t.s[o..o'] && e.After() == [w[0]] && MayEdit(t, o, e)
    ensures PrefixDist(t, o, w) == e.Price() + PrefixDist(t, o', w[1..])
  {
    hide Dist, ShareSet;
    if PrefixDist(t, o, w) == 1 + PrefixDist(t, o, w[1..]) {
      e, o' := Insert(w[0]), o;
    } else {
      e, o' := if t.s[o] == w[0] then Keep(w[0]) else Replace(t.s[o], w[0]), o + 1;
    }
  }

  lemma OneEditMore(t: TransitionTable, o: nat, e: Edit, o': nat, rest: Script, w: seq<UniChar>) returns (es: Script)
    requires o + |e.Before()| <= o' <= |t.s| && e.Before() == t.s[o..o + |e.Before()|] && MayEdit(t, o, e)
    requires Source(rest) == t.s[o + |e.Before()|..o'] && Target(rest) == w && RespectsFrom(t, o + |e.Before()|, rest)
    ensures Source(es) == t.s[o..o'] && Target(es) == e.After() + w && RespectsFrom(t, o, es)
    ensures Cost(es) == e.Price() + Cost(rest)
  {
    hide Source, Target, Cost, MayEdit;
    es := [e] + rest;
    ScriptCons(e, rest);
    assert es[1..] == rest;
    JoinPieces(t.s, o, o + |e.Before()|, o');
  }

  lemma JoinPieces(s: seq<UniChar>, a: nat, b: nat, c: nat)
    requires a <= b <= c <= |s|
    ensures s[a..c] == s[a..b] + s[b..c]
  {
  }

  lemma {:induction false} FromRespects(t: TransitionTable, pre: Script, es: Script)
    requires Respects(t, pre) && RespectsFrom(t, |Source(pre)|, es)
    ensures Respects(t, pre + es)
    decreases |es|
  {
    if es == [] {
      assert pre + es == pre;
    } else {
      hide Respects, MayEdit, Source, Target, Cost;
      EditBehind(t, pre, es[0]);
      ScriptPush(pre, es[0]);
      FromRespects(t, pre + [es[0]], es[1..]);
      MoveOne(pre, es);
    }
  }

  lemma EditBehind(t: TransitionTable, pre: Script, e: Edit)
    requires Respects(t, pre) && MayEdit(t, |Source(pre)|, e)
    ensures Respects(t, pre + [e])
  {
    hide MayEdit, Source;
    var all := pre + [e];
    forall i | 0 <= i < |all|
      ensures MayEdit(t, |Source(all[..i])|, all[i])
    {
      assert all[..i] == if i < |pre| then pre[..i] else pre;
      assert i < |pre| ==> MayEdit(t, |Source(pre[..i])|, pre[i]);
    }
  }

  // The script makes w of the first o characters, and the rest of the pattern is deleted, for n in all.
  ghost predicate Makes(t: TransitionTable, es: Script, o: nat, w: seq<UniChar>, n: int) {
    o <= |t.s| && Transforms(es, WithSwaps, t.s[..o], w) && Respects(t, es) && n == Cost(es) + (|t.s| - o)
  }

  // n is the least price of such a script.
  ghost predicate IsPrefixDistance(t: TransitionTable, w: seq<UniChar>, n: int) {
    && (exists es, o :: Makes(t, es, o, w, n))
    && (forall es, o, n' :: Makes(t, es, o, w, n') ==> n <= n')
  }

  lemma PrefixDistIsTheDistance(t: TransitionTable, w: seq<UniChar>)
    requires t.prefixSize <= |t.s|
    ensures IsPrefixDistance(t, w, PrefixDist(t, 0, w))
  {
    hide Respects, PrefixDist, Source, Target, Cost;
    var o, es := PrefixDistIsReached(t, 0, w);
    EmptyRespects(t);
    FromRespects(t, [], es);
    assert [] + es == es && t.s[..o] == t.s[0..o];
    assert Makes(t, es, o, w, PrefixDist(t, 0, w));
    forall es, o: nat, n': int | Makes(t, es, o, w, n')
      ensures PrefixDist(t, 0, w) <= n'
    {
      assert [] + es == es && t.s[..o] == t.s[0..0 + |Source(es)|];
      RespectsAll(t, [], es);
      PrefixDistIsLeast(t, 0, es);
    }
  }

  lemma EmptyRespects(t: TransitionTable)
    ensures Respects(t, []) && Source([]) == []
  {
  }

  // ----- The best use of the errors left

  ghost function PrefixLeft(t: TransitionTable, p: Position, w: seq<UniChar>): int
    requires t.prefixSize <= |t.s| && t.Fits(p)
  {
    if p.transposed then Left(t, p, w) else p.errorsLeft - PrefixDist(t, p.offset, w)
  }

  ghost predicate PrefixFinishes(t: TransitionTable, ps: set<Position>, w: seq<UniChar>, v: nat)
    requires t.prefixSize <= |t.s| && forall p | p in ps :: t.Fits(p)
  {
    exists p :: p in ps && PrefixLeft(t, p, w) >= v
  }

  // The same pattern without a restricted prefix.
  ghost function Free(t: TransitionTable): TransitionTable {
    t.(prefixSize := 0)
  }

  lemma LeftBehind(t: TransitionTable, p: Position, w: seq<UniChar>)
    requires t.prefixSize <= |t.s| && t.Fits(p) && p.offset >= t.prefixSize
    ensures PrefixLeft(t, p, w) == Left(Free(t), p, w)
  {
  }

  lemma MovesBehind(t: TransitionTable, p: Position, c: UniChar)
    requires t.prefixSize <= |t.s| && t.Fits(p) && p.offset >= t.prefixSize
    ensures t.Moves(p, c) == Free(t).Moves(p, c)
    ensures forall q | q in t.Moves(p, c) :: q.offset >= t.prefixSize
  {
    hide FirstIndex;
    var i := FirstIndex(t.s[p.offset..], c);
    assert t.Relevant(p, c, i) <==> Free(t).Relevant(p, c, i);
  }

  // Transposed positions lie behind the prefix.
  ghost predicate PrefixFits(t: TransitionTable, p: Position) {
    t.Fits(p) && (p.transposed ==> p.offset >= t.prefixSize)
  }

  lemma MovesInside(t: TransitionTable, p: Position, c: UniChar)
    requires t.prefixSize <= |t.s| && PrefixFits(t, p) && p.offset < t.prefixSize
    ensures t.s[p.offset] == c ==> t.Moves(p, c) == [Position(p.offset + 1, p.errorsLeft, false)]
    ensures forall q :: t.s[p.offset] != c && q in t.Moves(p, c) <==>
              && t.s[p.offset] != c && p.errorsLeft > 0
              && (q == Position(p.offset, p.errorsLeft - 1, false)
                  || (ShareSet(t, t.s[p.offset], c) && q == Position(p.offset + 1, p.errorsLeft - 1, false)))
  {
    var o, e := p.offset, p.errorsLeft;
    assert t.IsAllowedPrefixMisprint(c, o) <==> ShareSet(t, t.s[o], c);
    if t.s[o] != c && e > 0 {
      var stay, go := Position(o, e - 1, false), Position(o + 1, e - 1, false);
      assert t.Moves(p, c) == [stay] + if t.IsAllowedPrefixMisprint(c, o) then [go] else [];
    }
  }

  lemma PrefixMoveIsSound(t: TransitionTable, p: Position, c: UniChar, q: Position, w: seq<UniChar>)
    requires t.prefixSize <= |t.s| && PrefixFits(t, p) && q in t.Moves(p, c)
    requires t.Fits(q) && PrefixLeft(t, q, w) >= 0
    ensures PrefixLeft(t, q, w) <= PrefixLeft(t, p, [c] + w)
  {
    hide Dist, Left, ShareSet, TransitionTable.Moves;
    if p.offset >= t.prefixSize {
      MovesBehind(t, p, c);
      LeftBehind(t, p, [c] + w);
      LeftBehind(t, q, w);
      MoveIsSound(Free(t), p, c, q, w);
    } else {
      MovesInside(t, p, c);
      if t.s[p.offset] == c {
        KeptFirst(t, p.offset, w);
      } else {
        assert ([c] + w)[1..] == w;
      }
    }
  }

  lemma PrefixMoveIsComplete(t: TransitionTable, p: Position, c: UniChar, w: seq<UniChar>) returns (q: Position)
    requires t.prefixSize <= |t.s| && PrefixFits(t, p) && PrefixLeft(t, p, [c] + w) >= 0
    ensures q in t.Moves(p, c) && t.Fits(q) && PrefixLeft(t, q, w) >= PrefixLeft(t, p, [c] + w)
  {
    hide Dist, Left, ShareSet, TransitionTable.Moves;
    if p.offset >= t.prefixSize {
      MovesBehind(t, p, c);
      LeftBehind(t, p, [c] + w);
      q := MoveIsComplete(Free(t), p, c, w);
      LeftBehind(t, q, w);
    } else {
      var o, e := p.offset, p.errorsLeft;
      MovesInside(t, p, c);
      assert ([c] + w)[1..] == w && ([c] + w)[0] == c;
      if t.s[o] == c {
        KeptFirst(t, o, w);
        q := Position(o + 1, e, false);
      } else if PrefixDist(t, o, [c] + w) == 1 + PrefixDist(t, o, w) {
        q := Position(o, e - 1, false);
      } else {
        q := Position(o + 1, e - 1, false);
      }
    }
  }

  // ----- When dropping subsumed positions is safe

  // No position of the prefix makes one behind it redundant.
  ghost predicate NoneAhead(t: TransitionTable, ps: set<Position>) {
    forall p, q | p in ps && q in ps && p.SubsumedBy(q) :: q.offset >= t.prefixSize || q.offset >= p.offset
  }

  lemma PrefixSubsumedIsWorse(t: TransitionTable, p: Position, q: Position, w: seq<UniChar>)
    requires t.prefixSize <= |t.s| && PrefixFits(t, p) && PrefixFits(t, q) && p.SubsumedBy(q)
    requires q.offset >= t.prefixSize || q.offset >= p.offset
    requires PrefixLeft(t, p, w) >= 0
    ensures PrefixLeft(t, p, w) <= PrefixLeft(t, q, w)
  {
    hide PrefixDist, Left;
    if p.offset >= t.prefixSize && q.offset >= t.prefixSize {
      LeftBehind(t, p, w);
      LeftBehind(t, q, w);
      SubsumedIsWorse(Free(t), p, q, w);
    } else {
      DropPlaces(t, p.offset, q.offset, w);
    }
  }

  lemma {:induction false} PrefixTop(t: TransitionTable, ps: set<Position>, p: Position, w: seq<UniChar>) returns (q: Position)
    requires t.prefixSize <= |t.s| && (forall p | p in ps :: t.Fits(p) && PrefixFits(t, p)) && NoneAhead(t, ps)
    requires p in ps && PrefixLeft(t, p, w) >= 0
    ensures q in Maximal(ps) && PrefixLeft(t, q, w) >= PrefixLeft(t, p, w)
    decreases Above(ps, p)
  {
    hide PrefixLeft;
    if r :| r in ps && p.SubsumedBy(r) {
      PrefixSubsumedIsWorse(t, p, r, w);
      AboveLess(ps, p, r);
      q := PrefixTop(t, ps, r, w);
    } else {
      q := p;
    }
  }

  lemma AboveLess(ps: set<Position>, p: Position, r: Position)
    requires r in ps && p.SubsumedBy(r)
    ensures Above(ps, r) < Above(ps, p)
  {
    forall x | x in ps && r.SubsumedBy(x)
      ensures p.SubsumedBy(x)
    {
      SubsumptionIsTransitive(p, r, x);
    }
    assert r !in Above(ps, r) && r in Above(ps, p);
  }

  lemma PrefixMaximalFinishes(t: TransitionTable, ps: set<Position>, w: seq<UniChar>, v: nat)
    requires t.prefixSize <= |t.s| && (forall p | p in ps :: t.Fits(p) && PrefixFits(t, p)) && NoneAhead(t, ps)
    ensures PrefixFinishes(t, Maximal(ps), w, v) <==> PrefixFinishes(t, ps, w, v)
  {
    hide PrefixLeft;
    if p :| p in ps && PrefixLeft(t, p, w) >= v {
      var q := PrefixTop(t, ps, p, w);
    }
  }

  lemma PrefixMovesFit(t: TransitionTable, p: Position, c: UniChar, q: Position)
    requires t.prefixSize <= |t.s| && PrefixFits(t, p) && q in t.Moves(p, c)
    ensures PrefixFits(t, q)
  {
    t.MovesFit(p, c, q);
  }

  ghost predicate AllPrefixFit(t: TransitionTable, ps: Positions) {
    forall p | p in ps :: PrefixFits(t, p)
  }

  lemma PrefixNextIsExact(t: TransitionTable, ps: Positions, c: UniChar, w: seq<UniChar>, v: nat)
    requires t.prefixSize <= |t.s| && t.AllFit(ps) && AllPrefixFit(t, ps) && NoneAhead(t, t.AllMoves(ps, c))
    ensures t.AllFit(t.Next(ps, c)) && AllPrefixFit(t, t.Next(ps, c))
    ensures PrefixFinishes(t, Elems(t.Next(ps, c)), w, v) <==> PrefixFinishes(t, Elems(ps), [c] + w, v)
  {
    hide PrefixLeft, TransitionTable.Moves, PrefixFits;
    var qs := t.AllMoves(ps, c);
    forall q | q in qs
      ensures PrefixFits(t, q) && t.Fits(q)
    {
      var p :| p in ps && q in t.Moves(p, c);
      PrefixMovesFit(t, p, c, q);
      t.MovesFit(p, c, q);
    }
    t.NextFits(ps, c);
    assert forall q | q in t.Next(ps, c) :: q in Elems(t.Next(ps, c));
    PrefixMaximalFinishes(t, qs, w, v);
    if q :| q in qs && PrefixLeft(t, q, w) >= v {
      var p :| p in ps && q in t.Moves(p, c);
      PrefixMoveIsSound(t, p, c, q, w);
      assert p in Elems(ps);
    }
    if p :| p in Elems(ps) && PrefixLeft(t, p, [c] + w) >= v {
      var q := PrefixMoveIsComplete(t, p, c, w);
      assert q in qs;
    }
  }

  // ----- A prefix of one character

  // After k characters a position in front of the pattern has k insertions behind it, and any other
  // one has cost less than that and its offset together.
  ghost predicate Walked(t: TransitionTable, maxErrors: nat, k: nat, p: Position) {
    && PrefixFits(t, p) && p.errorsLeft <= maxErrors
    && if p.offset < t.prefixSize then p.errorsLeft == maxErrors - k else maxErrors - p.errorsLeft < k + p.offset
  }

  lemma WalksOn(t: TransitionTable, maxErrors: nat, k: nat, p: Position, c: UniChar, q: Position)
    requires t.prefixSize == 1 <= |t.s| && Walked(t, maxErrors, k, p) && q in t.Moves(p, c)
    ensures Walked(t, maxErrors, k + 1, q)
  {
    hide FirstIndex;
    PrefixMovesFit(t, p, c, q);
    if p.offset == 0 {
      MovesInside(t, p, c);
    }
  }

  lemma WalkedIsSafe(t: TransitionTable, maxErrors: nat, k: nat, ps: set<Position>)
    requires t.prefixSize == 1 <= |t.s| && forall p | p in ps :: Walked(t, maxErrors, k, p)
    ensures NoneAhead(t, ps)
  {
  }

  // ----- One error only

  ghost predicate OneOrSpent(ps: set<Position>) {
    && (forall p | p in ps :: p.errorsLeft <= 1)
    && (forall p, q | p in ps && q in ps :: p == q || (p.errorsLeft == 0 && q.errorsLeft == 0))
  }

  lemma SpentIsSafe(t: TransitionTable, ps: set<Position>)
    requires OneOrSpent(ps)
    ensures NoneAhead(t, ps)
  {
  }

  lemma MovesOfOne(t: TransitionTable, p: Position, c: UniChar, q: Position, q': Position)
    requires t.prefixSize <= |t.s| && t.Fits(p) && p.errorsLeft <= 1 && q in t.Moves(p, c) && q' in t.Moves(p, c)
    ensures q == q' || (q.errorsLeft == 0 && q'.errorsLeft == 0)
  {
    hide FirstIndex;
  }

  lemma SpentOn(t: TransitionTable, ps: Positions, c: UniChar)
    requires t.prefixSize <= |t.s| && t.AllFit(ps) && OneOrSpent(Elems(ps))
    ensures OneOrSpent(t.AllMoves(ps, c))
  {
    hide TransitionTable.Moves, TransitionTable.Fits;
    var qs := t.AllMoves(ps, c);
    forall q | q in qs
      ensures q.errorsLeft <= 1
    {
      var p :| p in ps && q in t.Moves(p, c);
      assert p in Elems(ps);
      t.MovesFit(p, c, q);
    }
    forall q, q' | q in qs && q' in qs
      ensures q == q' || (q.errorsLeft == 0 && q'.errorsLeft == 0)
    {
      var p :| p in ps && q in t.Moves(p, c);
      var p' :| p' in ps && q' in t.Moves(p', c);
      assert p in Elems(ps) && p' in Elems(ps);
      if p == p' {
        MovesOfOne(t, p, c, q, q');
      } else {
        t.MovesFit(p, c, q);
        t.MovesFit(p', c, q');
      }
    }
  }

  // ----- Runs

  // What a run keeps, and why dropping positions is safe in it.
  ghost predicate Steady(t: TransitionTable, maxErrors: nat, k: nat, ps: set<Position>) {
    && (forall p | p in ps :: PrefixFits(t, p))
    && (maxErrors <= 1 ==> OneOrSpent(ps))
    && (t.prefixSize == 1 ==> forall p | p in ps :: Walked(t, maxErrors, k, p))
  }

  lemma SteadyMoves(t: TransitionTable, maxErrors: nat, k: nat, ps: Positions, c: UniChar)
    requires t.prefixSize <= |t.s| && (t.prefixSize <= 1 || maxErrors <= 1)
    requires t.AllFit(ps) && Steady(t, maxErrors, k, Elems(ps))
    ensures Steady(t, maxErrors, k + 1, t.AllMoves(ps, c)) && NoneAhead(t, t.AllMoves(ps, c))
  {
    hide Walked, OneOrSpent, PrefixFits, TransitionTable.Moves, TransitionTable.Fits;
    var qs := t.AllMoves(ps, c);
    forall q | q in qs
      ensures PrefixFits(t, q) && (t.prefixSize == 1 ==> Walked(t, maxErrors, k + 1, q))
    {
      var p :| p in ps && q in t.Moves(p, c);
      assert p in Elems(ps);
      PrefixMovesFit(t, p, c, q);
      if t.prefixSize == 1 {
        WalksOn(t, maxErrors, k, p, c, q);
      }
    }
    if maxErrors <= 1 {
      SpentOn(t, ps, c);
      SpentIsSafe(t, qs);
    } else if t.prefixSize == 1 {
      WalkedIsSafe(t, maxErrors, k + 1, qs);
    }
  }

  lemma SteadyNext(t: TransitionTable, maxErrors: nat, k: nat, qs: set<Position>)
    requires Steady(t, maxErrors, k, qs)
    ensures Steady(t, maxErrors, k, Elems(Canon(Maximal(qs))))
  {
    assert Elems(Canon(Maximal(qs))) <= qs;
  }

  lemma {:induction false} RunIsSteady(t: TransitionTable, maxErrors: nat, u: seq<UniChar>)
    requires t.prefixSize <= |t.s| && (t.prefixSize <= 1 || maxErrors <= 1)
    ensures Steady(t, maxErrors, |u|, Elems(Run(t, maxErrors, u)))
    decreases |u|
  {
    if u == [] {
      assert Elems(Start(maxErrors)) == {Position(0, maxErrors, false)};
    } else {
      hide Steady, TransitionTable.AllMoves, NoneAhead, Maximal;
      var u', c := u[..|u| - 1], u[|u| - 1];
      RunIsSteady(t, maxErrors, u');
      SteadyMoves(t, maxErrors, |u'|, Run(t, maxErrors, u'), c);
      SteadyNext(t, maxErrors, |u|, t.AllMoves(Run(t, maxErrors, u'), c));
    }
  }

  lemma SteadyFits(t: TransitionTable, maxErrors: nat, k: nat, ps: Positions)
    requires Steady(t, maxErrors, k, Elems(ps))
    ensures AllPrefixFit(t, ps)
  {
    assert forall p | p in ps :: p in Elems(ps);
  }

  lemma {:induction false} PrefixRunIsExact(t: TransitionTable, maxErrors: nat, u: seq<UniChar>, w: seq<UniChar>, v: nat)
    requires t.prefixSize <= |t.s| && (t.prefixSize <= 1 || maxErrors <= 1)
    ensures PrefixFinishes(t, Elems(Run(t, maxErrors, u)), w, v) <==> maxErrors - PrefixDist(t, 0, u + w) >= v
    decreases |u|
  {
    hide TransitionTable.AllMoves, TransitionTable.Next, Steady, NoneAhead, PrefixDist, AllPrefixFit, PrefixFinishes;
    if u == [] {
      assert u + w == w;
      PrefixStartIsExact(t, maxErrors, w, v);
    } else {
      var u', c := u[..|u| - 1], u[|u| - 1];
      var ps := Run(t, maxErrors, u');
      RunIsSteady(t, maxErrors, u');
      SteadyFits(t, maxErrors, |u'|, ps);
      SteadyMoves(t, maxErrors, |u'|, ps, c);
      PrefixNextIsExact(t, ps, c, w, v);
      PrefixRunIsExact(t, maxErrors, u', [c] + w, v);
      assert u' + ([c] + w) == u + w;
    }
  }

  lemma PrefixStartIsExact(t: TransitionTable, maxErrors: nat, w: seq<UniChar>, v: nat)
    requires t.prefixSize <= |t.s|
    ensures PrefixFinishes(t, Elems(Start(maxErrors)), w, v) <==> maxErrors - PrefixDist(t, 0, w) >= v
  {
    hide PrefixDist;
    var p := Position(0, maxErrors, false);
    assert p in Start(maxErrors);
    assert PrefixLeft(t, p, w) == maxErrors - PrefixDist(t, 0, w);
  }

  // ----- Acceptance

  lemma PrefixLeftAtTheEnd(t: TransitionTable, p: Position)
    requires t.prefixSize <= |t.s| && t.Fits(p)
    ensures PrefixLeft(t, p, []) >= 0 <==> IsAccepting(t, p)
    ensures !p.transposed ==> PrefixLeft(t, p, []) == p.errorsLeft - (|t.s| - p.offset)
  {
    EmptyDist(t.s[p.offset..]);
  }

  // With a prefix of at most one character, or at most one error: a word is accepted exactly when its
  // distance is within maxErrors, and that distance is reported.
  lemma PrefixAcceptsIffClose(t: TransitionTable, maxErrors: nat, w: seq<UniChar>, n: int)
    requires t.prefixSize <= |t.s| && (t.prefixSize <= 1 || maxErrors <= 1)
    requires IsErrorsMade(t, maxErrors, Run(t, maxErrors, w), n)
    ensures Accepts(t, Run(t, maxErrors, w)) <==> PrefixDist(t, 0, w) <= maxErrors
    ensures PrefixDist(t, 0, w) <= maxErrors ==> n == PrefixDist(t, 0, w)
  {
    hide Run, PrefixDist, PrefixLeft, IsAccepting;
    var ps, d := Run(t, maxErrors, w), PrefixDist(t, 0, w);
    assert w + [] == w;
    PrefixRunIsExact(t, maxErrors, w, [], 0);
    forall p | p in ps
      ensures PrefixLeft(t, p, []) >= 0 <==> IsAccepting(t, p)
      ensures IsAccepting(t, p) ==> PrefixLeft(t, p, []) == p.errorsLeft - (|t.s| - p.offset)
    {
      PrefixLeftAtTheEnd(t, p);
      NotTransposed(t, p);
    }
    assert forall p :: p in Elems(ps) <==> p in ps;
    if d <= maxErrors {
      PrefixRunIsExact(t, maxErrors, w, [], maxErrors - d);
      var p :| p in Elems(ps) && PrefixLeft(t, p, []) >= maxErrors - d;
      PrefixRunIsExact(t, maxErrors, w, [], PrefixLeft(t, p, []));
      if q :| q in ps && IsAccepting(t, q) && n == maxErrors - (q.errorsLeft - (|t.s| - q.offset)) {
        assert q in Elems(ps);
        PrefixRunIsExact(t, maxErrors, w, [], PrefixLeft(t, q, []));
      }
    }
  }

  lemma NotTransposed(t: TransitionTable, p: Position)
    requires t.Fits(p)
    ensures IsAccepting(t, p) ==> !p.transposed
  {
  }

  // ----- What a position can still do at best

  // The rest of the pattern costs nothing.
  lemma BestCompletion(t: TransitionTable, p: Position) returns (u: seq<UniChar>)
    requires t.prefixSize <= |t.s| && t.Fits(p)
    ensures PrefixLeft(t, p, u) == p.errorsLeft
  {
    if p.transposed {
      u := [t.s[p.offset]] + t.s[p.offset + 2..];
      assert u[1..] == t.s[p.offset + 2..];
      DistOfEqual(t.s[p.offset + 2..]);
    } else {
      u := t.s[p.offset..];
      NothingToDo(t, p.offset);
    }
  }

  lemma NothingGained(t: TransitionTable, p: Position, u: seq<UniChar>)
    requires t.prefixSize <= |t.s| && t.Fits(p)
    ensures PrefixLeft(t, p, u) <= p.errorsLeft
  {
  }

  // Some position has that many errors left exactly when some continuation can be made with them.
  lemma CompletionIff(t: TransitionTable, maxErrors: nat, w: seq<UniChar>, v: nat)
    requires t.prefixSize <= |t.s| && (t.prefixSize <= 1 || maxErrors <= 1)
    ensures (exists p :: p in Run(t, maxErrors, w) && p.errorsLeft >= v)
       <==> (exists u :: maxErrors - PrefixDist(t, 0, w + u) >= v)
  {
    hide Run, PrefixDist, PrefixLeft;
    var ps := Run(t, maxErrors, w);
    if p :| p in ps && p.errorsLeft >= v {
      var u := BestCompletion(t, p);
      assert p in Elems(ps);
      PrefixRunIsExact(t, maxErrors, w, u, v);
    }
    if u :| maxErrors - PrefixDist(t, 0, w + u) >= v {
      PrefixRunIsExact(t, maxErrors, w, u, v);
      var p :| p in Elems(ps) && PrefixLeft(t, p, u) >= v;
      NothingGained(t, p, u);
    }
  }

  // ----- A longer prefix and more errors

  // Whatever is accepted can be made within the errors reported.
  lemma PrefixAcceptsOnlyClose(t: TransitionTable, maxErrors: nat, w: seq<UniChar>, n: int)
    requires t.prefixSize <= |t.s| && Accepts(t, Run(t, maxErrors, w))
    requires IsErrorsMade(t, maxErrors, Run(t, maxErrors, w), n)
    ensures PrefixDist(t, 0, w) <= n <= maxErrors
  {
    hide Respects, Run, IsErrorsMade, PrefixDist;
    var o, es := PrefixIsRespected(t, maxErrors, w, n);
    assert Makes(t, es, o, w, n);
    PrefixDistIsTheDistance(t, w);
  }

  // A pattern with two misprints in a row, of which the second one is its own first character.
  ghost function LostTable(k: nat, m: nat): TransitionTable {
    TransitionTable([1, 2] + Zeros(k + m), [[1, 4], [2, 1]], k)
  }

  ghost function LostWord(n: nat): seq<UniChar> {
    [4, 1] + Zeros(n)
  }

  ghost function Zeros(n: nat): (r: seq<UniChar>)
    ensures |r| == n && forall i :: 0 <= i < n ==> r[i] == 0
  {
    seq(n, _ => 0)
  }

  lemma {:induction false} NothingToDo(t: TransitionTable, o: nat)
    requires t.prefixSize <= |t.s| && o <= |t.s|
    ensures PrefixDist(t, o, t.s[o..]) == 0
    decreases |t.s| - o
  {
    hide Dist;
    if o >= t.prefixSize {
      DistOfEqual(t.s[o..]);
    } else {
      NothingToDo(t, o + 1);
      KeptFirst(t, o, t.s[o + 1..]);
      assert t.s[o..] == [t.s[o]] + t.s[o + 1..];
    }
  }

  lemma LostIsClose(k: nat, m: nat)
    requires k >= 2
    ensures PrefixDist(LostTable(k, m), 0, LostWord(k + m)) <= 2
  {
    var t := LostTable(k, m);
    var first, second := Replace(1, 4), Replace(2, 1);
    assert t.s[2..] == Zeros(k + m) && t.s[0..1] == first.Before() && t.s[1..2] == second.Before();
    assert [1, 4] in t.prefixMisprints by { assert t.prefixMisprints[0] == [1, 4]; }
    assert [2, 1] in t.prefixMisprints by { assert t.prefixMisprints[1] == [2, 1]; }
    assert ShareSet(t, 1, 4) && ShareSet(t, 2, 1);
    hide PrefixDist, ShareSet;
    NothingToDo(t, 2);
    PrefixDistOfEdit(t, 1, second, Zeros(k + m));
    PrefixDistOfEdit(t, 0, first, [1] + Zeros(k + m));
    assert [4] + ([1] + Zeros(k + m)) == LostWord(k + m);
  }

  lemma LostMisprints(k: nat, m: nat)
    ensures var t := LostTable(k, m); ShareSet(t, 1, 4) && ShareSet(t, 2, 1) && !ShareSet(t, 2, 0)
  {
    var t := LostTable(k, m);
    assert t.prefixMisprints[0] in t.prefixMisprints && t.prefixMisprints[1] in t.prefixMisprints;
  }

  lemma NextIs(t: TransitionTable, ps: Positions, c: UniChar, next: Positions)
    requires t.prefixSize <= |t.s| && t.AllFit(ps)
    requires Maximal(t.AllMoves(ps, c)) == Elems(next) && StrictlySorted(next)
    ensures t.Next(ps, c) == next
  {
    hide Maximal, TransitionTable.AllMoves;
    SortedIsUnique(Canon(Elems(next)), next);
  }

  lemma LostFirst(k: nat, m: nat)
    requires k >= 2 && m >= 2
    ensures LostTable(k, m).Next([Position(0, m, false)], 4) == [Position(0, m - 1, false), Position(1, m - 1, false)]
  {
    var t, start, stay, go := LostTable(k, m), Position(0, m, false), Position(0, m - 1, false), Position(1, m - 1, false);
    LostMisprints(k, m);
    hide ShareSet, TransitionTable.Moves, TransitionTable.Next;
    MovesInside(t, start, 4);
    assert start in [start] && stay in t.Moves(start, 4) && go in t.Moves(start, 4);
    assert t.AllMoves([start], 4) == {stay, go};
    assert Maximal({stay, go}) == {stay, go} == Elems([stay, go]);
    NextIs(t, [start], 4, [stay, go]);
  }

  lemma LostSecond(k: nat, m: nat)
    requires k >= 2 && m >= 2
    ensures LostTable(k, m).Next([Position(0, m - 1, false), Position(1, m - 1, false)], 1) == [Position(1, m - 1, false)]
  {
    var t, p0, p1 := LostTable(k, m), Position(0, m - 1, false), Position(1, m - 1, false);
    var stay, go := Position(1, m - 2, false), Position(2, m - 2, false);
    LostMisprints(k, m);
    hide ShareSet, TransitionTable.Moves, TransitionTable.Next;
    MovesInside(t, p0, 1);
    MovesInside(t, p1, 1);
    assert p0 in [p0, p1] && p1 in t.Moves(p0, 1);
    assert p1 in [p0, p1] && stay in t.Moves(p1, 1) && go in t.Moves(p1, 1);
    assert t.AllMoves([p0, p1], 1) == {p1, stay, go};
    LostTop(m);
    NextIs(t, [p0, p1], 1, [p1]);
  }

  lemma LostTop(m: nat)
    requires m >= 2
    ensures Maximal({Position(1, m - 1, false), Position(1, m - 2, false), Position(2, m - 2, false)}) == Elems([Position(1, m - 1, false)])
  {
    var p1, stay, go := Position(1, m - 1, false), Position(1, m - 2, false), Position(2, m - 2, false);
    assert stay.SubsumedBy(p1) && go.SubsumedBy(p1);
  }

  lemma LostBeginning(k: nat, m: nat)
    requires k >= 2 && m >= 2
    ensures Run(LostTable(k, m), m, [4, 1]) == [Position(1, m - 1, false)]
  {
    var t := LostTable(k, m);
    LostFits(k, m);
    LostFirst(k, m);
    LostSecond(k, m);
    TwoSteps(t, m, 4, 1);
  }

  lemma TwoSteps(t: TransitionTable, maxErrors: nat, c: UniChar, d: UniChar)
    requires t.prefixSize <= |t.s|
    ensures t.AllFit(Start(maxErrors)) && t.AllFit(t.Next(Start(maxErrors), c))
    ensures Run(t, maxErrors, [c, d]) == t.Next(t.Next(Start(maxErrors), c), d)
  {
    hide TransitionTable.Next, TransitionTable.AllFit;
    RunStep(t, maxErrors, [], c);
    RunStep(t, maxErrors, [c], d);
    assert [] + [c] == [c] && [c] + [d] == [c, d];
  }

  lemma LostFits(k: nat, m: nat)
    ensures LostTable(k, m).prefixSize == k <= |LostTable(k, m).s|
  {
  }

  lemma LostStep(k: nat, m: nat, e: nat)
    requires k >= 2
    ensures e > 0 ==> LostTable(k, m).Next([Position(1, e, false)], 0) == [Position(1, e - 1, false)]
    ensures e == 0 ==> LostTable(k, m).Next([Position(1, e, false)], 0) == []
  {
    var t, p := LostTable(k, m), Position(1, e, false);
    LostMisprints(k, m);
    hide ShareSet, TransitionTable.Moves;
    MovesInside(t, p, 0);
    assert p in [p];
    if e > 0 {
      var q := Position(1, e - 1, false);
      assert q in t.Moves(p, 0);
      assert t.AllMoves([p], 0) == {q};
      assert Maximal({q}) == {q} && Elems([q]) == {q};
      SortedIsUnique(Canon({q}), [q]);
    } else {
      assert t.AllMoves([p], 0) == {};
      assert Maximal({}) == {};
    }
  }

  // The run on the counterexample waits at the second place until it has no errors left.
  lemma {:induction false} LostRun(k: nat, m: nat, j: nat)
    requires k >= 2 && m >= 2
    ensures Run(LostTable(k, m), m, LostWord(j)) == if j < m then [Position(1, m - 1 - j, false)] else []
    decreases j
  {
    hide Run, TransitionTable.Next;
    var t := LostTable(k, m);
    if j == 0 {
      LostBeginning(k, m);
      assert LostWord(0) == [4, 1];
    } else {
      LostRun(k, m, j - 1);
      RunStep(t, m, LostWord(j - 1), 0);
      assert LostWord(j - 1) + [0] == LostWord(j);
      if j <= m {
        LostStep(k, m, m - j);
      } else {
        EmptyIsASink(t, 0);
      }
    }
  }

  // Some word is not accepted although a script within the errors allowed makes it.
  lemma SomeWordIsLost(k: nat, m: nat) returns (t: TransitionTable, w: seq<UniChar>)
    requires k >= 2 && m >= 2
    ensures t.prefixSize == k <= |t.s| && PrefixDist(t, 0, w) <= m && !Accepts(t, Run(t, m, w))
  {
    hide Run, PrefixDist;
    t, w := LostTable(k, m), LostWord(k + m);
    LostIsClose(k, m);
    LostRun(k, m, k + m);
  }

  ghost predicate AcceptsAllClose(t: TransitionTable, maxErrors: nat)
    requires t.prefixSize <= |t.s|
  {
    forall w :: Accepts(t, Run(t, maxErrors, w)) <==> PrefixDist(t, 0, w) <= maxErrors
  }

  // The automata of a prefix size and a number of errors accept exactly the close words, for every
  // pattern and all misprints, when one of the two numbers is at most 1 and not otherwise.
  lemma ExactIff(k: nat, m: nat)
    ensures (forall t: TransitionTable | t.prefixSize == k && k <= |t.s| :: AcceptsAllClose(t, m)) <==> k <= 1 || m <= 1
  {
    hide Run, PrefixDist, Accepts;
    if k <= 1 || m <= 1 {
      forall t: TransitionTable | t.prefixSize == k && k <= |t.s|
        ensures AcceptsAllClose(t, m)
      {
        forall w
          ensures Accepts(t, Run(t, m, w)) <==> PrefixDist(t, 0, w) <= m
        {
          var n := SomeErrors(t, m, Run(t, m, w));
          PrefixAcceptsIffClose(t, m, w, n);
        }
      }
    } else {
      var t, w := SomeWordIsLost(k, m);
      assert !AcceptsAllClose(t, m);
    }
  }
}
