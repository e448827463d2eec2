/**
 PrefixDFAModifier: accepts the words that have an accepted prefix.  The error count it reports is
 that of the characters it kept, which need not be a prefix of the word.
 */
module PrefixDfa {
  import opened EditScripts
  import opened LevenshteinStates
  import opened LevenshteinMoves
  import opened LevenshteinLanguage
  import opened LevenshteinPrefixes
  import opened LevenshteinPrefixLanguage
  import opened LevenshteinDfa
  import Osa

  // The automaton accepts w.
  ghost predicate Accepted(t: TransitionTable, maxErrors: nat, w: seq<UniChar>)
    requires t.prefixSize <= |t.s|
  {
    LevenshteinLanguage.Accepts(t, Run(t, maxErrors, w))
  }

  ghost predicate SomePrefix(l: seq<UniChar> -> bool, w: seq<UniChar>) {
    exists k :: 0 <= k <= |w| && l(w[..k])
  }

  // The automaton accepts some prefix of w.
  ghost predicate PrefixAccepted(t: TransitionTable, maxErrors: nat, w: seq<UniChar>)
    requires t.prefixSize <= |t.s|
  {
    SomePrefix(x => Accepted(t, maxErrors, x), w)
  }

  // The one number of errors that the automaton reports for w.
  ghost function RunErrors(t: TransitionTable, maxErrors: nat, w: seq<UniChar>): (n: int)
    requires t.prefixSize <= |t.s|
    ensures IsErrorsMade(t, maxErrors, Run(t, maxErrors, w), n)
  {
    assert exists n :: IsErrorsMade(t, maxErrors, Run(t, maxErrors, w), n) by {
      var n := SomeErrors(t, maxErrors, Run(t, maxErrors, w));
    }
    var n :| IsErrorsMade(t, maxErrors, Run(t, maxErrors, w), n);
    n
  }

  lemma OneNumber(t: TransitionTable, maxErrors: nat, ps: Positions, n: int, n': int)
    requires t.AllFit(ps) && IsErrorsMade(t, maxErrors, ps, n) && IsErrorsMade(t, maxErrors, ps, n')
    ensures n == n'
  {
    hide LevenshteinLanguage.IsAccepting;
  }

  // The characters of w that the modifier has moved on.  Once a prefix is accepted, a character that
  // would raise the reported number of errors is passed over.
  ghost function KeptBy(t: TransitionTable, maxErrors: nat, w: seq<UniChar>): seq<UniChar>
    requires t.prefixSize <= |t.s|
  {
    if w == [] then []
    else
      var w', c := w[..|w| - 1], w[|w| - 1];
      var kept := KeptBy(t, maxErrors, w');
      if PrefixAccepted(t, maxErrors, w') && RunErrors(t, maxErrors, kept + [c]) > RunErrors(t, maxErrors, kept) then kept
      else kept + [c]
  }

  // The same for prefixSize == 0, in terms of the pattern alone.
  ghost function Kept(s: seq<UniChar>, maxErrors: nat, w: seq<UniChar>): seq<UniChar> {
    if w == [] then []
    else
      var w', c := w[..|w| - 1], w[|w| - 1];
      var kept := Kept(s, maxErrors, w');
      if PrefixClose(s, maxErrors, w') && Report(s, maxErrors, kept + [c]) > Report(s, maxErrors, kept) then kept
      else kept + [c]
  }

  ghost predicate PrefixClose(s: seq<UniChar>, maxErrors: nat, w: seq<UniChar>) {
    SomePrefix(x => Osa.Dist(s, x) <= maxErrors, w)
  }

  lemma PushPrefix(l: seq<UniChar> -> bool, w: seq<UniChar>, c: UniChar)
    ensures SomePrefix(l, w + [c]) <==> SomePrefix(l, w) || l(w + [c])
  {
    var wc := w + [c];
    assert wc[..|wc|] == wc;
    assert forall k :: 0 <= k <= |w| ==> wc[..k] == w[..k];
  }

  lemma SamePrefixes(l: seq<UniChar> -> bool, l': seq<UniChar> -> bool, w: seq<UniChar>)
    requires forall x :: l(x) <==> l'(x)
    ensures SomePrefix(l, w) <==> SomePrefix(l', w)
  {
  }

  lemma PushKept(s: seq<UniChar>, maxErrors: nat, w: seq<UniChar>, c: UniChar)
    ensures var kept := Kept(s, maxErrors, w);
            Kept(s, maxErrors, w + [c]) ==
              if PrefixClose(s, maxErrors, w) && Report(s, maxErrors, kept + [c]) > Report(s, maxErrors, kept) then kept
              else kept + [c]
  {
    assert (w + [c])[..|w + [c]| - 1] == w;
  }

  lemma PushKeptBy(t: TransitionTable, maxErrors: nat, w: seq<UniChar>, c: UniChar)
    requires t.prefixSize <= |t.s|
    ensures var kept := KeptBy(t, maxErrors, w);
            KeptBy(t, maxErrors, w + [c]) ==
              if PrefixAccepted(t, maxErrors, w) && RunErrors(t, maxErrors, kept + [c]) > RunErrors(t, maxErrors, kept) then kept
              else kept + [c]
  {
    assert (w + [c])[..|w + [c]| - 1] == w;
  }

  // Before any prefix is accepted, every character is kept.
  lemma {:induction false} KeptBefore(t: TransitionTable, maxErrors: nat, w: seq<UniChar>)
    requires t.prefixSize <= |t.s| && !PrefixAccepted(t, maxErrors, w)
    ensures KeptBy(t, maxErrors, w) == w
  {
    if w != [] {
      var w', c := w[..|w| - 1], w[|w| - 1];
      assert w' + [c] == w;
      PushPrefix(x => Accepted(t, maxErrors, x), w', c);
      KeptBefore(t, maxErrors, w');
    }
  }

  lemma PlainKeptBefore(s: seq<UniChar>, maxErrors: nat, w: seq<UniChar>)
    requires !PrefixClose(s, maxErrors, w)
    ensures Kept(s, maxErrors, w) == w
  {
    var t := TransitionTable(s, [], 0);
    AcceptedIsClose(t, maxErrors, w);
    KeptBefore(t, maxErrors, w);
    PlainKept(t, maxErrors, w);
  }

  lemma PlainErrors(t: TransitionTable, maxErrors: nat, w: seq<UniChar>)
    requires t.prefixSize == 0
    ensures RunErrors(t, maxErrors, w) == Report(t.s, maxErrors, w)
  {
    hide Run, IsErrorsMade, PrefixDist, Report, PrefixReport, LevenshteinLanguage.Accepts;
    RunReport(t, maxErrors, w, RunErrors(t, maxErrors, w));
  }

  lemma {:induction false} PlainKept(t: TransitionTable, maxErrors: nat, w: seq<UniChar>)
    requires t.prefixSize == 0
    ensures KeptBy(t, maxErrors, w) == Kept(t.s, maxErrors, w)
  {
    if w != [] {
      hide PrefixAccepted, PrefixClose, RunErrors, Report;
      var w', c := w[..|w| - 1], w[|w| - 1];
      var kept := KeptBy(t, maxErrors, w');
      PlainKept(t, maxErrors, w');
      AcceptedIsClose(t, maxErrors, w');
      PlainErrors(t, maxErrors, kept);
      PlainErrors(t, maxErrors, kept + [c]);
    }
  }

  lemma AcceptedIsClose(t: TransitionTable, maxErrors: nat, w: seq<UniChar>)
    requires t.prefixSize <= |t.s|
    ensures t.prefixSize == 0 ==> (PrefixAccepted(t, maxErrors, w) <==> PrefixClose(t.s, maxErrors, w))
  {
    if t.prefixSize == 0 {
      forall x
        ensures Accepted(t, maxErrors, x) <==> Osa.Dist(t.s, x) <= maxErrors
      {
        AcceptedIffClose(t, maxErrors, x);
      }
      SamePrefixes(x => Accepted(t, maxErrors, x), x => Osa.Dist(t.s, x) <= maxErrors, w);
    }
  }

  lemma AcceptedIffClose(t: TransitionTable, maxErrors: nat, w: seq<UniChar>)
    requires t.prefixSize == 0
    ensures Accepted(t, maxErrors, w) <==> Osa.Dist(t.s, w) <= maxErrors
  {
    RunIsExact(t, maxErrors, w, [], 0);
    assert w + [] == w;
    var ps := Run(t, maxErrors, w);
    forall p | p in ps
      ensures Left(t, p, []) >= 0 <==> IsAccepting(t, p)
    {
      LeftAtTheEnd(t, p);
    }
    assert forall p :: p in Elems(ps) <==> p in ps;
  }

  // How the characters read, and the flag, relate to the word given so far.
  ghost predicate Follows(t: TransitionTable, maxErrors: nat, read: seq<UniChar>, accepts: bool, word: seq<UniChar>)
    requires t.prefixSize <= |t.s|
  {
    && (accepts <==> PrefixAccepted(t, maxErrors, word))
    && (!accepts ==> read <= word)
    && (!accepts && read != word ==> Run(t, maxErrors, read) == [])
    && (accepts ==> read == KeptBy(t, maxErrors, word))
  }

  // The automaton is where the characters kept lead it.
  lemma FollowsKept(t: TransitionTable, maxErrors: nat, read: seq<UniChar>, accepts: bool, word: seq<UniChar>)
    requires t.prefixSize <= |t.s| && Follows(t, maxErrors, read, accepts, word)
    ensures Run(t, maxErrors, read) == Run(t, maxErrors, KeptBy(t, maxErrors, word))
    ensures !accepts ==> !LevenshteinLanguage.Accepts(t, Run(t, maxErrors, read))
  {
    hide Run, LevenshteinLanguage.Accepts;
    if !accepts {
      KeptBefore(t, maxErrors, word);
      assert word[..|read|] == read;
      assert !Accepted(t, maxErrors, word[..|read|]);
      if read != word {
        RejectedForever(t, maxErrors, read, word[|read|..]);
        assert read + word[|read|..] == word;
      }
    }
  }

  // No prefix is accepted and none can be any more.
  lemma FollowsRejected(t: TransitionTable, maxErrors: nat, read: seq<UniChar>, word: seq<UniChar>, c: UniChar)
    requires t.prefixSize <= |t.s| && Follows(t, maxErrors, read, false, word)
    requires Run(t, maxErrors, read) == []
    ensures Follows(t, maxErrors, read, false, word + [c])
  {
    PushPrefix(x => Accepted(t, maxErrors, x), word, c);
    RejectedForever(t, maxErrors, read, (word + [c])[|read|..]);
    assert read + (word + [c])[|read|..] == word + [c];
  }

  lemma {:induction false} RejectedPrefixes(t: TransitionTable, maxErrors: nat, read: seq<UniChar>, word: seq<UniChar>, u: seq<UniChar>)
    requires t.prefixSize <= |t.s| && Follows(t, maxErrors, read, false, word)
    requires Run(t, maxErrors, read) == []
    ensures !PrefixAccepted(t, maxErrors, word + u)
    decreases |u|
  {
    if u == [] {
      assert word + u == word;
    } else {
      FollowsRejected(t, maxErrors, read, word, u[0]);
      RejectedPrefixes(t, maxErrors, read, word + [u[0]], u[1..]);
      assert word + [u[0]] + u[1..] == word + u;
    }
  }

  lemma NoneAccepted(t: TransitionTable, maxErrors: nat, read: seq<UniChar>, word: seq<UniChar>)
    requires t.prefixSize <= |t.s| && Follows(t, maxErrors, read, false, word)
    requires Run(t, maxErrors, read) == []
    ensures forall u :: !PrefixAccepted(t, maxErrors, word + u)
  {
    forall u
      ensures !PrefixAccepted(t, maxErrors, word + u)
    {
      RejectedPrefixes(t, maxErrors, read, word, u);
    }
  }

  lemma SomeAccepted(t: TransitionTable, maxErrors: nat, read: seq<UniChar>, accepts: bool, word: seq<UniChar>) returns (u: seq<UniChar>)
    requires t.prefixSize <= |t.s| && (t.prefixSize <= 1 || maxErrors <= 1)
    requires Follows(t, maxErrors, read, accepts, word) && (accepts || Run(t, maxErrors, read) != [])
    ensures PrefixAccepted(t, maxErrors, word + u)
  {
    hide Run, PrefixDist;
    if accepts {
      u := [];
      assert word + u == word;
    } else {
      RejectsIff(t, maxErrors, word);
      u :| PrefixDist(t, 0, word + u) <= maxErrors;
      RunReport(t, maxErrors, word + u, RunErrors(t, maxErrors, word + u));
      assert (word + u)[..|word + u|] == word + u;
      assert Accepted(t, maxErrors, (word + u)[..|word + u|]);
    }
  }

  // Some prefix is accepted and c would raise the number of errors.
  lemma FollowsRefused(t: TransitionTable, maxErrors: nat, read: seq<UniChar>, word: seq<UniChar>, c: UniChar, n: int, n': int)
    requires t.prefixSize <= |t.s| && Follows(t, maxErrors, read, true, word)
    requires IsErrorsMade(t, maxErrors, Run(t, maxErrors, read), n)
    requires IsErrorsMade(t, maxErrors, Run(t, maxErrors, read + [c]), n')
    requires n' > n
    ensures Follows(t, maxErrors, read, true, word + [c])
  {
    hide Run, IsErrorsMade;
    PushPrefix(x => Accepted(t, maxErrors, x), word, c);
    PushKeptBy(t, maxErrors, word, c);
    OneNumber(t, maxErrors, Run(t, maxErrors, read), n, RunErrors(t, maxErrors, read));
    OneNumber(t, maxErrors, Run(t, maxErrors, read + [c]), n', RunErrors(t, maxErrors, read + [c]));
  }

  lemma FollowsTaken(t: TransitionTable, maxErrors: nat, read: seq<UniChar>, accepts: bool, word: seq<UniChar>, c: UniChar, n: int, n': int)
    requires t.prefixSize <= |t.s| && Follows(t, maxErrors, read, accepts, word)
    requires !accepts ==> read == word
    requires accepts ==>
               && IsErrorsMade(t, maxErrors, Run(t, maxErrors, read), n)
               && IsErrorsMade(t, maxErrors, Run(t, maxErrors, read + [c]), n')
               && n' <= n
    ensures Follows(t, maxErrors, read + [c], accepts || Accepted(t, maxErrors, read + [c]), word + [c])
  {
    hide Run, IsErrorsMade;
    PushPrefix(x => Accepted(t, maxErrors, x), word, c);
    PushKeptBy(t, maxErrors, word, c);
    if accepts {
      OneNumber(t, maxErrors, Run(t, maxErrors, read), n, RunErrors(t, maxErrors, read));
      OneNumber(t, maxErrors, Run(t, maxErrors, read + [c]), n', RunErrors(t, maxErrors, read + [c]));
    } else {
      KeptBefore(t, maxErrors, word);
    }
  }

  class PrefixIterator {
    var it: Iterator
    var accepts: bool
    ghost var word: seq<UniChar>

    ghost predicate Valid()
      reads this, it
    {
      it.Valid() && Follows(it.dfa.table, it.dfa.maxErrors, it.word, accepts, word)
    }

    constructor (dfa: LevenshteinDFA)
      requires dfa.Valid()
      ensures Valid() && it.dfa == dfa && word == [] && fresh(it)
    {
      var begin := new Iterator(dfa);
      it := begin;
      word := [];
      accepts := begin.Accepts();
      new;
      assert word[..0] == [];
      assert accepts ==> Accepted(dfa.table, dfa.maxErrors, word[..0]);
    }

    predicate Accepts()
      requires Valid()
      reads this, it
      ensures Accepts() <==> PrefixAccepted(it.dfa.table, it.dfa.maxErrors, word)
      ensures it.dfa.table.prefixSize == 0 ==> (Accepts() <==> PrefixClose(it.dfa.table.s, it.dfa.maxErrors, word))
    {
      AcceptedIsClose(it.dfa.table, it.dfa.maxErrors, word);
      accepts
    }

    // Once rejected, no continuation of the word has an accepted prefix.
    predicate Rejects()
      requires Valid()
      reads this, it
      ensures Rejects() ==> forall u :: !PrefixAccepted(it.dfa.table, it.dfa.maxErrors, word + u)
      ensures it.dfa.table.prefixSize <= 1 || it.dfa.maxErrors <= 1 ==>
                (Rejects() <==> forall u :: !PrefixAccepted(it.dfa.table, it.dfa.maxErrors, word + u))
    {
      ghost var t, maxErrors, read, w, rejects := it.dfa.table, it.dfa.maxErrors, it.word, word, !accepts && it.Rejects();
      assert rejects ==> forall u :: !PrefixAccepted(t, maxErrors, w + u) by {
        if rejects {
          NoneAccepted(t, maxErrors, read, w);
        }
      }
      assert !rejects && (t.prefixSize <= 1 || maxErrors <= 1) ==> exists u :: PrefixAccepted(t, maxErrors, w + u) by {
        if !rejects && (t.prefixSize <= 1 || maxErrors <= 1) {
          var u := SomeAccepted(t, maxErrors, read, accepts, w);
        }
      }
      !Accepts() && it.Rejects()
    }

    // Before a prefix is accepted maxErrors; afterwards the number for the characters kept.
    function ErrorsMade(): (n: int)
      requires Valid()
      reads this, it
      ensures IsErrorsMade(it.dfa.table, it.dfa.maxErrors,
                           Run(it.dfa.table, it.dfa.maxErrors, KeptBy(it.dfa.table, it.dfa.maxErrors, word)), n)
      ensures !PrefixAccepted(it.dfa.table, it.dfa.maxErrors, word) ==> n == it.dfa.maxErrors
      ensures it.dfa.table.prefixSize <= 1 || it.dfa.maxErrors <= 1 ==>
                n == PrefixReport(it.dfa.table, it.dfa.maxErrors, KeptBy(it.dfa.table, it.dfa.maxErrors, word))
      ensures it.dfa.table.prefixSize == 0 ==>
                n == Report(it.dfa.table.s, it.dfa.maxErrors, Kept(it.dfa.table.s, it.dfa.maxErrors, word))
    {
      ghost var t, maxErrors, kept := it.dfa.table, it.dfa.maxErrors, KeptBy(it.dfa.table, it.dfa.maxErrors, word);
      FollowsKept(t, maxErrors, it.word, accepts, word);
      RunReport(t, maxErrors, kept, it.ErrorsMade());
      assert t.prefixSize == 0 ==> kept == Kept(t.s, maxErrors, word) by {
        if t.prefixSize == 0 {
          PlainKept(t, maxErrors, word);
        }
      }
      it.ErrorsMade()
    }

    function PrefixErrorsMade(): (n: int)
      requires Valid()
      reads this, it
      ensures IsPrefixErrorsMade(it.dfa.maxErrors,
                                 Run(it.dfa.table, it.dfa.maxErrors, KeptBy(it.dfa.table, it.dfa.maxErrors, word)), n)
    {
      FollowsKept(it.dfa.table, it.dfa.maxErrors, it.word, accepts, word);
      it.PrefixErrorsMade()
    }

    method Move(c: UniChar)
      requires Valid()
      modifies this, it
      ensures Valid() && it == old(it) && word == old(word) + [c]
      ensures old(Accepts()) ==> Accepts() && ErrorsMade() <= old(ErrorsMade())
    {
      hide Run, Osa.Dist, KeptBy, SomePrefix, IsErrorsMade, IsPrefixErrorsMade, LevenshteinLanguage.Accepts;
      ghost var t, maxErrors, read, w := it.dfa.table, it.dfa.maxErrors, it.word, word;
      var rejects := Rejects();
      word := word + [c];
      if rejects {
        FollowsRejected(t, maxErrors, read, w, c);
        return;
      }
      ghost var n, n' := 0, 0;
      if accepts {
        var currentIt := new Iterator.Copy(it);
        currentIt.Move(c);
        n, n' := it.ErrorsMade(), currentIt.ErrorsMade();
        if currentIt.ErrorsMade() > it.ErrorsMade() {
          FollowsRefused(t, maxErrors, read, w, c, n, n');
          return;
        }
      }
      FollowsTaken(t, maxErrors, read, accepts, w, c, n, n');
      it.Move(c);
      if it.Accepts() {
        accepts := true;
      }
    }
  }

  // Moves an iterator along a whole text.
  method DFAMove(it: PrefixIterator, s: seq<UniChar>)
    requires it.Valid()
    modifies it, it.it
    ensures it.Valid() && it.it == old(it.it) && it.word == old(it.word) + s
    ensures old(it.Accepts()) ==> it.Accepts() && it.ErrorsMade() <= old(it.ErrorsMade())
  {
    hide Run, Osa.Dist, KeptBy, SomePrefix, PrefixAccepted, PrefixClose, Report, Follows, IsErrorsMade, IsPrefixErrorsMade, LevenshteinLanguage.Accepts;
    for i := 0 to |s|
      invariant it.Valid() && it.it == old(it.it) && it.word == old(it.word) + s[..i]
      invariant old(it.Accepts()) ==> it.Accepts() && it.ErrorsMade() <= old(it.ErrorsMade())
    {
      assert s[..i + 1] == s[..i] + [s[i]];
      it.Move(s[i]);
    }
    assert s[..|s|] == s;
  }
}
