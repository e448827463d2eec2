/**
 LevenshteinDFA: the subset construction over normalized states, and walking the finished automaton.
 */
module LevenshteinDfa {
  import opened EditScripts
  import opened LevenshteinStates
  import opened LevenshteinMoves
  import opened LevenshteinLanguage
  import opened LevenshteinPrefixes
  import opened LevenshteinPrefixLanguage
  import EditDistance
  import Osa
  import Sequences

  const STARTING_STATE: nat := 0
  const REJECTING_STATE: nat := 1

  // ----- The alphabet

  ghost predicate SortedChars(a: seq<UniChar>) {
    forall i, j :: 0 <= i < j < |a| ==> a[i] < a[j]
  }

  // Sorting and removal of repetitions; stands for the library call in base::SortUnique.
  method SortUniqueChars(a: seq<UniChar>) returns (r: seq<UniChar>)
    ensures SortedChars(r)
    ensures forall c :: c in r <==> c in a
  {
    r := [];
    for k := 0 to |a|
      invariant SortedChars(r)
      invariant forall c :: c in r <==> c in a[..k]
    {
      assert a[..k + 1] == a[..k] + [a[k]];
      var i := LowerBound(r, a[k]);
      ghost var before := r;
      if i == |r| || r[i] != a[k] {
        r := r[..i] + [a[k]] + r[i..];
        assert before == before[..i] + before[i..];
      }
      assert forall c :: c in r <==> c in before || c == a[k];
    }
    assert a[..|a|] == a;
  }

  // The index of the first element of a that is not less than c.
  method LowerBound(a: seq<UniChar>, c: UniChar) returns (i: nat)
    requires SortedChars(a)
    ensures i <= |a|
    ensures forall k :: 0 <= k < i ==> a[k] < c
    ensures forall k :: i <= k < |a| ==> c <= a[k]
  {
    var lo, hi := 0, |a|;
    while lo < hi
      invariant lo <= hi <= |a|
      invariant forall k :: 0 <= k < lo ==> a[k] < c
      invariant forall k :: hi <= k < |a| ==> c <= a[k]
    {
      var mid := (lo + hi) / 2;
      if a[mid] < c {
        lo := mid + 1;
      } else {
        hi := mid;
      }
    }
    i := lo;
  }

  // The least character that a lacks.  It is at most |a|, so it fits 32 bits whenever |a| does.
  method Missed(a: seq<UniChar>) returns (missed: UniChar)
    requires SortedChars(a)
    ensures missed !in a && missed <= |a|
    ensures forall c :: 0 <= c < missed ==> c in a
  {
    missed := 0;
    var i := 0;
    while i < |a| && missed >= a[i]
      invariant i <= |a| && missed == i
      invariant forall k :: 0 <= k < i ==> a[k] == k
    {
      assert i > 0 ==> a[i - 1] < a[i];
      if missed == a[i] {
        missed := missed + 1;
      }
      i := i + 1;
    }
    forall k | 0 <= k < |a|
      ensures a[k] != missed
    {
    }
    forall c | 0 <= c < missed
      ensures c in a
    {
      assert a[c] == c;
    }
  }

  // Every letter that a move can tell from the others, and at the end one that stands for the rest.
  ghost predicate ValidAlphabet(t: TransitionTable, alphabet: seq<UniChar>)
    requires t.prefixSize <= |t.s|
  {
    && |alphabet| > 0
    && var known, missed := alphabet[..|alphabet| - 1], alphabet[|alphabet| - 1];
    && SortedChars(known) && missed !in known
    && (forall c | c in t.s :: c in known)
    && (forall m, k, c | m in t.prefixMisprints && 0 <= k < t.prefixSize && t.s[k] in m && c in m :: c in known)
  }

  method MakeAlphabet(t: TransitionTable) returns (alphabet: seq<UniChar>)
    requires t.prefixSize <= |t.s|
    ensures ValidAlphabet(t, alphabet)
  {
    alphabet := t.s;
    for k := 0 to t.prefixSize
      invariant forall c | c in t.s :: c in alphabet
      invariant forall m, h, c | m in t.prefixMisprints && 0 <= h < k && t.s[h] in m && c in m :: c in alphabet
    {
      for j := 0 to |t.prefixMisprints|
        invariant forall c | c in t.s :: c in alphabet
        invariant forall m, h, c | m in t.prefixMisprints && 0 <= h < k && t.s[h] in m && c in m :: c in alphabet
        invariant forall m, c | m in t.prefixMisprints[..j] && t.s[k] in m && c in m :: c in alphabet
      {
        if t.s[k] in t.prefixMisprints[j] {
          alphabet := alphabet + t.prefixMisprints[j];
        }
      }
    }
    alphabet := SortUniqueChars(alphabet);
    var missed := Missed(alphabet);
    ghost var known := alphabet;
    alphabet := alphabet + [missed];
    assert alphabet[..|alphabet| - 1] == known;
  }

  // ----- Summaries of a state

  // n is the least number of errors over all positions of a state, or maxErrors without any.
  ghost predicate IsPrefixErrorsMade(maxErrors: nat, ps: Positions, n: int) {
    && n <= maxErrors
    && (forall p | p in ps :: n <= maxErrors - p.errorsLeft)
    && (n == maxErrors || exists p :: p in ps && n == maxErrors - p.errorsLeft)
  }

  method ErrorsMade(t: TransitionTable, maxErrors: nat, ps: Positions) returns (n: int)
    requires t.AllFit(ps)
    ensures IsErrorsMade(t, maxErrors, ps, n)
  {
    n := maxErrors;
    for k := 0 to |ps|
      invariant IsErrorsMade(t, maxErrors, ps[..k], n)
    {
      assert ps[..k + 1] == ps[..k] + [ps[k]];
      if IsAccepting(t, ps[k]) {
        var errorsLeft := ps[k].errorsLeft - (|t.s| - ps[k].offset);
        n := if n < maxErrors - errorsLeft then n else maxErrors - errorsLeft;
      }
    }
    assert ps[..|ps|] == ps;
  }

  method PrefixErrorsMade(maxErrors: nat, ps: Positions) returns (n: int)
    ensures IsPrefixErrorsMade(maxErrors, ps, n)
  {
    n := maxErrors;
    for k := 0 to |ps|
      invariant IsPrefixErrorsMade(maxErrors, ps[..k], n)
    {
      assert ps[..k + 1] == ps[..k] + [ps[k]];
      n := if n < maxErrors - ps[k].errorsLeft then n else maxErrors - ps[k].errorsLeft;
    }
    assert ps[..|ps|] == ps;
  }

  // The number of errors already made cannot decrease, whatever the prefix restrictions are.
  lemma PrefixErrorsNeverDecrease(t: TransitionTable, maxErrors: nat, ps: Positions, c: UniChar, n: int, n': int)
    requires t.AllFit(ps) && t.prefixSize <= |t.s|
    requires IsPrefixErrorsMade(maxErrors, ps, n)
    requires IsPrefixErrorsMade(maxErrors, t.Next(ps, c), n')
    ensures n <= n'
  {
    t.NextFits(ps, c);
  }

  // ----- What a run reports

  // The number of errors reported for a word: its distance, or maxErrors when that is exceeded.
  function Report(s: seq<UniChar>, maxErrors: nat, w: seq<UniChar>): nat {
    Sequences.Min(Osa.Dist(s, w), maxErrors)
  }

  // As Report, for a pattern with a restricted prefix.
  ghost function PrefixReport(t: TransitionTable, maxErrors: nat, w: seq<UniChar>): nat
    requires t.prefixSize <= |t.s|
  {
    Sequences.Min(PrefixDist(t, 0, w), maxErrors)
  }

  lemma RunReport(t: TransitionTable, maxErrors: nat, w: seq<UniChar>, n: int)
    requires t.prefixSize <= |t.s| && IsErrorsMade(t, maxErrors, Run(t, maxErrors, w), n)
    ensures !LevenshteinLanguage.Accepts(t, Run(t, maxErrors, w)) ==> n == maxErrors
    ensures t.prefixSize == 0 ==> PrefixDist(t, 0, w) == Osa.Dist(t.s, w) && PrefixReport(t, maxErrors, w) == Report(t.s, maxErrors, w)
    ensures t.prefixSize <= 1 || maxErrors <= 1 ==>
              && (LevenshteinLanguage.Accepts(t, Run(t, maxErrors, w)) <==> PrefixDist(t, 0, w) <= maxErrors)
              && n == PrefixReport(t, maxErrors, w)
  {
    hide Run;
    if t.prefixSize == 0 {
      assert t.s[0..] == t.s;
    }
    hide PrefixDist, Osa.Dist;
    if t.prefixSize <= 1 || maxErrors <= 1 {
      PrefixAcceptsIffClose(t, maxErrors, w, n);
    }
  }

  // The errors already made: the least distance that any word beginning with w can have.
  lemma PrefixErrorsMean(t: TransitionTable, maxErrors: nat, w: seq<UniChar>, n: int)
    requires t.prefixSize <= |t.s| && (t.prefixSize <= 1 || maxErrors <= 1)
    requires IsPrefixErrorsMade(maxErrors, Run(t, maxErrors, w), n)
    ensures n <= maxErrors && (n == maxErrors || exists u :: PrefixDist(t, 0, w + u) == n)
    ensures forall u :: PrefixDist(t, 0, w + u) >= n
  {
    hide Run, PrefixDist;
    forall u
      ensures PrefixDist(t, 0, w + u) >= n
    {
      if PrefixDist(t, 0, w + u) < n {
        CompletionIff(t, maxErrors, w, maxErrors - n + 1);
      }
    }
    if n < maxErrors {
      CompletionIff(t, maxErrors, w, maxErrors - n);
      var u :| maxErrors - PrefixDist(t, 0, w + u) >= maxErrors - n;
    }
  }

  // No position is left exactly when no continuation can be accepted.
  lemma RejectsIff(t: TransitionTable, maxErrors: nat, w: seq<UniChar>)
    requires t.prefixSize <= |t.s| && (t.prefixSize <= 1 || maxErrors <= 1)
    ensures Run(t, maxErrors, w) == [] <==> forall u :: PrefixDist(t, 0, w + u) > maxErrors
  {
    hide Run, PrefixDist;
    CompletionIff(t, maxErrors, w, 0);
    if Run(t, maxErrors, w) != [] {
      assert Run(t, maxErrors, w)[0] in Run(t, maxErrors, w);
    }
  }

  // strings::EditDistance is never less than what the automaton compares with maxErrors.
  lemma AcceptsByEditDistance(s: seq<UniChar>, maxErrors: nat, w: seq<UniChar>, d: nat)
    requires IsDistance(d, NoSwaps, s, w) && d <= maxErrors
    ensures LevenshteinLanguage.Accepts(TransitionTable(s, [], 0), Run(TransitionTable(s, [], 0), maxErrors, w))
  {
    var t := TransitionTable(s, [], 0);
    Osa.DistIsTheDistance(s, w);
    MoreEditsHelp(d, Osa.Dist(s, w), NoSwaps, s, w);
    RunIsExact(t, maxErrors, w, [], 0);
    assert w + [] == w;
    var p :| p in Elems(Run(t, maxErrors, w)) && Left(t, p, []) >= 0;
    LeftAtTheEnd(t, p);
  }

  // ----- Termination of the construction: there are finitely many states

  ghost predicate WithinErrors(maxErrors: nat, ps: Positions) {
    forall p | p in ps :: p.errorsLeft <= maxErrors
  }

  // A state that the construction may meet.
  ghost predicate IsState(t: TransitionTable, maxErrors: nat, ps: Positions) {
    t.AllFit(ps) && StrictlySorted(ps) && WithinErrors(maxErrors, ps)
  }

  ghost function Universe(size: nat, maxErrors: nat): set<Position> {
    set o, e, b | 0 <= o <= size && 0 <= e <= maxErrors && b in {false, true} :: Position(o, e, b)
  }

  // The element sets of all states.
  ghost function AllStates(size: nat, maxErrors: nat): set<set<Position>> {
    var u := Universe(size, maxErrors);
    set ps | ps <= u
  }

  lemma StatesAreFinite(t: TransitionTable, maxErrors: nat, ps: Positions)
    requires IsState(t, maxErrors, ps)
    ensures Elems(ps) in AllStates(|t.s|, maxErrors)
  {
    forall p | p in Elems(ps)
      ensures p in Universe(|t.s|, maxErrors)
    {
      assert p == Position(p.offset, p.errorsLeft, p.transposed) && p.transposed in {false, true};
    }
  }

  lemma NextIsState(t: TransitionTable, maxErrors: nat, ps: Positions, c: UniChar)
    requires IsState(t, maxErrors, ps) && t.prefixSize <= |t.s|
    ensures IsState(t, maxErrors, t.Next(ps, c))
  {
    t.NextFits(ps, c);
  }

  // ----- Invariants of the construction

  // The queue of states to expand, the ids of all known states and the tables by id.
  datatype Tables = Tables(
    queue: seq<Positions>,
    visited: map<Positions, nat>,
    transitions: seq<seq<nat>>,
    accepting: seq<bool>,
    errorsMade: seq<int>,
    prefixErrorsMade: seq<int>)

  // visited gives every discovered state its id.
  ghost predicate Indexed(visited: map<Positions, nat>, sts: seq<Positions>) {
    && (forall id :: 0 <= id < |sts| ==> sts[id] in visited && visited[sts[id]] == id)
    && (forall ps | ps in visited :: visited[ps] < |sts| && sts[visited[ps]] == ps)
  }

  // Every discovered state is one of the finitely many, and its error counts are recorded.
  ghost predicate Summaries(t: TransitionTable, maxErrors: nat, sts: seq<Positions>, errs: seq<int>, prefixErrs: seq<int>) {
    && |sts| == |errs| == |prefixErrs|
    && (forall id :: 0 <= id < |sts| ==> IsState(t, maxErrors, sts[id]))
    && (forall id :: 0 <= id < |sts| ==> IsErrorsMade(t, maxErrors, sts[id], errs[id]))
    && (forall id :: 0 <= id < |sts| ==> IsPrefixErrorsMade(maxErrors, sts[id], prefixErrs[id]))
  }

  ghost predicate AcceptingUpTo(t: TransitionTable, sts: seq<Positions>, acc: seq<bool>, done: nat) {
    && |acc| == |sts|
    && (forall id :: 0 <= id < |sts| ==> t.AllFit(sts[id]))
    && (forall id :: 0 <= id < |sts| ==> acc[id] == (id < done && Accepts(t, sts[id])))
  }

  ghost predicate ValidRow(t: TransitionTable, alphabet: seq<UniChar>, sts: seq<Positions>, trans: seq<seq<nat>>, id: nat)
    requires id < |sts| == |trans| && t.prefixSize <= |t.s|
  {
    && t.AllFit(sts[id])
    && |trans[id]| == |alphabet|
    && forall i :: 0 <= i < |alphabet| ==>
         trans[id][i] < |sts| && sts[trans[id][i]] == t.Next(sts[id], alphabet[i])
  }

  ghost predicate Rows(t: TransitionTable, alphabet: seq<UniChar>, sts: seq<Positions>, trans: seq<seq<nat>>, done: nat) {
    && t.prefixSize <= |t.s| && done <= |sts| == |trans|
    && (forall id :: 0 <= id < done ==> ValidRow(t, alphabet, sts, trans, id))
    && (forall id :: 0 <= id < |sts| ==> |trans[id]| == |alphabet|)
  }

  ghost predicate RowUpTo(t: TransitionTable, alphabet: seq<UniChar>, sts: seq<Positions>, trans: seq<seq<nat>>, id: nat, n: nat)
    requires t.prefixSize <= |t.s|
  {
    && id < |sts| == |trans| && t.AllFit(sts[id]) && n <= |alphabet| == |trans[id]|
    && forall i :: 0 <= i < n ==>
         trans[id][i] < |sts| && sts[trans[id][i]] == t.Next(sts[id], alphabet[i])
  }

  ghost predicate Known(t: TransitionTable, maxErrors: nat, b: Tables, sts: seq<Positions>) {
    && Summaries(t, maxErrors, sts, b.errorsMade, b.prefixErrorsMade)
    && Indexed(b.visited, sts)
    && |sts| >= 2 && sts[STARTING_STATE] == Start(maxErrors) && sts[REJECTING_STATE] == []
  }

  // The element set of every state that is not yet expanded is still to come.
  ghost predicate Pending(t: TransitionTable, maxErrors: nat, expanded: seq<Positions>, todo: set<set<Position>>) {
    forall ps | IsState(t, maxErrors, ps) && ps !in expanded :: Elems(ps) in todo
  }

  // All ids below done are expanded; sts lists the known states in the order of discovery.
  ghost predicate Built(t: TransitionTable, maxErrors: nat, alphabet: seq<UniChar>, b: Tables, sts: seq<Positions>, done: nat) {
    && done <= |sts| && b.queue == sts[done..]
    && Known(t, maxErrors, b, sts)
    && Rows(t, alphabet, sts, b.transitions, done)
    && AcceptingUpTo(t, sts, b.accepting, done)
  }

  // State id is being expanded: its first n transitions are in place.
  ghost predicate Expanding(t: TransitionTable, maxErrors: nat, alphabet: seq<UniChar>, b: Tables, sts: seq<Positions>, id: nat, n: nat) {
    && id < |sts| && b.queue == sts[id + 1..]
    && Known(t, maxErrors, b, sts)
    && Rows(t, alphabet, sts, b.transitions, id) && RowUpTo(t, alphabet, sts, b.transitions, id, n)
    && AcceptingUpTo(t, sts, b.accepting, id + 1)
  }

  // The finished tables are those of the transition table's automaton, state by state.
  ghost predicate Describes(t: TransitionTable, maxErrors: nat, alphabet: seq<UniChar>, sts: seq<Positions>, b: Tables) {
    && Summaries(t, maxErrors, sts, b.errorsMade, b.prefixErrorsMade)
    && Rows(t, alphabet, sts, b.transitions, |sts|)
    && AcceptingUpTo(t, sts, b.accepting, |sts|)
    && |sts| >= 2 && sts[STARTING_STATE] == Start(maxErrors) && sts[REJECTING_STATE] == []
    && (forall x, y :: 0 <= x < y < |sts| ==> sts[x] != sts[y])
  }

  // ----- What its steps do to the tables

  // A newly discovered state gets the next id, and everything known so far stays as it is.
  lemma PushIndexed(visited: map<Positions, nat>, sts: seq<Positions>, next: Positions)
    requires Indexed(visited, sts) && next !in visited
    ensures Indexed(visited[next := |sts|], sts + [next])
  {
  }

  lemma PushRows(t: TransitionTable, alphabet: seq<UniChar>, sts: seq<Positions>, trans: seq<seq<nat>>,
                 id: nat, n: nat, next: Positions)
    requires Rows(t, alphabet, sts, trans, id) && RowUpTo(t, alphabet, sts, trans, id, n)
    ensures var sts', trans' := sts + [next], trans + [seq(|alphabet|, _ => 0)];
            Rows(t, alphabet, sts', trans', id) && RowUpTo(t, alphabet, sts', trans', id, n)
  {
    var sts', trans' := sts + [next], trans + [seq(|alphabet|, _ => 0)];
    forall h | 0 <= h < id
      ensures ValidRow(t, alphabet, sts', trans', h)
    {
      assert ValidRow(t, alphabet, sts, trans, h);
    }
  }

  lemma PushAccepting(t: TransitionTable, sts: seq<Positions>, acc: seq<bool>, done: nat, next: Positions)
    requires AcceptingUpTo(t, sts, acc, done) && done <= |sts| && t.AllFit(next)
    ensures AcceptingUpTo(t, sts + [next], acc + [false], done)
  {
  }

  lemma SetTransition(t: TransitionTable, alphabet: seq<UniChar>, sts: seq<Positions>, trans: seq<seq<nat>>,
                      id: nat, i: nat, nid: nat)
    requires Rows(t, alphabet, sts, trans, id) && RowUpTo(t, alphabet, sts, trans, id, i)
    requires i < |alphabet| && nid < |sts| && sts[nid] == t.Next(sts[id], alphabet[i])
    ensures var row: seq<nat> := trans[id][i := nid];
            var trans' := trans[id := row];
            Rows(t, alphabet, sts, trans', id) && RowUpTo(t, alphabet, sts, trans', id, i + 1)
  {
    var row: seq<nat> := trans[id][i := nid];
    var trans' := trans[id := row];
    forall h | 0 <= h < id
      ensures ValidRow(t, alphabet, sts, trans', h)
    {
      assert ValidRow(t, alphabet, sts, trans, h);
    }
  }

  lemma FinishRow(t: TransitionTable, alphabet: seq<UniChar>, sts: seq<Positions>, trans: seq<seq<nat>>, id: nat)
    requires Rows(t, alphabet, sts, trans, id) && RowUpTo(t, alphabet, sts, trans, id, |alphabet|)
    ensures Rows(t, alphabet, sts, trans, id + 1)
  {
    assert ValidRow(t, alphabet, sts, trans, id);
  }

  lemma AllPending(t: TransitionTable, maxErrors: nat)
    ensures Pending(t, maxErrors, [], AllStates(|t.s|, maxErrors))
  {
    forall ps | IsState(t, maxErrors, ps)
      ensures Elems(ps) in AllStates(|t.s|, maxErrors)
    {
      StatesAreFinite(t, maxErrors, ps);
    }
  }

  lemma Expanded(t: TransitionTable, maxErrors: nat, sts: seq<Positions>, done: nat, todo: set<set<Position>>)
    requires done < |sts| && IsState(t, maxErrors, sts[done])
    requires forall a, b :: 0 <= a < b < |sts| ==> sts[a] != sts[b]
    requires Pending(t, maxErrors, sts[..done], todo)
    ensures Elems(sts[done]) in todo
    ensures Pending(t, maxErrors, sts[..done + 1], todo - {Elems(sts[done])})
  {
    var curr := sts[done];
    assert curr !in sts[..done];
    assert sts[..done + 1] == sts[..done] + [curr];
    forall ps | IsState(t, maxErrors, ps) && ps !in sts[..done + 1]
      ensures Elems(ps) in todo - {Elems(curr)}
    {
      if Elems(ps) == Elems(curr) {
        SortedIsUnique(ps, curr);
      }
    }
  }

  lemma {:induction false} DistinctCount(sts: seq<Positions>)
    requires forall a, b :: 0 <= a < b < |sts| ==> sts[a] != sts[b]
    ensures |set ps | ps in sts| == |sts|
  {
    if sts != [] {
      var last, init := sts[|sts| - 1], sts[..|sts| - 1];
      DistinctCount(init);
      assert sts == init + [last];
      assert (set ps | ps in sts) == (set ps | ps in init) + {last};
      assert last !in init;
    }
  }

  // The number of known states is the next free id.
  lemma AllIndexed(visited: map<Positions, nat>, sts: seq<Positions>)
    requires Indexed(visited, sts)
    ensures |visited| == |sts|
  {
    DistinctCount(sts);
    assert visited.Keys == set ps | ps in sts;
  }

  // The queue of states yields one: its element set is no longer to come.
  lemma TakeOne(t: TransitionTable, maxErrors: nat, alphabet: seq<UniChar>, b: Tables, sts: seq<Positions>, done: nat,
                todo: set<set<Position>>)
    returns (rest: set<set<Position>>)
    requires Built(t, maxErrors, alphabet, b, sts, done) && b.queue != []
    requires Pending(t, maxErrors, sts[..done], todo)
    ensures rest < todo
    ensures Pending(t, maxErrors, sts[..done + 1], rest)
  {
    Expanded(t, maxErrors, sts, done, todo);
    rest := todo - {Elems(sts[done])};
  }

  lemma Finished(t: TransitionTable, maxErrors: nat, alphabet: seq<UniChar>, b: Tables, sts: seq<Positions>, done: nat)
    requires Built(t, maxErrors, alphabet, b, sts, done) && b.queue == []
    ensures Describes(t, maxErrors, alphabet, sts, b)
  {
  }

  // The state at the front of the queue is the next one to expand.
  lemma StartExpanding(t: TransitionTable, maxErrors: nat, alphabet: seq<UniChar>, b: Tables, sts: seq<Positions>, done: nat)
    requires Built(t, maxErrors, alphabet, b, sts, done) && b.queue != []
    ensures done < |sts| && b.queue[0] == sts[done] && t.AllFit(sts[done])
    ensures b.queue[0] in b.visited && b.visited[b.queue[0]] == done < |b.accepting|
    ensures var b' := b.(queue := b.queue[1..], accepting := b.accepting[done := Accepts(t, b.queue[0])]);
            Expanding(t, maxErrors, alphabet, b', sts, done, 0)
  {
    hide IsErrorsMade, IsPrefixErrorsMade, ValidRow, TransitionTable.Next, StrictlySorted, Accepts;
  }

  lemma FinishExpanding(t: TransitionTable, maxErrors: nat, alphabet: seq<UniChar>, b: Tables, sts: seq<Positions>, id: nat)
    requires Expanding(t, maxErrors, alphabet, b, sts, id, |alphabet|)
    ensures Built(t, maxErrors, alphabet, b, sts, id + 1)
  {
    hide IsErrorsMade, IsPrefixErrorsMade, ValidRow, TransitionTable.Next, StrictlySorted, Accepts;
    FinishRow(t, alphabet, sts, b.transitions, id);
  }

  // ----- The construction

  method PushState(t: TransitionTable, maxErrors: nat, alphabet: seq<UniChar>, b: Tables, state: Positions, ghost sts: seq<Positions>, ghost id: nat, ghost n: nat)
    returns (b': Tables)
    requires Expanding(t, maxErrors, alphabet, b, sts, id, n)
    requires state !in b.visited && IsState(t, maxErrors, state)
    ensures Expanding(t, maxErrors, alphabet, b', sts + [state], id, n)
    ensures b'.visited == b.visited[state := |sts|]
  {
    hide IsErrorsMade, IsPrefixErrorsMade, Rows, RowUpTo, AcceptingUpTo, Indexed, StrictlySorted;
    AllIndexed(b.visited, sts);
    PushIndexed(b.visited, sts, state);
    PushRows(t, alphabet, sts, b.transitions, id, n, state);
    PushAccepting(t, sts, b.accepting, id + 1, state);
    var e := ErrorsMade(t, maxErrors, state);
    var p := PrefixErrorsMade(maxErrors, state);
    b' := Tables(b.queue + [state], b.visited[state := |b.visited|], b.transitions + [seq(|alphabet|, _ => 0)],
                 b.accepting + [false], b.errorsMade + [e], b.prefixErrorsMade + [p]);
  }

  lemma FirstStates(t: TransitionTable, maxErrors: nat)
    requires t.prefixSize <= |t.s|
    ensures IsState(t, maxErrors, Start(maxErrors)) && IsState(t, maxErrors, [])
    ensures t.AllFit(Start(maxErrors)) && t.AllFit([])
  {
  }

  method Initial(t: TransitionTable, maxErrors: nat, alphabet: seq<UniChar>) returns (b: Tables, ghost sts: seq<Positions>)
    requires t.prefixSize <= |t.s|
    ensures Built(t, maxErrors, alphabet, b, sts, 0)
  {
    hide IsErrorsMade, IsPrefixErrorsMade, IsState, ValidRow, Accepts;
    FirstStates(t, maxErrors);
    var start := Start(maxErrors);
    var e0 := ErrorsMade(t, maxErrors, start);
    var e1 := ErrorsMade(t, maxErrors, []);
    var p0 := PrefixErrorsMade(maxErrors, start);
    var p1 := PrefixErrorsMade(maxErrors, []);
    sts := [start, []];
    b := Tables([start, []], map[start := STARTING_STATE, [] := REJECTING_STATE],
                [seq(|alphabet|, _ => 0), seq(|alphabet|, _ => 0)], [false, false], [e0, e1], [p0, p1]);
  }

  // One transition of the state that is being expanded.
  method FollowLetter(t: TransitionTable, maxErrors: nat, alphabet: seq<UniChar>, b: Tables, curr: Positions,
                      ghost sts: seq<Positions>, id: nat, i: nat)
    returns (b': Tables, ghost sts': seq<Positions>)
    requires Expanding(t, maxErrors, alphabet, b, sts, id, i) && i < |alphabet| && curr == sts[id]
    ensures Expanding(t, maxErrors, alphabet, b', sts', id, i + 1)
    ensures sts <= sts'
  {
    hide IsErrorsMade, IsPrefixErrorsMade, ValidRow, TransitionTable.Next, Accepts, StrictlySorted;
    var next := new State();
    t.Move(curr, alphabet[i], next);
    NextIsState(t, maxErrors, curr, alphabet[i]);
    b', sts' := b, sts;
    var nid;
    if next.positions !in b.visited {
      AllIndexed(b.visited, sts);
      nid := |b.visited|;
      b' := PushState(t, maxErrors, alphabet, b, next.positions, sts, id, i);
      sts' := sts + [next.positions];
    } else {
      nid := b.visited[next.positions];
    }
    SetTransition(t, alphabet, sts', b'.transitions, id, i, nid);
    var row: seq<nat> := b'.transitions[id][i := nid];
    b' := b'.(transitions := b'.transitions[id := row]);
  }

  // Takes the next state off the queue and fills in its row.
  method Expand(t: TransitionTable, maxErrors: nat, alphabet: seq<UniChar>, b: Tables, ghost sts: seq<Positions>, ghost done: nat)
    returns (b': Tables, ghost sts': seq<Positions>)
    requires Built(t, maxErrors, alphabet, b, sts, done) && b.queue != []
    ensures Built(t, maxErrors, alphabet, b', sts', done + 1)
    ensures sts'[..done + 1] == sts[..done + 1]
  {
    hide Built, Expanding, Accepts;
    StartExpanding(t, maxErrors, alphabet, b, sts, done);
    var curr := b.queue[0];
    var id := b.visited[curr];
    b' := b.(queue := b.queue[1..], accepting := b.accepting[id := Accepts(t, curr)]);
    sts' := sts;
    for i := 0 to |alphabet|
      invariant Expanding(t, maxErrors, alphabet, b', sts', id, i)
      invariant sts <= sts'
    {
      b', sts' := FollowLetter(t, maxErrors, alphabet, b', curr, sts', id, i);
    }
    FinishExpanding(t, maxErrors, alphabet, b', sts', id);
  }

  // Breadth-first search; it ends because there are only finitely many states to expand.
  method Construct(t: TransitionTable, maxErrors: nat, alphabet: seq<UniChar>) returns (b: Tables, ghost sts: seq<Positions>)
    requires t.prefixSize <= |t.s|
    ensures Describes(t, maxErrors, alphabet, sts, b)
  {
    b, sts := Initial(t, maxErrors, alphabet);
    ghost var done := 0;
    ghost var todo := AllStates(|t.s|, maxErrors);
    AllPending(t, maxErrors);
    assert sts[..0] == [];
    while b.queue != []
      invariant Built(t, maxErrors, alphabet, b, sts, done)
      invariant Pending(t, maxErrors, sts[..done], todo)
      decreases todo
    {
      todo := TakeOne(t, maxErrors, alphabet, b, sts, done, todo);
      b, sts := Expand(t, maxErrors, alphabet, b, sts, done);
      done := done + 1;
    }
    Finished(t, maxErrors, alphabet, b, sts, done);
  }

  // ----- The automaton

  lemma KnownLetters(t: TransitionTable, alphabet: seq<UniChar>)
    requires t.prefixSize <= |t.s| && ValidAlphabet(t, alphabet)
    ensures |alphabet| > 0 && SortedChars(alphabet[..|alphabet| - 1])
  {
  }

  lemma NotInAlphabet(known: seq<UniChar>, c: UniChar, i: nat)
    requires SortedChars(known) && i <= |known| && (i < |known| ==> c < known[i])
    requires forall k :: 0 <= k < i ==> known[k] < c
    ensures c !in known
  {
    assert forall k :: i < k < |known| ==> known[i] < known[k];
  }

  lemma UnknownLetter(t: TransitionTable, ps: Positions, alphabet: seq<UniChar>, c: UniChar)
    requires t.prefixSize <= |t.s| && ValidAlphabet(t, alphabet) && t.AllFit(ps)
    requires c !in alphabet[..|alphabet| - 1]
    ensures t.Next(ps, c) == t.Next(ps, alphabet[|alphabet| - 1])
  {
    t.UnknownCharsAgree(ps, c, alphabet[|alphabet| - 1]);
  }

  lemma RowOf(t: TransitionTable, maxErrors: nat, alphabet: seq<UniChar>, sts: seq<Positions>, b: Tables, id: nat)
    requires t.prefixSize <= |t.s| && Describes(t, maxErrors, alphabet, sts, b) && id < |sts|
    ensures t.AllFit(sts[id]) && |b.transitions| == |sts| && |b.transitions[id]| == |alphabet|
    ensures forall i :: 0 <= i < |alphabet| ==>
              b.transitions[id][i] < |sts| && sts[b.transitions[id][i]] == t.Next(sts[id], alphabet[i])
  {
    assert ValidRow(t, alphabet, sts, b.transitions, id);
  }

  class LevenshteinDFA {
    const size: nat
    const maxErrors: nat
    const alphabet: seq<UniChar>
    const transitions: seq<seq<nat>>
    const accepting: seq<bool>
    const errorsMade: seq<int>
    const prefixErrorsMade: seq<int>

    ghost const table: TransitionTable
    // The state with each id.
    ghost const states: seq<Positions>

    ghost predicate Valid() {
      && table.prefixSize <= |table.s| == size
      && ValidAlphabet(table, alphabet)
      && Describes(table, maxErrors, alphabet, states, Tables([], map[], transitions, accepting, errorsMade, prefixErrorsMade))
    }

    constructor (s: seq<UniChar>, prefixSize: nat, prefixMisprints: seq<seq<UniChar>>, maxErrors: nat)
      requires prefixSize <= |s|
      ensures Valid()
      ensures table == TransitionTable(s, prefixMisprints, prefixSize) && this.maxErrors == maxErrors
    {
      var t := TransitionTable(s, prefixMisprints, prefixSize);
      var alpha := MakeAlphabet(t);
      var b, sts := Construct(t, maxErrors, alpha);
      size, this.maxErrors, alphabet := |s|, maxErrors, alpha;
      transitions, accepting := b.transitions, b.accepting;
      errorsMade, prefixErrorsMade := b.errorsMade, b.prefixErrorsMade;
      table, states := t, sts;
    }

    // The transition on any character at all: one that the alphabet lacks goes by its last letter.
    method Move(s: nat, c: UniChar) returns (r: nat)
      requires Valid() && s < |states|
      ensures r < |states| && table.AllFit(states[s]) && states[r] == table.Next(states[s], c)
    {
      hide Describes, ValidAlphabet, SortedChars, TransitionTable.Next, TransitionTable.AllFit;
      KnownLetters(table, alphabet);
      var known := alphabet[..|alphabet| - 1];
      var i := LowerBound(known, c);
      RowOf(table, maxErrors, alphabet, states, Tables([], map[], transitions, accepting, errorsMade, prefixErrorsMade), s);
      if i == |known| || known[i] != c {
        NotInAlphabet(known, c, i);
        i := |alphabet| - 1;
        UnknownLetter(table, states[s], alphabet, c);
      }
      r := transitions[s][i];
    }
  }

  // An iterator to the current state in the automaton.
  class Iterator {
    const dfa: LevenshteinDFA
    var s: nat
    ghost var word: seq<UniChar>  // what has been read so far

    ghost predicate Valid()
      reads this
    {
      dfa.Valid() && s < |dfa.states| && dfa.states[s] == Run(dfa.table, dfa.maxErrors, word)
    }

    constructor (dfa: LevenshteinDFA)
      requires dfa.Valid()
      ensures Valid() && this.dfa == dfa && word == []
    {
      this.dfa, s, word := dfa, STARTING_STATE, [];
    }

    constructor Copy(it: Iterator)
      requires it.Valid()
      ensures Valid() && dfa == it.dfa && word == it.word && s == it.s
    {
      dfa, s, word := it.dfa, it.s, it.word;
    }

    method Move(c: UniChar)
      requires Valid()
      modifies this
      ensures Valid() && word == old(word) + [c]
      ensures PrefixErrorsMade() >= old(PrefixErrorsMade())
      ensures old(Rejects()) ==> Rejects()
    {
      ghost var s' := s;
      s := dfa.Move(s, c);
      word := word + [c];
      assert word[..|word| - 1] == old(word);
      PrefixErrorsNeverDecrease(dfa.table, dfa.maxErrors, dfa.states[s'], c,
                                dfa.prefixErrorsMade[s'], dfa.prefixErrorsMade[s]);
      EmptyIsASink(dfa.table, c);
    }

    // With a restricted prefix of one character at most, or one error at most, the words accepted are
    // those within maxErrors of the pattern.
    predicate Accepts()
      requires Valid()
      reads this
      ensures Accepts() <==> LevenshteinLanguage.Accepts(dfa.table, Run(dfa.table, dfa.maxErrors, word))
      ensures dfa.table.prefixSize == 0 ==> (Accepts() <==> Osa.Dist(dfa.table.s, word) <= dfa.maxErrors)
      ensures dfa.table.prefixSize <= 1 || dfa.maxErrors <= 1 ==> (Accepts() <==> PrefixDist(dfa.table, 0, word) <= dfa.maxErrors)
    {
      RunReport(dfa.table, dfa.maxErrors, word, dfa.errorsMade[s]);
      dfa.accepting[s]
    }

    // From a rejecting state no continuation is ever accepted.
    predicate Rejects()
      requires Valid()
      reads this
      ensures Rejects() <==> Run(dfa.table, dfa.maxErrors, word) == []
      ensures dfa.table.prefixSize <= 1 || dfa.maxErrors <= 1 ==>
                (Rejects() <==> forall u :: PrefixDist(dfa.table, 0, word + u) > dfa.maxErrors)
    {
      assert dfa.table.prefixSize <= 1 || dfa.maxErrors <= 1 ==>
          (Run(dfa.table, dfa.maxErrors, word) == [] <==> forall u :: PrefixDist(dfa.table, 0, word + u) > dfa.maxErrors) by {
        if dfa.table.prefixSize <= 1 || dfa.maxErrors <= 1 {
          RejectsIff(dfa.table, dfa.maxErrors, word);
        }
      }
      s == REJECTING_STATE
    }

    function ErrorsMade(): (n: int)
      requires Valid()
      reads this
      ensures IsErrorsMade(dfa.table, dfa.maxErrors, Run(dfa.table, dfa.maxErrors, word), n)
      ensures !Accepts() ==> n == dfa.maxErrors
      ensures dfa.table.prefixSize == 0 ==> n == Report(dfa.table.s, dfa.maxErrors, word)
      ensures dfa.table.prefixSize <= 1 || dfa.maxErrors <= 1 ==> n == PrefixReport(dfa.table, dfa.maxErrors, word)
    {
      RunReport(dfa.table, dfa.maxErrors, word, dfa.errorsMade[s]);
      dfa.errorsMade[s]
    }

    function PrefixErrorsMade(): (n: int)
      requires Valid()
      reads this
      ensures IsPrefixErrorsMade(dfa.maxErrors, Run(dfa.table, dfa.maxErrors, word), n)
      ensures dfa.table.prefixSize <= 1 || dfa.maxErrors <= 1 ==>
                && (n == dfa.maxErrors || exists u :: PrefixDist(dfa.table, 0, word + u) == n)
                && forall u :: PrefixDist(dfa.table, 0, word + u) >= n
    {
      assert dfa.table.prefixSize <= 1 || dfa.maxErrors <= 1 ==>
          && (dfa.prefixErrorsMade[s] == dfa.maxErrors || exists u :: PrefixDist(dfa.table, 0, word + u) == dfa.prefixErrorsMade[s])
          && forall u :: PrefixDist(dfa.table, 0, word + u) >= dfa.prefixErrorsMade[s] by {
        if dfa.table.prefixSize <= 1 || dfa.maxErrors <= 1 {
          PrefixErrorsMean(dfa.table, dfa.maxErrors, word, dfa.prefixErrorsMade[s]);
        }
      }
      dfa.prefixErrorsMade[s]
    }
  }
}
