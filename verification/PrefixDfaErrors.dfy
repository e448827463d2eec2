/**
 How far the number of errors reported by PrefixDFAModifier can be trusted.  The comment in its Move
 says that the number of errors cannot decrease once it has increased.  That holds for very short
 patterns and small limits only, and so does what the comment argues for: that passing over the
 characters which raise the number leaves the least number of any prefix.
 */
module PrefixDfaErrors {
  import opened EditScripts
  import opened LevenshteinDfa
  import opened PrefixDfa
  import opened Osa

  // The number of errors reported for the first k characters of w.
  ghost function ReportAt(s: seq<UniChar>, maxErrors: nat, w: seq<UniChar>, k: nat): nat
    requires k <= |w|
  {
    Report(s, maxErrors, w[..k])
  }

  // ----- Which characters are passed over

  // No character of w raises the reported number of errors once some prefix is close enough.
  ghost predicate NeverRaised(s: seq<UniChar>, maxErrors: nat, w: seq<UniChar>) {
    forall k :: 0 <= k < |w| && PrefixClose(s, maxErrors, w[..k]) ==>
                  ReportAt(s, maxErrors, w, k + 1) <= ReportAt(s, maxErrors, w, k)
  }

  // The modifier has moved on every character exactly when that is so.
  lemma {:induction false} KeepsAllIff(s: seq<UniChar>, maxErrors: nat, w: seq<UniChar>)
    ensures Kept(s, maxErrors, w) == w <==> NeverRaised(s, maxErrors, w)
  {
    if w != [] {
      var w', c := w[..|w| - 1], w[|w| - 1];
      assert w' + [c] == w;
      KeepsAllIff(s, maxErrors, w');
      PushNeverRaised(s, maxErrors, w', c);
      KeptLength(s, maxErrors, w');
    }
  }

  lemma PushNeverRaised(s: seq<UniChar>, maxErrors: nat, w: seq<UniChar>, c: UniChar)
    ensures NeverRaised(s, maxErrors, w + [c]) <==>
            NeverRaised(s, maxErrors, w)
            && (PrefixClose(s, maxErrors, w) ==> Report(s, maxErrors, w + [c]) <= Report(s, maxErrors, w))
  {
    hide Report, PrefixClose;
    var wc := w + [c];
    assert wc[..|wc|] == wc && wc[..|w|] == w;
    SameReports(s, maxErrors, w, c);
    if NeverRaised(s, maxErrors, wc) {
      assert PrefixClose(s, maxErrors, wc[..|w|]) ==>
          ReportAt(s, maxErrors, wc, |w| + 1) <= ReportAt(s, maxErrors, wc, |w|);
      forall k | 0 <= k < |w| && PrefixClose(s, maxErrors, w[..k])
        ensures ReportAt(s, maxErrors, w, k + 1) <= ReportAt(s, maxErrors, w, k)
      {
        assert PrefixClose(s, maxErrors, wc[..k]);
      }
    }
  }

  lemma SameReports(s: seq<UniChar>, maxErrors: nat, w: seq<UniChar>, c: UniChar)
    ensures forall k :: 0 <= k <= |w| ==>
                (w + [c])[..k] == w[..k] && ReportAt(s, maxErrors, w + [c], k) == ReportAt(s, maxErrors, w, k)
  {
    forall k | 0 <= k <= |w|
      ensures (w + [c])[..k] == w[..k] && ReportAt(s, maxErrors, w + [c], k) == ReportAt(s, maxErrors, w, k)
    {
      assert (w + [c])[..k] == w[..k];
    }
  }

  lemma {:induction false} KeptLength(s: seq<UniChar>, maxErrors: nat, w: seq<UniChar>)
    ensures |Kept(s, maxErrors, w)| <= |w|
    ensures |Kept(s, maxErrors, w)| == |w| ==> Kept(s, maxErrors, w) == w
  {
    if w != [] {
      KeptLength(s, maxErrors, w[..|w| - 1]);
    }
  }

  // ----- The least number of errors

  // n is the least number reported for the prefixes of w from the first close one on.
  ghost predicate IsLeastReport(n: nat, s: seq<UniChar>, maxErrors: nat, w: seq<UniChar>) {
    && (exists k :: 0 <= k <= |w| && PrefixClose(s, maxErrors, w[..k]) && ReportAt(s, maxErrors, w, k) == n)
    && (forall k :: 0 <= k <= |w| && PrefixClose(s, maxErrors, w[..k]) ==> n <= ReportAt(s, maxErrors, w, k))
  }

  // What is reported for w after its first close prefix is the least number from there on.
  ghost predicate ReportsLeast(s: seq<UniChar>, maxErrors: nat, w: seq<UniChar>) {
    PrefixClose(s, maxErrors, w) ==> IsLeastReport(Report(s, maxErrors, Kept(s, maxErrors, w)), s, maxErrors, w)
  }

  // No continuation of w is reported with less than n errors.
  ghost predicate StaysAbove(s: seq<UniChar>, maxErrors: nat, w: seq<UniChar>, n: nat) {
    forall v :: Report(s, maxErrors, w + v) >= n
  }

  lemma StaysAboveMore(s: seq<UniChar>, maxErrors: nat, w: seq<UniChar>, c: UniChar, n: nat)
    requires StaysAbove(s, maxErrors, w, n)
    ensures StaysAbove(s, maxErrors, w + [c], n) && Report(s, maxErrors, w + [c]) >= n
  {
    forall v
      ensures Report(s, maxErrors, w + [c] + v) >= n
    {
      assert w + [c] + v == w + ([c] + v);
    }
    assert w + [c] == w + [c] + [];
  }

  // One error: a word that can still become the pattern is not further away with any character more.
  lemma RaisedFromOne(s: seq<UniChar>, u: seq<UniChar>, c: UniChar, v: seq<UniChar>)
    requires Dist(s, u) == 1 && Dist(s, u + [c]) >= 2
    ensures s != u + v
  {
    hide Dist;
    if s == u + v {
      assert u + [] == u;
      DistBehind(u, v, []);
      DistBehind(u, v, [c]);
      EmptyDist(v);
      DistBounds(v, [c]);
    }
  }

  // Two errors, for a pattern of at most two characters: all later words are as far away.
  lemma RaisedFromTwo(s: seq<UniChar>, u: seq<UniChar>, c: UniChar, v: seq<UniChar>)
    requires |s| <= 2 && Dist(s, u) == 2 && Dist(s, u + [c]) >= 3
    ensures Dist(s, u + v) >= 2
  {
    hide Dist;
    DistBounds(s, u + [c]);
    DistBounds(s, u + v);
    assert v == [] ==> u + v == u;
    if Dist(s, u + v) < 2 {
      assert u == [u[0], u[1]] && v == [v[0]] && s == [s[0], s[1]];
      assert u + v == [u[0], u[1], v[0]] && u + [c] == [u[0], u[1], c];
      OneMatch(s[0], s[1], u[0], u[1], v[0], c);
    }
  }

  // A word of three characters that is one insertion away has one at most two away with any last character.
  lemma OneMatch(x: UniChar, y: UniChar, a: UniChar, b: UniChar, d: UniChar, c: UniChar)
    requires Dist([x, y], [a, b, d]) < 2
    ensures Dist([x, y], [a, b, c]) <= 2
  {
    hide Dist;
    var s := [x, y];
    assert s[1..] == [y] && s[2..] == [];
    assert [a, b, d][1..] == [b, d] && [a, b, d][2..] == [d];
    assert [a, b, c][1..] == [b, c] && [b, c][1..] == [c];
    if a != x && b != x {
      AtLeastTwo(s, [a, b, d]);
    }
    DistBounds([y], [b, c]);
    DistBounds([y], [c]);
    NoOptionIsLess(s, [a, b, c]);
    NoOptionIsLess(s, [b, c]);
  }

  // Where the number would rise, it can never fall below what it was.
  lemma RaisedIsFinal(s: seq<UniChar>, maxErrors: nat, u: seq<UniChar>, c: UniChar)
    requires |s| <= 2 || maxErrors <= 2
    requires Report(s, maxErrors, u) <= 2 && Report(s, maxErrors, u + [c]) > Report(s, maxErrors, u)
    ensures StaysAbove(s, maxErrors, u, Report(s, maxErrors, u))
  {
    hide Dist;
    var r := Report(s, maxErrors, u);
    forall v
      ensures Report(s, maxErrors, u + v) >= r
    {
      if r == 1 {
        RaisedFromOne(s, u, c, v);
        Differ(s, u + v);
      } else if r == 2 {
        RaisedFromTwo(s, u, c, v);
      }
    }
  }

  // After w: nothing was passed over yet, or neither the kept characters nor the word can get any better.
  ghost predicate IsTrusted(s: seq<UniChar>, maxErrors: nat, w: seq<UniChar>) {
    PrefixClose(s, maxErrors, w) ==>
      var kept := Kept(s, maxErrors, w);
      var n := Report(s, maxErrors, kept);
      && n <= 2 && IsLeastReport(n, s, maxErrors, w)
      && (kept == w || (StaysAbove(s, maxErrors, kept, n) && StaysAbove(s, maxErrors, w, n)))
  }

  lemma {:induction false} AlwaysTrusted(s: seq<UniChar>, maxErrors: nat, w: seq<UniChar>)
    requires |s| <= 2 || maxErrors <= 2
    ensures IsTrusted(s, maxErrors, w)
  {
    hide Dist, Kept, PrefixClose, StaysAbove, IsLeastReport;
    if w == [] {
      TrustedAtFirst(s, maxErrors, []);
      assert Kept(s, maxErrors, []) == [] by {
        KeptLength(s, maxErrors, []);
      }
    } else {
      var w', c := w[..|w| - 1], w[|w| - 1];
      assert w' + [c] == w;
      AlwaysTrusted(s, maxErrors, w');
      PushKept(s, maxErrors, w', c);
      if PrefixClose(s, maxErrors, w') {
        TrustedNext(s, maxErrors, w', c);
      } else {
        PlainKeptBefore(s, maxErrors, w');
        TrustedAtFirst(s, maxErrors, w);
      }
    }
  }

  // The first close prefix is the whole word.
  lemma TrustedAtFirst(s: seq<UniChar>, maxErrors: nat, w: seq<UniChar>)
    requires |s| <= 2 || maxErrors <= 2
    requires w != [] ==> !PrefixClose(s, maxErrors, w[..|w| - 1])
    ensures PrefixClose(s, maxErrors, w) ==>
              Report(s, maxErrors, w) <= 2 && IsLeastReport(Report(s, maxErrors, w), s, maxErrors, w)
  {
    hide Dist;
    if PrefixClose(s, maxErrors, w) {
      assert w[..|w|] == w;
      forall k | 0 <= k < |w|
        ensures !PrefixClose(s, maxErrors, w[..k])
      {
        var front := w[..|w| - 1];
        assert w[..k] == front[..k];
        if PrefixClose(s, maxErrors, front[..k]) {
          ClosePrefix(s, maxErrors, front, k);
        }
      }
      if maxErrors > 2 {
        if w == [] {
          EmptyDist(s);
        } else {
          StartIsClose(s, maxErrors, w[..|w| - 1]);
        }
      }
    }
  }

  lemma ClosePrefix(s: seq<UniChar>, maxErrors: nat, w: seq<UniChar>, k: nat)
    requires k <= |w| && PrefixClose(s, maxErrors, w[..k])
    ensures PrefixClose(s, maxErrors, w)
  {
    var j :| 0 <= j <= k && Dist(s, w[..k][..j]) <= maxErrors;
    assert w[..k][..j] == w[..j];
  }

  // One character more, passed over or kept.
  lemma TrustedNext(s: seq<UniChar>, maxErrors: nat, w: seq<UniChar>, c: UniChar)
    requires |s| <= 2 || maxErrors <= 2
    requires PrefixClose(s, maxErrors, w) && IsTrusted(s, maxErrors, w)
    ensures IsTrusted(s, maxErrors, w + [c])
  {
    hide Dist, Kept, PrefixClose, StaysAbove, IsLeastReport;
    var kept := Kept(s, maxErrors, w);
    var n, more := Report(s, maxErrors, kept), Report(s, maxErrors, kept + [c]);
    PushKept(s, maxErrors, w, c);
    PushLeast(s, maxErrors, w, c, n);
    if kept == w {
      if more > n {
        RaisedIsFinal(s, maxErrors, w, c);
        StaysAboveMore(s, maxErrors, w, c, n);
      }
    } else {
      StaysAboveMore(s, maxErrors, kept, c, n);
      StaysAboveMore(s, maxErrors, w, c, n);
    }
  }

  lemma PushLeast(s: seq<UniChar>, maxErrors: nat, w: seq<UniChar>, c: UniChar, n: nat)
    requires PrefixClose(s, maxErrors, w) && IsLeastReport(n, s, maxErrors, w)
    ensures IsLeastReport(if Report(s, maxErrors, w + [c]) < n then Report(s, maxErrors, w + [c]) else n, s, maxErrors, w + [c])
  {
    hide Report;
    var wc := w + [c];
    assert wc[..|wc|] == wc && wc[..|w|] == w;
    ClosePrefix(s, maxErrors, wc, |w|);
    SameReports(s, maxErrors, w, c);
    assert ReportAt(s, maxErrors, wc, |wc|) == Report(s, maxErrors, wc);
    var k :| 0 <= k <= |w| && PrefixClose(s, maxErrors, w[..k]) && ReportAt(s, maxErrors, w, k) == n;
    assert PrefixClose(s, maxErrors, wc[..k]) && ReportAt(s, maxErrors, wc, k) == n;
  }

  // ----- Distances of a few short words

  // Distances above n from distances of at least n between what one edit leaves.
  lemma OneEditMore(s: seq<UniChar>, w: seq<UniChar>, n: nat)
    requires s != [] && w != [] && s[0] != w[0]
    requires Dist(s[1..], w) >= n && Dist(s, w[1..]) >= n && Dist(s[1..], w[1..]) >= n
    requires SwapsAtFront(s, w) ==> Dist(s[2..], w[2..]) >= n
    ensures Dist(s, w) > n
  {
  }

  lemma AtLeastTwo(s: seq<UniChar>, w: seq<UniChar>)
    requires s != [] && w != [] && s[0] != w[0]
    requires s[1..] != w && s != w[1..] && s[1..] != w[1..]
    requires SwapsAtFront(s, w) ==> s[2..] != w[2..]
    ensures Dist(s, w) >= 2
  {
    Differ(s[1..], w);
    Differ(s, w[1..]);
    Differ(s[1..], w[1..]);
    if SwapsAtFront(s, w) {
      Differ(s[2..], w[2..]);
    }
    OneEditMore(s, w, 1);
  }

  lemma Differ(s: seq<UniChar>, w: seq<UniChar>)
    requires s != w
    ensures Dist(s, w) >= 1
  {
    if Dist(s, w) == 0 {
      ZeroDistIsEqual(s, w);
    }
  }

  lemma StartIsClose(s: seq<UniChar>, maxErrors: nat, w: seq<UniChar>)
    requires |s| <= maxErrors
    ensures PrefixClose(s, maxErrors, w)
  {
    assert w[..0] == [];
  }

  lemma PrefixDistances(a: UniChar, b: UniChar, c: UniChar)
    requires a != b && b != c && a != c
    ensures var s := [a, a, b];
            && Dist(s, []) == 3 && Dist(s, [b]) == 2 && Dist(s, [b, c]) > 2
            && Dist(s, [b, c, a]) >= 2 && Dist(s, [b, c, a, b]) >= 2
  {
    var s := [a, a, b];
    assert s[1..] == [a, b] && s[2..] == [b] && [a, b][1..] == [b];
    assert [b][1..] == [] && [c][1..] == [] && [b, c][1..] == [c];
    assert [b, c, a][1..] == [c, a] && [b, c, a, b][1..] == [c, a, b];
    DistOfEqual([b]);
    AtLeastTwo(s, [b]);
    AtLeastTwo([a, b], [b, c]);
    AtLeastTwo(s, [c]);
    AtLeastTwo([a, b], [c]);
    OneEditMore(s, [b, c], 2);
    AtLeastTwo(s, [b, c, a]);
    AtLeastTwo(s, [b, c, a, b]);
  }

  lemma KeptDistances(a: UniChar, b: UniChar, c: UniChar)
    requires a != b && b != c && a != c
    ensures Dist([a, a, b], [b, a]) <= 2 && Dist([a, a, b], [b, a, b]) == 1
  {
    var s := [a, a, b];
    assert s[1..] == [a, b] && [a, b][2..] == [] && [b, a][2..] == [] && [b, a, b][1..] == [a, b];
    assert SwapsAtFront([a, b], [b, a]);
    assert Dist([a, b], [b, a]) <= 1;
    DistOfEqual([a, b]);
    Differ(s, [b, a, b]);
  }

  lemma AbaDistances(a: UniChar, b: UniChar)
    requires a != b
    ensures Dist([a, b, a], [b, a]) == 1
    ensures Dist([a, b, a], [b, a, b]) >= 2
    ensures Dist([a, b, a], [b, a, b, a]) == 1
  {
    var s := [a, b, a];
    assert s[1..] == [b, a] && s[2..] == [a];
    DistOfEqual([b, a]);
    Differ(s, [b, a]);
    assert [b, a, b][1..] == [a, b] && [b, a, b][2..] == [b];
    AtLeastTwo(s, [b, a, b]);
    assert [b, a, b, a][1..] == s;
    DistOfEqual(s);
    Differ(s, [b, a, b, a]);
  }

  lemma AbDistances(a: UniChar, b: UniChar, c: UniChar)
    requires a != b && b != c && a != c
    ensures Dist([a, b], [b, c]) <= 2 && Dist([a, b], [b, c, a]) == 3 && Dist([a, b], [b, c, a, b]) == 2
  {
    hide Dist;
    var s := [a, b];
    DistBounds(s, [b, c]);
    AbToBca(a, b, c);
    assert [b, c, a, b][1..] == [c, a, b] && [c, a, b][1..] == s;
    DistOfEqual(s);
    NoOptionIsLess(s, [b, c, a, b]);
    NoOptionIsLess(s, [c, a, b]);
    DistBounds(s, [b, c, a, b]);
  }

  // ----- Longer patterns that begin with some padding

  // While the word begins like the pattern, what is missing must be inserted.
  lemma DistOfBeginning(pad: seq<UniChar>, s: seq<UniChar>, k: nat)
    requires k <= |pad|
    ensures Dist(pad + s, pad[..k]) == |pad| - k + |s|
  {
    assert pad + s == pad[..k] + (pad[k..] + s) && pad[..k] + [] == pad[..k];
    DistBehind(pad[..k], pad[k..] + s, []);
    EmptyDist(pad[k..] + s);
  }

  lemma ReportBehind(pad: seq<UniChar>, s: seq<UniChar>, maxErrors: nat, w: seq<UniChar>, k: nat)
    requires k <= |w|
    ensures ReportAt(pad + s, maxErrors, pad + w, |pad| + k) == ReportAt(s, maxErrors, w, k)
  {
    assert (pad + w)[..|pad| + k] == pad + w[..k];
    DistBehind(pad, s, w[..k]);
  }

  lemma CloseBehind(pad: seq<UniChar>, s: seq<UniChar>, maxErrors: nat, w: seq<UniChar>)
    requires |s| <= maxErrors
    ensures PrefixClose(pad + s, maxErrors, pad + w)
  {
    assert (pad + w)[..|pad|] == pad == pad[..|pad|];
    DistOfBeginning(pad, s, |pad|);
  }

  lemma PaddingIsKept(pad: seq<UniChar>, s: seq<UniChar>, maxErrors: nat)
    ensures Kept(pad + s, maxErrors, pad) == pad
  {
    forall k | 0 <= k < |pad|
      ensures ReportAt(pad + s, maxErrors, pad, k + 1) <= ReportAt(pad + s, maxErrors, pad, k)
    {
      DistOfBeginning(pad, s, k);
      DistOfBeginning(pad, s, k + 1);
    }
    KeepsAllIff(pad + s, maxErrors, pad);
  }

  lemma {:induction false} KeptBehind(pad: seq<UniChar>, s: seq<UniChar>, maxErrors: nat, w: seq<UniChar>)
    requires |s| <= maxErrors
    ensures Kept(pad + s, maxErrors, pad + w) == pad + Kept(s, maxErrors, w)
    decreases |w|
  {
    hide Dist, Kept, PrefixClose;
    if w == [] {
      PaddingIsKept(pad, s, maxErrors);
      KeptLength(s, maxErrors, []);
      assert pad + [] == pad;
    } else {
      var w', c := w[..|w| - 1], w[|w| - 1];
      var kept := Kept(s, maxErrors, w');
      assert w == w' + [c] && pad + w == pad + w' + [c];
      KeptBehind(pad, s, maxErrors, w');
      CloseBehind(pad, s, maxErrors, w');
      StartIsClose(s, maxErrors, w');
      PushKept(s, maxErrors, w', c);
      PushKept(pad + s, maxErrors, pad + w', c);
      DistBehind(pad, s, kept);
      assert pad + kept + [c] == pad + (kept + [c]);
      DistBehind(pad, s, kept + [c]);
    }
  }

  lemma StepKept(s: seq<UniChar>, maxErrors: nat, w: seq<UniChar>, c: UniChar, kept: seq<UniChar>)
    requires |s| <= maxErrors && Kept(s, maxErrors, w) == kept
    ensures Kept(s, maxErrors, w + [c]) ==
            if Report(s, maxErrors, kept + [c]) > Report(s, maxErrors, kept) then kept else kept + [c]
  {
    StartIsClose(s, maxErrors, w);
    PushKept(s, maxErrors, w, c);
  }

  lemma KeptIsBab(a: UniChar, b: UniChar, c: UniChar, maxErrors: nat)
    requires a != b && b != c && a != c && maxErrors >= 3
    ensures Kept([a, a, b], maxErrors, [b, c, a, b]) == [b, a, b]
  {
    hide Dist, PrefixClose;
    var s := [a, a, b];
    PrefixDistances(a, b, c);
    KeptDistances(a, b, c);
    assert [b] + [a] == [b, a] && [b] + [c] == [b, c] && [b, c] + [a] == [b, c, a];
    assert [b, c, a] + [b] == [b, c, a, b] && [b, a] + [b] == [b, a, b] && [] + [b] == [b];
    KeptLength(s, maxErrors, []);
    Differ(s, [b, a]);
    StepKept(s, maxErrors, [], b, []);
    StepKept(s, maxErrors, [b], c, [b]);
    StepKept(s, maxErrors, [b, c], a, [b]);
    StepKept(s, maxErrors, [b, c, a], b, [b, a]);
  }

  // For a pattern that ends in "aab", three or more errors and the word that ends in "bcab" instead,
  // the modifier passes over 'c' and reports one error, although every prefix has two or more.
  lemma ReportsTooFew(pad: seq<UniChar>, a: UniChar, b: UniChar, c: UniChar, maxErrors: nat)
    requires a != b && b != c && a != c && maxErrors >= 3
    ensures var s, w := pad + [a, a, b], pad + [b, c, a, b];
            && PrefixClose(s, maxErrors, w)
            && Report(s, maxErrors, Kept(s, maxErrors, w)) == 1
            && forall k :: 0 <= k <= |w| ==> ReportAt(s, maxErrors, w, k) >= 2
  {
    hide Dist, Kept, PrefixClose;
    var s, w := [a, a, b], [b, c, a, b];
    CloseBehind(pad, s, maxErrors, w);
    KeptBehind(pad, s, maxErrors, w);
    KeptIsBab(a, b, c, maxErrors);
    KeptDistances(a, b, c);
    DistBehind(pad, s, [b, a, b]);
    PrefixDistances(a, b, c);
    assert w[..0] == [] && w[..1] == [b] && w[..2] == [b, c] && w[..3] == [b, c, a] && w[..4] == w;
    forall k | 0 <= k <= |pad + w|
      ensures ReportAt(pad + s, maxErrors, pad + w, k) >= 2
    {
      if k <= |pad| {
        assert (pad + w)[..k] == pad[..k];
        DistOfBeginning(pad, s, k);
      } else {
        ReportBehind(pad, s, maxErrors, w, k - |pad|);
      }
    }
  }

  // The least number is reported for all words exactly when the pattern or the limit is as small as two.
  lemma ReportsLeastIff(n: nat, maxErrors: nat)
    ensures (forall s, w :: |s| == n ==> ReportsLeast(s, maxErrors, w)) <==> n <= 2 || maxErrors <= 2
  {
    hide Kept, PrefixClose, IsLeastReport, ReportAt;
    if n <= 2 || maxErrors <= 2 {
      forall s: seq<UniChar>, w | |s| == n
        ensures ReportsLeast(s, maxErrors, w)
      {
        AlwaysTrusted(s, maxErrors, w);
      }
    } else {
      var pad := seq(n - 3, _ => 0);
      var s, w := pad + [1, 1, 2], pad + [2, 3, 1, 2];
      ReportsTooFew(pad, 1, 2, 3, maxErrors);
      NotTheLeast(1, s, maxErrors, w);
      assert |s| == n && !ReportsLeast(s, maxErrors, w);
    }
  }

  lemma NotTheLeast(n: nat, s: seq<UniChar>, maxErrors: nat, w: seq<UniChar>)
    requires forall k :: 0 <= k <= |w| ==> ReportAt(s, maxErrors, w, k) > n
    ensures !IsLeastReport(n, s, maxErrors, w)
  {
  }

  // ----- The comment itself

  // Once the number has risen from one prefix to the next, it does not fall any more.
  ghost predicate RisesForGood(s: seq<UniChar>, maxErrors: nat, w: seq<UniChar>) {
    forall i, j :: 0 <= i < j < |w| && ReportAt(s, maxErrors, w, i) < ReportAt(s, maxErrors, w, i + 1) ==>
                     ReportAt(s, maxErrors, w, j) <= ReportAt(s, maxErrors, w, j + 1)
  }

  lemma NeverFalls(s: seq<UniChar>, maxErrors: nat, w: seq<UniChar>, i: nat, j: nat)
    requires |s| <= 1 || maxErrors <= 1 || (|s| == 2 && maxErrors == 2)
    requires i < j < |w| && ReportAt(s, maxErrors, w, i) < ReportAt(s, maxErrors, w, i + 1)
    ensures ReportAt(s, maxErrors, w, j) <= ReportAt(s, maxErrors, w, j + 1)
  {
    hide Dist;
    DistBounds(s, w[..i]);
    DistBounds(s, w[..j]);
    DistBounds(s, w[..j + 1]);
    if maxErrors <= 1 {
      if Dist(s, w[..i]) == 0 {
        ZeroDistIsEqual(s, w[..i]);
      }
    } else if |s| == 2 && i == 1 && j == 2 {
      assert w[..1] == [w[0]] && w[..2] == [w[0], w[1]] && w[..3] == [w[0], w[1], w[2]] && s == [s[0], s[1]];
      if Dist(s, w[..1]) < 2 && Dist(s, w[..3]) < 2 {
        StaysWithinOne(s[0], s[1], w[0], w[1], w[2]);
      }
    }
  }

  lemma StaysWithinOne(x: UniChar, y: UniChar, a: UniChar, b: UniChar, d: UniChar)
    requires Dist([x, y], [a]) < 2 && Dist([x, y], [a, b, d]) < 2
    ensures Dist([x, y], [a, b]) < 2
  {
    hide Dist;
    var s := [x, y];
    assert s[1..] == [y] && s[2..] == [] && [a][1..] == [] && [a, b][1..] == [b] && [a, b][2..] == [];
    assert [a, b, d][1..] == [b, d] && [a, b, d][2..] == [d];
    if a == x {
      DistBounds([y], [b]);
      NoOptionIsLess(s, [a, b]);
    } else {
      if a != y {
        AtLeastTwo(s, [a]);
      }
      if b != x {
        AtLeastTwo(s, [a, b, d]);
      }
      SwapIsOne(x, y);
    }
  }

  lemma SwapIsOne(x: UniChar, y: UniChar)
    ensures Dist([x, y], [y, x]) <= 1
  {
    assert SwapsAtFront([x, y], [y, x]) && [x, y][2..] == [] && [y, x][2..] == [];
  }

  // For a pattern that ends in "aba" the prefixes of "baba" have 1, 2 and 1 errors in the end; for one
  // that ends in "ab" those of "bcab" have 2, 3 and 2.
  lemma FallsAgain(pad: seq<UniChar>, a: UniChar, b: UniChar, c: UniChar, maxErrors: nat)
    requires a != b && b != c && a != c
    ensures maxErrors >= 2 ==> !RisesForGood(pad + [a, b, a], maxErrors, pad + [b, a, b, a])
    ensures maxErrors >= 3 ==> !RisesForGood(pad + [a, b], maxErrors, pad + [b, c, a, b])
  {
    hide Dist, ReportAt;
    AbaDistances(a, b);
    AbDistances(a, b, c);
    var w := [b, a, b, a];
    assert w[..2] == [b, a] && w[..3] == [b, a, b] && w[..4] == w;
    if maxErrors >= 2 {
      FallsBehind(pad, [a, b, a], maxErrors, w);
    }
    w := [b, c, a, b];
    assert w[..2] == [b, c] && w[..3] == [b, c, a] && w[..4] == w;
    if maxErrors >= 3 {
      FallsBehind(pad, [a, b], maxErrors, w);
    }
  }

  lemma FallsBehind(pad: seq<UniChar>, s: seq<UniChar>, maxErrors: nat, w: seq<UniChar>)
    requires |w| == 4
    requires Report(s, maxErrors, w[..2]) < Report(s, maxErrors, w[..3])
    requires Report(s, maxErrors, w[..4]) < Report(s, maxErrors, w[..3])
    ensures !RisesForGood(pad + s, maxErrors, pad + w)
  {
    hide Report;
    var i, j := |pad| + 2, |pad| + 3;
    ReportBehind(pad, s, maxErrors, w, 2);
    ReportBehind(pad, s, maxErrors, w, 3);
    ReportBehind(pad, s, maxErrors, w, 4);
    assert ReportAt(pad + s, maxErrors, pad + w, i) < ReportAt(pad + s, maxErrors, pad + w, i + 1);
    assert ReportAt(pad + s, maxErrors, pad + w, j) > ReportAt(pad + s, maxErrors, pad + w, j + 1);
  }

  // The comment is right for all words exactly when the pattern or the limit is at most one, or both are two.
  lemma RisesForGoodIff(n: nat, maxErrors: nat)
    ensures (forall s, w :: |s| == n ==> RisesForGood(s, maxErrors, w)) <==>
            n <= 1 || maxErrors <= 1 || (n == 2 && maxErrors == 2)
  {
    hide ReportAt;
    if n <= 1 || maxErrors <= 1 || (n == 2 && maxErrors == 2) {
      forall s: seq<UniChar>, w | |s| == n
        ensures RisesForGood(s, maxErrors, w)
      {
        forall i, j | 0 <= i < j < |w| && ReportAt(s, maxErrors, w, i) < ReportAt(s, maxErrors, w, i + 1)
          ensures ReportAt(s, maxErrors, w, j) <= ReportAt(s, maxErrors, w, j + 1)
        {
          NeverFalls(s, maxErrors, w, i, j);
        }
      }
    } else if n >= 3 {
      var pad := seq(n - 3, _ => 0);
      FallsAgain(pad, 1, 2, 3, maxErrors);
      assert |pad + [1, 2, 1]| == n;
    } else {
      FallsAgain([], 1, 2, 3, maxErrors);
      assert |[] + [1, 2]| == n;
    }
  }
}
