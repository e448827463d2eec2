/**
 What the workers of the delayed thread pool get done: a due task is started by any worker that is
 free to go on, and after a shutdown every worker comes to its end.
 */
module ThreadPoolProgress {
  import opened Options
  import opened ThreadPoolRuns
  import opened ThreadPoolSafety

  // ----- Rounds of one worker

  // There is a reason to wake up, so that no wait lasts any longer.
  ghost predicate MustWake(s: State) {
    s.pool.shutdown || s.pool.immediate != [] || exists id :: id in s.pool.delayed && s.pool.delayed[id] <= s.now
  }

  // The wait of a worker is over: that for the earliest delayed task, which was due at until when the
  // wait began, or that for any task.
  ghost predicate WaitIsOver(p: Pool, now: Time, until: Option<Time>) {
    match until
    case None => p.shutdown || p.immediate != [] || p.delayed != map[]
    case Some(when) =>
      now >= when || p.shutdown || p.immediate != [] || p.delayed == map[] || p.delayed[First(p.delayed)] < when
  }

  // Whenever the wait began, it is over when there is something to do.
  lemma NobodySleepsOn(s: State, until: Option<Time>)
    requires MustWake(s)
    ensures WaitIsOver(s.pool, s.now, until)
  {
  }

  // s' is reached by events of the worker w alone, which wakes up only when it must.
  ghost predicate RunOf(w: nat, s: State, events: seq<Event>, s': State)
    decreases |events|
  {
    if events == [] then s == s'
    else
      && (events[0] == Go(w) || (events[0] == Wake(w) && MustWake(s)))
      && Enabled(s, events[0]) && RunOf(w, Step(s, events[0]), events[1..], s')
  }

  lemma {:induction false} RunOfIsRun(w: nat, s: State, events: seq<Event>, s': State)
    requires RunOf(w, s, events, s')
    ensures Run(s, events, s')
    decreases |events|
  {
    if events != [] {
      hide Step, Enabled;
      RunOfIsRun(w, Step(s, events[0]), events[1..], s');
    }
  }

  lemma OneMore(w: nat, s: State, e: Event, events: seq<Event>, s': State)
    requires e == Go(w) || (e == Wake(w) && MustWake(s))
    requires Enabled(s, e) && RunOf(w, Step(s, e), events, s')
    ensures RunOf(w, s, [e] + events, s')
  {
    hide Step, Enabled;
    assert ([e] + events)[1..] == events;
  }

  lemma {:induction false} RunsJoin(w: nat, s: State, events: seq<Event>, s': State, events': seq<Event>, s'': State)
    requires RunOf(w, s, events, s') && RunOf(w, s', events', s'')
    ensures RunOf(w, s, events + events', s'')
    decreases |events|
  {
    hide Step, Enabled;
    if events == [] {
      assert events + events' == events';
    } else {
      RunsJoin(w, Step(s, events[0]), events[1..], s', events', s'');
      assert (events + events')[1..] == events[1..] + events';
    }
  }

  // A worker starts all that it holds, in order, and waits again.
  lemma {:induction false} WorkOff(s: State, w: nat, todo: seq<TaskId>) returns (events: seq<Event>, s': State)
    requires w < |s.workers| && s.workers[w] == Running(todo)
    ensures RunOf(w, s, events, s') && |s'.workers| == |s.workers| && s'.workers[w].Waiting?
    ensures s'.pool == s.pool && s'.now == s.now && Ids(s'.started) == Ids(s.started) + todo
    decreases |todo|
  {
    hide Ids;
    var s1 := Step(s, Go(w));
    if todo == [] {
      events, s' := [Go(w)], s1;
      assert s1.started == s.started;
      assert [Go(w)] + [] == [Go(w)];
      OneMore(w, s, Go(w), [], s1);
      assert Ids(s.started) + [] == Ids(s.started);
    } else {
      IdsPush(s.started, Start(todo[0], s.now));
      var rest: seq<Event>;
      rest, s' := WorkOff(s1, w, todo[1..]);
      OneMore(w, s, Go(w), rest, s');
      events := [Go(w)] + rest;
      assert (Ids(s.started) + [todo[0]]) + todo[1..] == Ids(s.started) + todo;
    }
  }

  // One round: the first immediate task, and the first delayed one if that is due.
  lemma OneRound(s: State, w: nat) returns (events: seq<Event>, s': State)
    requires w < |s.workers| && s.workers[w].Waiting? && !s.pool.shutdown && MustWake(s)
    ensures RunOf(w, s, events, s') && |s'.workers| == |s.workers| && s'.workers[w].Waiting? && s'.now == s.now
    ensures var imm, del := TakenImmediate(s.pool), TakenDelayed(s.pool, s.now);
            && s'.pool == s.pool.(immediate := s.pool.immediate[|imm|..], delayed := Without(s.pool.delayed, del))
            && Ids(s'.started) == Ids(s.started) + (imm + del)
  {
    hide Ids, Without, TakenImmediate, TakenDelayed, MustWake;
    var s1 := Step(s, Wake(w));
    var rest: seq<Event>;
    rest, s' := WorkOff(s1, w, TakenImmediate(s.pool) + TakenDelayed(s.pool, s.now));
    OneMore(w, s, Wake(w), rest, s');
    events := [Wake(w)] + rest;
  }

  // Queued, and its time has come.
  ghost predicate IsDue(s: State, id: TaskId) {
    id in s.pool.immediate || (id in s.pool.delayed && s.pool.delayed[id] <= s.now)
  }

  // What a round leaves is still due, and there is less of it.
  lemma RoundTakes(p: Pool, now: Time)
    requires p.immediate != [] || exists id :: id in p.delayed && p.delayed[id] <= now
    ensures var imm, del := TakenImmediate(p), TakenDelayed(p, now);
            var imm', del' := p.immediate[|imm|..], Without(p.delayed, del);
            && |imm'| + |del'| < |p.immediate| + |p.delayed|
            && (forall id :: id in p.immediate ==> id in imm + del || id in imm')
            && (forall id :: id in p.delayed ==> id in imm + del || (id in del' && del'[id] == p.delayed[id]))
  {
    var imm, del := TakenImmediate(p), TakenDelayed(p, now);
    TakenImmediateLeaves(p);
    assert forall id :: id in p.immediate ==> id in imm + p.immediate[|imm|..];
    FewerDelayed(p.delayed, del);
    assert p.immediate != [] || del != [];
  }

  lemma FewerDelayed(delayed: map<TaskId, Time>, ids: seq<TaskId>)
    ensures |Without(delayed, ids)| <= |delayed|
    ensures (exists id :: id in ids && id in delayed) ==> |Without(delayed, ids)| < |delayed|
  {
    var rest := Without(delayed, ids);
    assert rest.Keys <= delayed.Keys;
    SmallerSet(rest.Keys, delayed.Keys);
    if id :| id in ids && id in delayed {
      assert id in delayed.Keys && id !in rest.Keys;
    }
  }

  lemma {:induction false} SmallerSet(a: set<TaskId>, b: set<TaskId>)
    requires a <= b
    ensures |a| <= |b| && (a != b ==> |a| < |b|)
  {
    assert b == a + (b - a);
    assert |b| == |a| + |b - a|;
  }

  // A worker that waits starts any task that is due, after those in front of it.
  lemma {:induction false} DueTaskStarts(s: State, w: nat, id: TaskId) returns (events: seq<Event>, s': State)
    requires w < |s.workers| && s.workers[w].Waiting? && !s.pool.shutdown && IsDue(s, id)
    ensures RunOf(w, s, events, s') && Run(s, events, s') && id in Ids(s'.started)
    decreases |s.pool.immediate| + |s.pool.delayed|
  {
    hide Ids, TakenImmediate, TakenDelayed, Without;
    var s1: State;
    events, s1 := OneRound(s, w);
    var round := TakenImmediate(s.pool) + TakenDelayed(s.pool, s.now);
    RoundTakes(s.pool, s.now);
    if id in round {
      s' := s1;
    } else {
      var rest: seq<Event>;
      rest, s' := DueTaskStarts(s1, w, id);
      RunsJoin(w, s, events, s1, rest, s');
      events := events + rest;
    }
    RunOfIsRun(w, s, events, s');
  }

  // ----- After a shutdown

  // Nobody but the workers and the clock does anything.
  ghost predicate WorkersOnly(events: seq<Event>) {
    forall e | e in events :: e.Wake? || e.Go? || e.Tick?
  }

  lemma {:induction false} RunConcat(s: State, events: seq<Event>, s': State, events': seq<Event>, s'': State)
    requires Run(s, events, s') && Run(s', events', s'')
    ensures Run(s, events + events', s'')
    ensures WorkersOnly(events) && WorkersOnly(events') ==> WorkersOnly(events + events')
    decreases |events|
  {
    hide Step, Enabled;
    if events == [] {
      assert events + events' == events';
    } else {
      RunConcat(Step(s, events[0]), events[1..], s', events', s'');
      assert (events + events')[1..] == events[1..] + events';
    }
  }

  lemma OneEvent(s: State, e: Event)
    requires Enabled(s, e)
    ensures Run(s, [e], Step(s, e)) && (e.Wake? || e.Go? || e.Tick? ==> WorkersOnly([e]))
  {
    hide Step, Enabled;
    assert [e][1..] == [];
    assert Run(Step(s, e), [], Step(s, e));
  }

  // s' differs from s in the worker w, the time and the tasks started.
  ghost predicate OnlyWorker(s: State, w: nat, s': State) {
    && |s'.workers| == |s.workers| && (forall v :: 0 <= v < |s.workers| && v != w ==> s'.workers[v] == s.workers[v])
    && s'.pool.shutdown == s.pool.shutdown && s'.pool.exit == s.pool.exit
  }

  // The worker goes on, if it must wait for its next task.
  lemma GoesOn(s: State, w: nat) returns (events: seq<Event>, s1: State)
    requires w < |s.workers| && s.workers[w].Draining?
    ensures Run(s, events, s1) && WorkersOnly(events) && OnlyWorker(s, w, s1)
    ensures s1.workers[w] == AfterNext(s.workers[w]) && Ids(s1.started) == Ids(s.started) + NextTask(s.workers[w])
  {
    hide Ids, AfterNext, NextTask;
    var Draining(immediate, delayed) := s.workers[w];
    var wait := if immediate == [] && delayed != map[] && delayed[First(delayed)] > s.now then delayed[First(delayed)] - s.now else 0;
    OneEvent(s, Tick(wait));
    var t := Step(s, Tick(wait));
    OneEvent(t, Go(w));
    s1 := Step(t, Go(w));
    RunConcat(s, [Tick(wait)], t, [Go(w)], s1);
    events := [Tick(wait)] + [Go(w)];
    OneNext(s.workers[w]);
    var next := NextTask(s.workers[w]);
    if next == [] {
      assert s1.started == s.started && Ids(s.started) + next == Ids(s.started);
    } else {
      assert next == [next[0]];
      IdsPush(s.started, Start(next[0], t.now));
    }
  }

  // A worker that works off what was pending starts all of it and ends.
  lemma {:induction false} Drains(s: State, w: nat) returns (events: seq<Event>, s': State)
    requires w < |s.workers| && s.workers[w].Draining?
    ensures Run(s, events, s') && WorkersOnly(events) && OnlyWorker(s, w, s') && s'.workers[w].Ended?
    decreases |s.workers[w].immediate| + |s.workers[w].delayed|
  {
    hide Ids, Run, WorkersOnly;
    var s1: State;
    events, s1 := GoesOn(s, w);
    if s1.workers[w].Ended? {
      s' := s1;
    } else {
      LessPending(s.workers[w]);
      var rest: seq<Event>;
      rest, s' := Drains(s1, w);
      RunConcat(s, events, s1, rest, s');
      events := events + rest;
    }
  }

  lemma LessPending(w: Worker)
    requires w.Draining? && !AfterNext(w).Ended?
    ensures AfterNext(w).Draining?
    ensures |AfterNext(w).immediate| + |AfterNext(w).delayed| < |w.immediate| + |w.delayed|
  {
    if w.immediate == [] {
      var id := First(w.delayed);
      FewerDelayed(w.delayed, [id]);
      assert id in [id];
    }
  }

  // What was pending is started in order: the immediate tasks first, then always the delayed one that no
  // other one precedes, when its time has come.
  lemma DrainsInOrder(s: State, w: nat, id: TaskId)
    requires Enabled(s, Go(w)) && s.workers[w].Draining? && NextTask(s.workers[w]) == [id]
    ensures Step(s, Go(w)).started == s.started + [Start(id, s.now)]
    ensures var Draining(immediate, delayed) := s.workers[w];
            if immediate != [] then id == immediate[0] else IsFirst(delayed, id) && delayed[id] <= s.now
  {
  }

  lemma WorkerEnds(s: State, w: nat) returns (events: seq<Event>, s': State)
    requires w < |s.workers| && s.pool.shutdown
    ensures Run(s, events, s') && WorkersOnly(events) && OnlyWorker(s, w, s') && s'.workers[w].Ended?
  {
    if s.workers[w].Ended? {
      events, s' := [], s;
    } else if s.workers[w].Draining? {
      events, s' := Drains(s, w);
    } else {
      hide Run, WorkersOnly, Step;
      var s1: State;
      events, s1 := RoundEnds(s, w);
      SeesShutdown(s1, w);
      OneEvent(s1, Wake(w));
      var s2 := Step(s1, Wake(w));
      RunConcat(s, events, s1, [Wake(w)], s2);
      var rest: seq<Event>;
      rest, s' := Drains(s2, w);
      RunConcat(s, events + [Wake(w)], s2, rest, s');
      events := events + [Wake(w)] + rest;
    }
  }

  lemma SeesShutdown(s: State, w: nat)
    requires Enabled(s, Wake(w)) && s.pool.shutdown
    ensures OnlyWorker(s, w, Step(s, Wake(w))) && Step(s, Wake(w)).workers[w].Draining?
  {
  }

  // A worker that is not yet done with its round finishes it.
  lemma {:induction false} RoundEnds(s: State, w: nat) returns (events: seq<Event>, s': State)
    requires w < |s.workers| && (s.workers[w].Running? || s.workers[w].Waiting?)
    ensures Run(s, events, s') && WorkersOnly(events) && OnlyWorker(s, w, s') && s'.workers[w].Waiting?
    decreases if s.workers[w].Running? then 1 + |s.workers[w].todo| else 0
  {
    if s.workers[w].Waiting? {
      events, s' := [], s;
    } else {
      var s1 := Step(s, Go(w));
      OneEvent(s, Go(w));
      var rest: seq<Event>;
      rest, s' := RoundEnds(s1, w);
      RunConcat(s, [Go(w)], s1, rest, s');
      events := [Go(w)] + rest;
    }
  }

  lemma {:induction false} FirstWorkersEnd(s: State, k: nat) returns (events: seq<Event>, s': State)
    requires k <= |s.workers| && s.pool.shutdown
    ensures Run(s, events, s') && WorkersOnly(events)
    ensures |s'.workers| == |s.workers| && s'.pool.shutdown && s'.pool.exit == s.pool.exit
    ensures forall w :: 0 <= w < k ==> s'.workers[w].Ended?
    decreases k
  {
    if k == 0 {
      events, s' := [], s;
    } else {
      hide Run, WorkersOnly;
      var s1: State;
      events, s1 := FirstWorkersEnd(s, k - 1);
      var rest: seq<Event>;
      rest, s' := WorkerEnds(s1, k - 1);
      RunConcat(s, events, s1, rest, s');
      events := events + rest;
    }
  }

  // However the pool was shut down, its workers can all come to their end without anybody's help.
  // If what is pending is executed, every accepted task has then been cancelled or started.
  lemma AllCanEnd(s: State, threadsCount: nat) returns (events: seq<Event>, s': State)
    requires Reached(s, threadsCount) && s.pool.shutdown
    ensures Run(s, events, s') && WorkersOnly(events)
    ensures |s'.workers| == threadsCount && forall w :: 0 <= w < threadsCount ==> s'.workers[w].Ended?
    ensures s.pool.exit == ExecPending && threadsCount > 0 ==>
              multiset(s'.cancelled) + multiset(Ids(s'.started)) == multiset(s'.accepted)
  {
    hide Run, WorkersOnly, Ids, Safe;
    ReachedIsSafe(s, threadsCount);
    events, s' := FirstWorkersEnd(s, threadsCount);
    StillReached(s, threadsCount, events, s');
    if s.pool.exit == ExecPending && threadsCount > 0 {
      NothingLeftPending(s', threadsCount);
    }
  }

  lemma StillReached(s: State, threadsCount: nat, events: seq<Event>, s': State)
    requires Reached(s, threadsCount) && Run(s, events, s')
    ensures Reached(s', threadsCount)
  {
    hide Run;
    var exit, now, before :| Run(Initial(threadsCount, exit, now), before, s);
    RunConcat(Initial(threadsCount, exit, now), before, s, events, s');
  }

  // ----- A shutdown and a cancellation are final

  // Of several shutdowns the first one counts, and nothing is accepted or cancelled behind it.
  lemma {:induction false} FirstShutdownCounts(s: State, events: seq<Event>, s': State)
    requires s.pool.shutdown && Run(s, events, s')
    ensures s'.pool.shutdown && s'.pool.exit == s.pool.exit && s'.accepted == s.accepted && s'.cancelled == s.cancelled
    decreases |events|
  {
    if events != [] {
      StaysShutDown(s, events[0]);
      hide Step, Enabled;
      FirstShutdownCounts(Step(s, events[0]), events[1..], s');
    }
  }

  lemma StaysShutDown(s: State, e: Event)
    requires s.pool.shutdown && Enabled(s, e)
    ensures var s' := Step(s, e);
            s'.pool.shutdown && s'.pool.exit == s.pool.exit && s'.accepted == s.accepted && s'.cancelled == s.cancelled
  {
    hide First, Without;
  }

  lemma {:induction false} RemovedOnce(ids: seq<TaskId>, id: TaskId)
    requires Increasing(ids)
    ensures id !in Remove(ids, id) && forall other :: other != id ==> (other in Remove(ids, id) <==> other in ids)
  {
    if ids != [] {
      BehindTheFirst(ids);
      assert forall x :: x in ids <==> x == ids[0] || x in ids[1..];
      if ids[0] != id {
        RemovedOnce(ids[1..], id);
      }
    }
  }

  // Which ids the queues hold.
  lemma QueuedIds(s: State, threadsCount: nat)
    requires Reached(s, threadsCount)
    ensures Increasing(s.pool.immediate) && (forall id | id in s.pool.immediate :: IsImmediate(id))
    ensures forall id | id in s.pool.delayed :: id > IMMEDIATE_MAX_ID
  {
    hide Reached, Safe, InOnePlace, InOrderAlone, Drained;
    ReachedIsSafe(s, threadsCount);
    SafeParts(s);
    OrderOfConcat(s.taken, s.pool.immediate);
  }

  // A cancellation succeeds exactly when the pool is not shut down and the task is still queued; it
  // takes this task away and leaves the others as they are.
  lemma CancelIff(s: State, threadsCount: nat, id: TaskId)
    requires Reached(s, threadsCount)
    ensures Cancel(s.pool, id).1 <==> !s.pool.shutdown && (id in s.pool.immediate || id in s.pool.delayed)
    ensures !Cancel(s.pool, id).1 ==> Cancel(s.pool, id).0 == s.pool
    ensures var p := Cancel(s.pool, id).0;
            Cancel(s.pool, id).1 ==>
              && id !in p.immediate && id !in p.delayed && Increasing(p.immediate)
              && (forall other :: other != id ==> (other in p.immediate <==> other in s.pool.immediate))
              && p.delayed == s.pool.delayed - {id}
  {
    hide Reached, Increasing;
    QueuedIds(s, threadsCount);
    RemovedOnce(s.pool.immediate, id);
    RemoveKeepsOrder(s.pool.immediate, id);
    assert id !in s.pool.delayed ==> s.pool.delayed == s.pool.delayed - {id};
    assert Without(s.pool.delayed, [id]) == s.pool.delayed - {id};
  }
}
