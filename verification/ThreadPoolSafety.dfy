/**
 What holds in every run of the delayed thread pool, however its clients and workers are interleaved.
 */
module ThreadPoolSafety {
  import opened ThreadPoolRuns

  // ----- Immediate tasks keep the order in which they were pushed

  ghost predicate Increasing(ids: seq<TaskId>) {
    forall i, j :: 0 <= i < j < |ids| ==> ids[i] < ids[j]
  }

  ghost predicate AllBefore(a: seq<TaskId>, b: seq<TaskId>) {
    forall i, j :: 0 <= i < |a| && 0 <= j < |b| ==> a[i] < b[j]
  }

  lemma OrderOfConcat(a: seq<TaskId>, b: seq<TaskId>)
    ensures Increasing(a + b) <==> Increasing(a) && Increasing(b) && AllBefore(a, b)
  {
    var c := a + b;
    if Increasing(c) {
      assert forall i :: 0 <= i < |a| ==> a[i] == c[i];
      assert forall i :: 0 <= i < |b| ==> b[i] == c[|a| + i];
    }
  }

  ghost predicate IsImmediate(id: TaskId) {
    IMMEDIATE_MIN_ID <= id <= IMMEDIATE_MAX_ID
  }

  // New ids are behind all ids given so far.
  ghost predicate Counted(s: State) {
    var last := s.pool.lastImmediate;
    && last <= IMMEDIATE_MAX_ID && DELAYED_MIN_ID <= s.pool.lastDelayed <= DELAYED_MAX_ID
    && (forall id | id in s.accepted :: id >= IMMEDIATE_MIN_ID && (id <= IMMEDIATE_MAX_ID ==> id <= last))
    && (last < IMMEDIATE_MAX_ID ==> IMMEDIATE_MIN_ID in s.accepted)
    && (IMMEDIATE_MIN_ID !in s.accepted ==> forall id | id in s.accepted :: id > IMMEDIATE_MAX_ID)
  }

  ghost predicate InOrder(s: State) {
    && (forall id | id in s.taken || id in s.pool.immediate :: IsImmediate(id) && id in s.accepted)
    && Increasing(s.taken + s.pool.immediate)
  }

  lemma {:induction false} RemoveKeepsOrder(ids: seq<TaskId>, id: TaskId)
    requires Increasing(ids)
    ensures Increasing(Remove(ids, id)) && forall x | x in Remove(ids, id) :: x in ids
  {
    if ids != [] && ids[0] != id {
      RemoveKeepsOrder(ids[1..], id);
      BehindTheFirst(ids);
      PutFirst(ids[0], Remove(ids[1..], id));
    }
  }

  lemma BehindTheFirst(ids: seq<TaskId>)
    requires Increasing(ids) && ids != []
    ensures forall x | x in ids[1..] :: x in ids && ids[0] < x
  {
  }

  lemma PutFirst(id: TaskId, ids: seq<TaskId>)
    requires Increasing(ids) && forall x | x in ids :: id < x
    ensures Increasing([id] + ids)
  {
    OrderOfConcat([id], ids);
    assert forall j :: 0 <= j < |ids| ==> ids[j] in ids;
  }

  lemma PutLast(ids: seq<TaskId>, id: TaskId)
    requires Increasing(ids) && forall x | x in ids :: x < id
    ensures Increasing(ids + [id])
  {
    OrderOfConcat(ids, [id]);
    assert forall j :: 0 <= j < |ids| ==> ids[j] in ids;
  }

  lemma RemoveBehind(taken: seq<TaskId>, queue: seq<TaskId>, id: TaskId)
    requires Increasing(taken + queue)
    ensures Increasing(taken + Remove(queue, id)) && forall x | x in Remove(queue, id) :: x in queue
  {
    OrderOfConcat(taken, queue);
    RemoveKeepsOrder(queue, id);
    var rest := Remove(queue, id);
    forall j | 0 <= j < |rest|
      ensures rest[j] in queue
    {
      assert rest[j] in rest;
    }
    OrderOfConcat(taken, rest);
  }

  lemma NewIdIsLast(s: State)
    requires Counted(s) && !s.pool.shutdown && Enabled(s, DoPush)
    ensures IsImmediate(NextImmediate(s.pool))
    ensures forall id | id in s.accepted && id <= IMMEDIATE_MAX_ID :: id < NextImmediate(s.pool)
  {
  }

  lemma StepKeepsCounted(s: State, e: Event)
    requires Counted(s) && Enabled(s, e)
    ensures Counted(Step(s, e))
  {
    hide Held, First;
    match e
    case Go(w) =>
      GoStartsNext(s, w);
    case _ =>
  }

  lemma WakeKeepsOrder(s: State, w: nat)
    requires InOrder(s) && Enabled(s, Wake(w))
    ensures InOrder(StepWake(s, w))
  {
    hide First, Without, Increasing, IsImmediate, TakenDelayed, TakenImmediate;
    var s', queue := StepWake(s, w), s.pool.immediate;
    TakenImmediateLeaves(s.pool);
    var n := if s.pool.shutdown then (if s.pool.exit == ExecPending then |queue| else 0) else |TakenImmediate(s.pool)|;
    MoveOver(s.taken, queue, n);
    assert s'.taken == s.taken + queue[..n] && s'.pool.immediate == queue[n..];
  }

  lemma MoveOver(taken: seq<TaskId>, queue: seq<TaskId>, n: nat)
    requires n <= |queue|
    ensures (taken + queue[..n]) + queue[n..] == taken + queue
    ensures forall id :: id in taken + queue[..n] || id in queue[n..] ==> id in taken || id in queue
    ensures queue[..|queue|] == queue && queue[|queue|..] == [] && taken + queue[..0] == taken && queue[0..] == queue
  {
  }

  lemma StepKeepsOrder(s: State, e: Event)
    requires Counted(s) && InOrder(s) && Enabled(s, e)
    ensures InOrder(Step(s, e))
  {
    hide Held, First, Without, Increasing, Remove;
    match e
    case DoPush =>
      if !s.pool.shutdown {
        NewIdIsLast(s);
        PutLast(s.taken + s.pool.immediate, NextImmediate(s.pool));
        assert s.taken + (s.pool.immediate + [NextImmediate(s.pool)]) == s.taken + s.pool.immediate + [NextImmediate(s.pool)];
      }
    case DoCancel(id) =>
      RemoveBehind(s.taken, s.pool.immediate, id);
    case Go(w) =>
      GoStartsNext(s, w);
    case Wake(w) =>
      WakeKeepsOrder(s, w);
    case _ =>
  }

  // ----- Delayed tasks wait for their time

  ghost predicate DueAsPushed(delayed: map<TaskId, Time>, whenOf: map<TaskId, Time>) {
    forall id | id in delayed :: id in whenOf && whenOf[id] == delayed[id]
  }

  // What a worker holds: delayed tasks to be started at once are due.
  ghost predicate HoldsDueTasks(w: Worker, whenOf: map<TaskId, Time>, now: Time) {
    match w
    case Waiting => true
    case Running(todo) => forall id | id in todo && id in whenOf :: whenOf[id] <= now
    case Draining(immediate, delayed) => (forall id | id in immediate :: id <= IMMEDIATE_MAX_ID) && DueAsPushed(delayed, whenOf)
    case Ended => true
  }

  ghost predicate StartedInTime(started: seq<Start>, whenOf: map<TaskId, Time>) {
    forall k :: 0 <= k < |started| && started[k].id in whenOf ==> whenOf[started[k].id] <= started[k].time
  }

  ghost predicate NotEarly(s: State) {
    && (forall id :: id in s.whenOf <==> id in s.accepted && id > IMMEDIATE_MAX_ID)
    && DueAsPushed(s.pool.delayed, s.whenOf)
    && (forall w :: 0 <= w < |s.workers| ==> HoldsDueTasks(s.workers[w], s.whenOf, s.now))
    && StartedInTime(s.started, s.whenOf)
  }

  lemma PushDelayedIsNotEarly(s: State, when: Time)
    requires InOnePlace(s) && Counted(s) && NotEarly(s) && Enabled(s, DoPushDelayed(when))
    ensures NotEarly(StepPushDelayed(s, when))
  {
    hide Held, Ids;
    if !s.pool.shutdown {
      var id := NextDelayed(s.pool);
      NewIdIsNowhere(s, id);
      var whenOf' := s.whenOf[id := when];
      forall w | 0 <= w < |s.workers|
        ensures HoldsDueTasks(s.workers[w], whenOf', s.now)
      {
        assert id !in HeldBy(s.workers[w]);
      }
      forall k | 0 <= k < |s.started|
        ensures s.started[k].id != id
      {
        IdIsIn(s.started, k);
      }
    }
  }

  lemma IdIsIn(started: seq<Start>, k: nat)
    requires k < |started|
    ensures started[k].id in Ids(started)
  {
    assert Ids(started)[k] == started[k].id;
  }

  lemma WakeIsNotEarly(s: State, w: nat)
    requires InOrder(s) && NotEarly(s) && Enabled(s, Wake(w))
    ensures NotEarly(StepWake(s, w))
  {
    hide Increasing, StartedInTime;
    var s' := StepWake(s, w);
    assert HoldsDueTasks(s'.workers[w], s.whenOf, s.now);
    assert DueAsPushed(s'.pool.delayed, s.whenOf);
    forall v | 0 <= v < |s'.workers|
      ensures HoldsDueTasks(s'.workers[v], s.whenOf, s.now)
    {
      assert v != w ==> s'.workers[v] == s.workers[v];
    }
  }

  lemma GoIsNotEarly(s: State, w: nat)
    requires NotEarly(s) && Enabled(s, Go(w))
    ensures NotEarly(StepGo(s, w))
  {
    hide StartedInTime, Held;
    var s' := StepGo(s, w);
    assert HoldsDueTasks(s.workers[w], s.whenOf, s.now);
    GoStartsNext(s, w);
    WorkerGoes(s, w);
    forall v | 0 <= v < |s'.workers|
      ensures HoldsDueTasks(s'.workers[v], s.whenOf, s.now)
    {
      assert v != w ==> s'.workers[v] == s.workers[v];
    }
  }

  lemma WorkerGoes(s: State, w: nat)
    requires Enabled(s, Go(w)) && HoldsDueTasks(s.workers[w], s.whenOf, s.now) && StartedInTime(s.started, s.whenOf)
    requires forall id | id in s.whenOf :: id > IMMEDIATE_MAX_ID
    ensures HoldsDueTasks(StepGo(s, w).workers[w], s.whenOf, s.now)
    ensures StartedInTime(StepGo(s, w).started, s.whenOf)
  {
    match s.workers[w]
    case Running(todo) =>
    case Draining(immediate, delayed) =>
      if immediate != [] {
        assert immediate[0] in immediate;
        assert forall id | id in immediate[1..] :: id in immediate;
      } else if delayed != map[] {
        assert First(delayed) in delayed;
      }
  }

  lemma StepIsNotEarly(s: State, e: Event)
    requires InOnePlace(s) && Counted(s) && InOrder(s) && NotEarly(s) && Enabled(s, e)
    ensures NotEarly(Step(s, e))
  {
    hide Held, First, Increasing, Ids, StartedInTime, StepGo, StepWake, StepPushDelayed;
    match e
    case DoPush =>
      if !s.pool.shutdown {
        NewIdIsLast(s);
      }
    case DoPushDelayed(when) => PushDelayedIsNotEarly(s, when);
    case Wake(w) => WakeIsNotEarly(s, w);
    case Go(w) => GoIsNotEarly(s, w);
    case Tick(passed) =>
    case DoCancel(id) =>
    case DoShutdown(_) =>
  }

  // ----- A shutdown

  ghost predicate HasSeenShutdown(w: Worker) {
    w.Draining? || w.Ended?
  }

  // The first worker to see the shutdown takes everything that is pending, if it is to be executed.
  ghost predicate Drained(s: State) {
    forall w :: 0 <= w < |s.workers| && HasSeenShutdown(s.workers[w]) ==>
      s.pool.shutdown && (s.pool.exit == ExecPending ==> s.pool.immediate == [] && s.pool.delayed == map[])
  }

  lemma StepKeepsDrained(s: State, e: Event)
    requires Drained(s) && Enabled(s, e)
    ensures Drained(Step(s, e))
  {
    hide First;
    var s' := Step(s, e);
    forall w | 0 <= w < |s'.workers| && HasSeenShutdown(s'.workers[w])
      ensures s'.pool.shutdown && (s'.pool.exit == ExecPending ==> s'.pool.immediate == [] && s'.pool.delayed == map[])
    {
      assert w < |s.workers|;
      assert HasSeenShutdown(s.workers[w]) || e == Wake(w);
    }
  }

  // ----- One worker keeps the order even when it starts the tasks

  ghost function Immediates(ids: seq<TaskId>): seq<TaskId> {
    if ids == [] then []
    else Immediates(ids[..|ids| - 1]) + if ids[|ids| - 1] <= IMMEDIATE_MAX_ID then [ids[|ids| - 1]] else []
  }

  ghost function ImmediatesHeld(w: Worker): seq<TaskId> {
    match w
    case Waiting => []
    case Running(todo) => Immediates(todo)
    case Draining(immediate, _) => immediate
    case Ended => []
  }

  ghost predicate InOrderAlone(s: State) {
    |s.workers| == 1 ==> s.taken == Immediates(Ids(s.started)) + ImmediatesHeld(s.workers[0])
  }

  lemma {:induction false} ImmediatesConcat(a: seq<TaskId>, b: seq<TaskId>)
    ensures Immediates(a + b) == Immediates(a) + Immediates(b)
  {
    if b == [] {
      assert a + b == a;
    } else {
      assert (a + b)[..|a + b| - 1] == a + b[..|b| - 1];
      ImmediatesConcat(a, b[..|b| - 1]);
    }
  }

  lemma ImmediatesOne(id: TaskId)
    ensures Immediates([id]) == if id <= IMMEDIATE_MAX_ID then [id] else []
  {
    assert [id][..0] == [];
  }

  lemma TakenImmediates(s: State)
    requires InOrder(s) && NotEarly(s)
    ensures Immediates(TakenImmediate(s.pool) + TakenDelayed(s.pool, s.now)) == TakenImmediate(s.pool)
  {
    hide Increasing, Ids, StartedInTime, Immediates;
    var imm, del := TakenImmediate(s.pool), TakenDelayed(s.pool, s.now);
    ImmediatesConcat(imm, del);
    NoImmediates();
    if imm != [] {
      assert imm[0] in s.pool.immediate;
      ImmediatesOne(imm[0]);
    }
    if del != [] {
      assert del[0] in s.pool.delayed;
      ImmediatesOne(del[0]);
    }
  }

  lemma WakeKeepsAlone(s: State)
    requires InOrder(s) && NotEarly(s) && InOrderAlone(s) && |s.workers| == 1 && Enabled(s, Wake(0))
    ensures InOrderAlone(StepWake(s, 0))
  {
    hide InOrder, NotEarly, Ids, Without, First, Immediates, TakenImmediate, TakenDelayed;
    TakenImmediates(s);
    assert s.taken == Immediates(Ids(s.started));
    assert s.taken + [] == s.taken;
  }

  lemma NoImmediates()
    ensures Immediates([]) == []
  {
  }

  // A single worker holds behind its next task what it held before.
  lemma HeldBehindNext(s: State)
    requires NotEarly(s) && |s.workers| == 1 && Enabled(s, Go(0))
    ensures ImmediatesHeld(s.workers[0]) == Immediates(NextTask(s.workers[0])) + ImmediatesHeld(StepGo(s, 0).workers[0])
  {
    hide Ids, Without, StartedInTime, Immediates;
    var w := s.workers[0];
    assert HoldsDueTasks(w, s.whenOf, s.now);
    NoImmediates();
    match w
    case Running(todo) =>
      if todo != [] {
        assert todo == [todo[0]] + todo[1..];
        ImmediatesConcat([todo[0]], todo[1..]);
      }
    case Draining(immediate, delayed) =>
      if immediate != [] {
        assert immediate[0] in immediate;
        ImmediatesOne(immediate[0]);
      } else if delayed != map[] {
        assert First(delayed) in delayed;
        ImmediatesOne(First(delayed));
      }
  }

  lemma GoKeepsAlone(s: State)
    requires NotEarly(s) && InOrderAlone(s) && |s.workers| == 1 && Enabled(s, Go(0))
    ensures InOrderAlone(StepGo(s, 0))
  {
    hide Ids, StepGo, NotEarly, Immediates, ImmediatesHeld, NextTask, HeldBy;
    var s' := StepGo(s, 0);
    GoStartsNext(s, 0);
    HeldBehindNext(s);
    var next := NextTask(s.workers[0]);
    if next == [] {
      NoImmediates();
      assert s.started + [] == s.started;
    } else {
      OneNext(s.workers[0]);
      assert next == [next[0]];
      IdsPush(s.started, Start(next[0], s.now));
      ImmediatesConcat(Ids(s.started), next);
    }
  }

  lemma StepKeepsAlone(s: State, e: Event)
    requires InOrder(s) && NotEarly(s) && InOrderAlone(s) && Enabled(s, e)
    ensures InOrderAlone(Step(s, e)) && |Step(s, e).workers| == |s.workers|
  {
    hide Increasing, Ids, StartedInTime, First, Without, Immediates, ImmediatesHeld, NotEarly, InOrder, StepGo, StepWake;
    match e
    case Wake(w) =>
      WakeMoves(s, w);
      if |s.workers| == 1 {
        WakeKeepsAlone(s);
      }
    case Go(w) =>
      GoStartsNext(s, w);
      if |s.workers| == 1 {
        GoKeepsAlone(s);
      }
    case _ =>
  }

  // ----- Whole runs

  ghost predicate Safe(s: State) {
    InOnePlace(s) && Counted(s) && InOrder(s) && NotEarly(s) && Drained(s) && InOrderAlone(s)
  }

  lemma StartsSafe(threadsCount: nat, exit: Exit, now: Time)
    ensures Safe(Initial(threadsCount, exit, now))
  {
    var s := Initial(threadsCount, exit, now);
    NothingHeld(s.workers);
    assert Ids([]) == [];
    var none: map<TaskId, Time> := map[];
    assert multiset(none.Keys) == multiset{};
  }

  lemma {:induction false} NothingHeld(workers: seq<Worker>)
    requires forall w :: 0 <= w < |workers| ==> workers[w] == Waiting || workers[w] == Ended
    ensures Held(workers) == multiset{}
  {
    if workers != [] {
      NothingHeld(workers[1..]);
    }
  }

  lemma StepIsSafe(s: State, e: Event)
    requires Safe(s) && Enabled(s, e)
    ensures Safe(Step(s, e)) && |Step(s, e).workers| == |s.workers|
  {
    hide InOnePlace, Counted, InOrder, NotEarly, Drained, InOrderAlone, Step, Enabled;
    StepKeepsPlaces(s, e);
    StepKeepsCounted(s, e);
    StepKeepsOrder(s, e);
    StepIsNotEarly(s, e);
    StepKeepsDrained(s, e);
    StepKeepsAlone(s, e);
  }

  lemma {:induction false} RunIsSafe(s: State, events: seq<Event>, s': State)
    requires Safe(s) && Run(s, events, s')
    ensures Safe(s') && |s'.workers| == |s.workers|
    decreases |events|
  {
    hide Safe, Step, Enabled;
    if events != [] {
      StepIsSafe(s, events[0]);
      RunIsSafe(Step(s, events[0]), events[1..], s');
    }
  }

  // s is reached from a new pool.
  ghost predicate Reached(s: State, threadsCount: nat) {
    exists exit, now, events :: Run(Initial(threadsCount, exit, now), events, s)
  }

  lemma ReachedIsSafe(s: State, threadsCount: nat)
    requires Reached(s, threadsCount)
    ensures Safe(s) && |s.workers| == threadsCount
  {
    hide Safe, Run;
    var exit, now, events :| Run(Initial(threadsCount, exit, now), events, s);
    StartsSafe(threadsCount, exit, now);
    RunIsSafe(Initial(threadsCount, exit, now), events, s);
  }

  // Every accepted task is queued, held by one worker, cancelled or started: exactly one of these, once.
  lemma EveryTaskInOnePlace(s: State, threadsCount: nat, id: TaskId)
    requires Reached(s, threadsCount)
    ensures Places(s)[id] == if id in s.accepted then 1 else 0
  {
    hide Safe, Places;
    ReachedIsSafe(s, threadsCount);
    assert InOnePlace(s) by { SafeParts(s); }
    assert multiset(s.accepted)[id] == if id in s.accepted then 1 else 0;
  }

  lemma SafeParts(s: State)
    requires Safe(s)
    ensures InOnePlace(s) && Counted(s) && InOrder(s) && NotEarly(s) && Drained(s) && InOrderAlone(s)
  {
  }

  lemma NoTaskStartsTwice(s: State, threadsCount: nat, i: nat, j: nat)
    requires Reached(s, threadsCount) && i < j < |s.started|
    ensures s.started[i].id != s.started[j].id
  {
    hide Held, Reached;
    var ids := Ids(s.started);
    if ids[i] == ids[j] {
      EveryTaskInOnePlace(s, threadsCount, ids[i]);
      assert multiset(ids)[ids[i]] <= Places(s)[ids[i]];
      TwiceInSequence(ids, i, j);
    }
  }

  lemma TwiceInSequence(ids: seq<TaskId>, i: nat, j: nat)
    requires i < j < |ids| && ids[i] == ids[j]
    ensures multiset(ids)[ids[i]] >= 2
  {
    assert ids == ids[..j] + ids[j..];
    assert ids[..j][i] == ids[i] && ids[j..][0] == ids[j];
    assert ids[i] in multiset(ids[..j]) && ids[i] in multiset(ids[j..]);
  }

  // What has been cancelled or started stays so.
  lemma {:induction false} HistoryGrows(s: State, events: seq<Event>, s': State)
    requires Run(s, events, s')
    ensures s.cancelled <= s'.cancelled && s.started <= s'.started && s.accepted <= s'.accepted && s.taken <= s'.taken
    decreases |events|
  {
    if events != [] {
      OneStepGrows(s, events[0]);
      hide Step;
      HistoryGrows(Step(s, events[0]), events[1..], s');
    }
  }

  lemma OneStepGrows(s: State, e: Event)
    requires Enabled(s, e)
    ensures var s' := Step(s, e);
            s.cancelled <= s'.cancelled && s.started <= s'.started && s.accepted <= s'.accepted && s.taken <= s'.taken
  {
    hide First, Without;
  }

  // A task that was cancelled with success never starts, neither before nor at any time later.
  lemma CancelledNeverStarts(s: State, threadsCount: nat, id: TaskId, events: seq<Event>, s': State)
    requires Reached(s, threadsCount) && Cancel(s.pool, id).1
    requires Run(Step(s, DoCancel(id)), events, s')
    ensures id !in Ids(s'.started)
  {
    hide Reached, Held, Ids, Cancel;
    var c := Step(s, DoCancel(id));
    ReachedIsSafe(s, threadsCount);
    StepIsSafe(s, DoCancel(id));
    RunIsSafe(c, events, s');
    HistoryGrows(c, events, s');
    assert id in s'.cancelled;
    if id in Ids(s'.started) {
      PlacedIsAccepted(s', id);
    }
  }

  // Immediate tasks are taken from the queue in the order in which they were accepted.
  lemma TakenInOrder(s: State, threadsCount: nat, i: nat, j: nat)
    requires Reached(s, threadsCount) && i < j < |s.taken + s.pool.immediate|
    ensures (s.taken + s.pool.immediate)[i] < (s.taken + s.pool.immediate)[j]
  {
    hide Reached, Safe;
    ReachedIsSafe(s, threadsCount);
    SafeParts(s);
  }

  // A later push gets a larger id.
  lemma LaterPushLargerId(s: State, threadsCount: nat, id: TaskId)
    requires Reached(s, threadsCount) && Enabled(s, DoPush) && !s.pool.shutdown
    requires id in s.accepted && id <= IMMEDIATE_MAX_ID
    ensures id < PushImmediate(s.pool).1
  {
    hide Reached, Safe;
    ReachedIsSafe(s, threadsCount);
    SafeParts(s);
    NewIdIsLast(s);
  }

  // No delayed task starts before its time.
  lemma NoDelayedTaskStartsEarly(s: State, threadsCount: nat, k: nat)
    requires Reached(s, threadsCount) && k < |s.started| && s.started[k].id > IMMEDIATE_MAX_ID
    ensures s.started[k].id in s.whenOf && s.whenOf[s.started[k].id] <= s.started[k].time
  {
    hide Reached, Safe, Places;
    ReachedIsSafe(s, threadsCount);
    SafeParts(s);
    IdIsIn(s.started, k);
    StartedIsAccepted(s, s.started[k].id);
  }

  lemma StartedIsAccepted(s: State, id: TaskId)
    requires InOnePlace(s) && id in Ids(s.started)
    ensures id in s.accepted
  {
    hide Held, Ids;
    assert multiset(Ids(s.started))[id] > 0;
    PlacedIsAccepted(s, id);
  }

  // When all workers of a pool that executes what is pending have ended, every accepted task
  // was either cancelled or started, and only once.
  lemma NothingLeftPending(s: State, threadsCount: nat)
    requires Reached(s, threadsCount) && threadsCount > 0 && s.pool.exit == ExecPending
    requires forall w :: 0 <= w < |s.workers| ==> s.workers[w].Ended?
    ensures multiset(s.cancelled) + multiset(Ids(s.started)) == multiset(s.accepted)
  {
    hide Reached, Safe, Ids;
    ReachedIsSafe(s, threadsCount);
    SafeParts(s);
    assert HasSeenShutdown(s.workers[0]);
    NothingHeld(s.workers);
    var none: map<TaskId, Time> := map[];
    assert multiset(none.Keys) == multiset{};
  }

  // A pool that skips what is pending never touches its queues again, so that nothing in them starts.
  lemma {:induction false} SkippedStays(s: State, events: seq<Event>, s': State)
    requires s.pool.shutdown && s.pool.exit == SkipPending && Run(s, events, s')
    ensures s'.pool == s.pool && s'.accepted == s.accepted && s'.cancelled == s.cancelled
    decreases |events|
  {
    if events != [] {
      assert Step(s, events[0]).pool == s.pool by { hide First, Without; }
      assert Step(s, events[0]).accepted == s.accepted && Step(s, events[0]).cancelled == s.cancelled by { hide First, Without; }
      hide Step;
      SkippedStays(Step(s, events[0]), events[1..], s');
    }
  }

  lemma SkippedNeverStarts(s: State, threadsCount: nat, events: seq<Event>, s': State, id: TaskId)
    requires Reached(s, threadsCount) && s.pool.shutdown && s.pool.exit == SkipPending && Run(s, events, s')
    requires id in s.pool.immediate || id in s.pool.delayed
    ensures id !in Ids(s'.started)
  {
    hide Reached, Held, Ids, Run;
    ReachedIsSafe(s, threadsCount);
    RunIsSafe(s, events, s');
    SkippedStays(s, events, s');
    if id in Ids(s'.started) {
      PlacedIsAccepted(s', id);
    }
  }

  // ----- Who may overtake whom

  ghost predicate StartedInOrder(s: State) {
    Increasing(Immediates(Ids(s.started)))
  }

  // With one worker immediate tasks also start in the order of their pushes.
  lemma AloneStartsInOrder(s: State)
    requires Reached(s, 1)
    ensures StartedInOrder(s)
  {
    hide Reached, Safe, Ids, Immediates;
    ReachedIsSafe(s, 1);
    SafeParts(s);
    OrderOfConcat(s.taken, s.pool.immediate);
    OrderOfConcat(Immediates(Ids(s.started)), ImmediatesHeld(s.workers[0]));
  }

  // Two tasks pushed, both taken, the second one started first.
  function Overtaking(): seq<Event> {
    [DoPush, DoPush, Wake(0), Wake(1), Go(1), Go(0)]
  }

  lemma TakeOne(s: State, w: nat, id: TaskId, rest: seq<TaskId>)
    requires !s.pool.shutdown && s.pool.immediate == [id] + rest && s.pool.delayed == map[]
    requires w < |s.workers| && s.workers[w].Waiting?
    ensures Enabled(s, Wake(w))
    ensures Step(s, Wake(w)) == s.(pool := s.pool.(immediate := rest), workers := s.workers[w := Running([id])],
                                   taken := s.taken + [id])
  {
    assert TakenImmediate(s.pool) == [id] && TakenDelayed(s.pool, s.now) == [];
    assert [id] + [] == [id];
    WithoutNone(s.pool.delayed);
    assert s.pool.immediate[1..] == rest;
  }

  lemma StartOne(s: State, w: nat, id: TaskId)
    requires w < |s.workers| && s.workers[w] == Running([id])
    ensures Enabled(s, Go(w))
    ensures Step(s, Go(w)) == s.(workers := s.workers[w := Running([])], started := s.started + [Start(id, s.now)])
  {
    assert [id][1..] == [];
  }

  lemma PushTwo(s: State) returns (s1: State, s2: State)
    requires !s.pool.shutdown && s.pool.lastImmediate == IMMEDIATE_MAX_ID && s.accepted == {} && s.pool.immediate == []
    ensures Enabled(s, DoPush) && s1 == Step(s, DoPush) && Enabled(s1, DoPush) && s2 == Step(s1, DoPush)
    ensures s2.pool.immediate == [1, 2] && s2.pool.delayed == s.pool.delayed && !s2.pool.shutdown
    ensures s2.workers == s.workers && s2.started == s.started && s2.now == s.now
  {
    s1 := Step(s, DoPush);
    s2 := Step(s1, DoPush);
  }

  // With two workers or more a task may start before one that was pushed earlier.
  lemma SomeMayOvertake(threadsCount: nat) returns (s: State)
    requires threadsCount >= 2
    ensures Reached(s, threadsCount) && !StartedInOrder(s)
  {
    hide Run, Step, Enabled;
    var s0 := Initial(threadsCount, SkipPending, 0);
    var s1, s2 := PushTwo(s0);
    TakeOne(s2, 0, 1, [2]);
    var s3 := Step(s2, Wake(0));
    TakeOne(s3, 1, 2, []);
    var s4 := Step(s3, Wake(1));
    StartOne(s4, 1, 2);
    var s5 := Step(s4, Go(1));
    StartOne(s5, 0, 1);
    s := Step(s5, Go(0));
    SixSteps(s0, s1, s2, s3, s4, s5, s);
    assert Ids(s.started) == [2, 1];
    assert [2, 1][..1] == [2] && [2][..0] == [];
    assert Immediates([2, 1]) == [2, 1];
  }

  lemma SixSteps(s0: State, s1: State, s2: State, s3: State, s4: State, s5: State, s6: State)
    requires Enabled(s0, DoPush) && s1 == Step(s0, DoPush) && Enabled(s1, DoPush) && s2 == Step(s1, DoPush)
    requires Enabled(s2, Wake(0)) && s3 == Step(s2, Wake(0)) && Enabled(s3, Wake(1)) && s4 == Step(s3, Wake(1))
    requires Enabled(s4, Go(1)) && s5 == Step(s4, Go(1)) && Enabled(s5, Go(0)) && s6 == Step(s5, Go(0))
    ensures Run(s0, Overtaking(), s6)
  {
    hide Step, Enabled;
    var es := Overtaking();
    assert Run(s6, es[6..], s6);
    assert es[5..][1..] == es[6..] && Run(s5, es[5..], s6);
    assert es[4..][1..] == es[5..] && Run(s4, es[4..], s6);
    assert es[3..][1..] == es[4..] && Run(s3, es[3..], s6);
    assert es[2..][1..] == es[3..] && Run(s2, es[2..], s6);
    assert es[1..][1..] == es[2..] && Run(s1, es[1..], s6);
  }

  // The order of the pushes is kept in all runs exactly when there is no second worker.
  lemma OrderKeptIffAlone(threadsCount: nat)
    ensures (forall s :: Reached(s, threadsCount) ==> StartedInOrder(s)) <==> threadsCount <= 1
  {
    hide Reached, StartedInOrder;
    if threadsCount >= 2 {
      var s := SomeMayOvertake(threadsCount);
    } else {
      forall s | Reached(s, threadsCount)
        ensures StartedInOrder(s)
      {
        if threadsCount == 1 {
          AloneStartsInOrder(s);
        } else {
          NobodyStarts(s);
        }
      }
    }
  }

  lemma NobodyStarts(s: State)
    requires Reached(s, 0)
    ensures StartedInOrder(s)
  {
    var exit, now, events :| Run(Initial(0, exit, now), events, s);
    NobodyRuns(Initial(0, exit, now), events, s);
    assert Ids([]) == [];
  }

  lemma {:induction false} NobodyRuns(s: State, events: seq<Event>, s': State)
    requires s.workers == [] && s.started == [] && Run(s, events, s')
    ensures s'.started == []
    decreases |events|
  {
    if events != [] {
      assert Step(s, events[0]).workers == [] && Step(s, events[0]).started == [] by { hide First, Without; }
      hide Step;
      NobodyRuns(Step(s, events[0]), events[1..], s');
    }
  }
}
