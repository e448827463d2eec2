/**
 The delayed thread pool as a state machine: clients and workers take atomic steps in any order, one
 step for every section under the pool's lock and one for every task that a worker starts.
 */
module ThreadPoolRuns {

  type TaskId = nat
  type Time = int

  const INCORRECT_ID: TaskId := 0
  const IMMEDIATE_MIN_ID: TaskId := 1
  const IMMEDIATE_MAX_ID: TaskId := 0x7FFF_FFFF_FFFF_FFFF
  const DELAYED_MIN_ID: TaskId := 0x8000_0000_0000_0000
  const DELAYED_MAX_ID: TaskId := 0xFFFF_FFFF_FFFF_FFFF

  datatype Exit = ExecPending | SkipPending

  // ----- What the lock protects

  datatype Pool = Pool(
    immediate: seq<TaskId>,
    delayed: map<TaskId, Time>,
    shutdown: bool,
    exit: Exit,
    lastImmediate: TaskId,
    lastDelayed: TaskId)

  function MakeNextId(id: TaskId, minId: TaskId, maxId: TaskId): TaskId {
    if id == maxId then minId else id + 1
  }

  function NextImmediate(p: Pool): TaskId {
    MakeNextId(p.lastImmediate, IMMEDIATE_MIN_ID, IMMEDIATE_MAX_ID)
  }

  function NextDelayed(p: Pool): TaskId {
    MakeNextId(p.lastDelayed, DELAYED_MIN_ID, DELAYED_MAX_ID)
  }

  function InitialPool(exit: Exit): Pool {
    Pool([], map[], false, exit, IMMEDIATE_MAX_ID, DELAYED_MAX_ID)
  }

  // The earliest delayed task; of two for the same time the one with the smaller id.
  ghost predicate IsFirst(delayed: map<TaskId, Time>, id: TaskId) {
    id in delayed && forall other | other in delayed ::
      delayed[id] < delayed[other] || (delayed[id] == delayed[other] && id <= other)
  }

  lemma {:induction false} FirstExists(delayed: map<TaskId, Time>)
    requires delayed != map[]
    ensures exists id :: IsFirst(delayed, id)
    decreases |delayed|
  {
    var id :| id in delayed;
    var rest := delayed - {id};
    assert rest.Keys == delayed.Keys - {id};
    if rest == map[] {
      assert forall other | other in delayed :: other == id || other in rest;
      assert IsFirst(delayed, id);
    } else {
      FirstExists(rest);
      var f :| IsFirst(rest, f);
      var least := if delayed[f] < delayed[id] || (delayed[f] == delayed[id] && f <= id) then f else id;
      forall other | other in delayed
        ensures delayed[least] < delayed[other] || (delayed[least] == delayed[other] && least <= other)
      {
        if other != id {
          assert other in rest;
        }
      }
      assert IsFirst(delayed, least);
    }
  }

  ghost function First(delayed: map<TaskId, Time>): (id: TaskId)
    requires delayed != map[]
    ensures IsFirst(delayed, id)
  {
    FirstExists(delayed);
    var id :| IsFirst(delayed, id);
    id
  }

  // What a worker takes in one round: the first immediate task, and the first delayed one if it is time.
  ghost function TakenImmediate(p: Pool): seq<TaskId> {
    if p.immediate == [] then [] else [p.immediate[0]]
  }

  ghost function TakenDelayed(p: Pool, now: Time): seq<TaskId> {
    if p.delayed == map[] || now < p.delayed[First(p.delayed)] then [] else [First(p.delayed)]
  }

  function Without(delayed: map<TaskId, Time>, ids: seq<TaskId>): map<TaskId, Time> {
    map id | id in delayed && id !in ids :: delayed[id]
  }

  function Remove(ids: seq<TaskId>, id: TaskId): seq<TaskId> {
    if ids == [] then [] else if ids[0] == id then ids[1..] else [ids[0]] + Remove(ids[1..], id)
  }

  // ----- The sections under the lock

  ghost function PushImmediate(p: Pool): (Pool, TaskId) {
    if p.shutdown then (p, INCORRECT_ID)
    else
      var id := NextImmediate(p);
      (p.(immediate := p.immediate + [id], lastImmediate := id), id)
  }

  ghost function PushDelayed(p: Pool, when: Time): (Pool, TaskId) {
    if p.shutdown then (p, INCORRECT_ID)
    else
      var id := NextDelayed(p);
      (p.(delayed := p.delayed[id := when], lastDelayed := id), id)
  }

  ghost function Cancel(p: Pool, id: TaskId): (Pool, bool) {
    if p.shutdown || id == INCORRECT_ID then (p, false)
    else if id <= IMMEDIATE_MAX_ID then
      if id in p.immediate then (p.(immediate := Remove(p.immediate, id)), true) else (p, false)
    else
      if id in p.delayed then (p.(delayed := Without(p.delayed, [id])), true) else (p, false)
  }

  ghost function Shutdown(p: Pool, e: Exit): (Pool, bool) {
    if p.shutdown then (p, false) else (p.(shutdown := true, exit := e), true)
  }

  // ----- The whole system

  datatype Worker =
    | Waiting
    | Running(todo: seq<TaskId>)
    | Draining(immediate: seq<TaskId>, delayed: map<TaskId, Time>)
    | Ended

  datatype Start = Start(id: TaskId, time: Time)

  // Besides the pool and its workers: the time, and the history of the run.
  datatype State = State(
    pool: Pool,
    workers: seq<Worker>,
    now: Time,
    accepted: set<TaskId>,
    whenOf: map<TaskId, Time>,
    cancelled: set<TaskId>,
    taken: seq<TaskId>,
    started: seq<Start>)

  function Initial(threadsCount: nat, exit: Exit, now: Time): State {
    State(InitialPool(exit), seq(threadsCount, i => Waiting), now, {}, map[], {}, [], [])
  }

  datatype Event =
    | DoPush
    | DoPushDelayed(when: Time)
    | DoCancel(id: TaskId)
    | DoShutdown(exit: Exit)
    | Wake(worker: nat)
    | Go(worker: nat)
    | Tick(passed: nat)

  // A worker may wake up at any time and look at the queues.  Ids have not wrapped: a new one is new.
  ghost predicate Enabled(s: State, e: Event) {
    match e
    case DoPush => s.pool.shutdown || NextImmediate(s.pool) !in s.accepted
    case DoPushDelayed(_) => s.pool.shutdown || NextDelayed(s.pool) !in s.accepted
    case DoCancel(_) => true
    case DoShutdown(_) => true
    case Wake(w) => w < |s.workers| && s.workers[w].Waiting?
    case Go(w) =>
      && w < |s.workers| && (s.workers[w].Running? || s.workers[w].Draining?)
      // In front of a pending delayed task a worker sleeps until its time has come.
      && (s.workers[w].Draining? && s.workers[w].immediate == [] && s.workers[w].delayed != map[] ==>
            s.now >= s.workers[w].delayed[First(s.workers[w].delayed)])
    case Tick(_) => true
  }

  ghost function StepPush(s: State): State {
    var (p, id) := PushImmediate(s.pool);
    if id == INCORRECT_ID then s else s.(pool := p, accepted := s.accepted + {id})
  }

  ghost function StepPushDelayed(s: State, when: Time): State {
    var (p, id) := PushDelayed(s.pool, when);
    if id == INCORRECT_ID then s else s.(pool := p, accepted := s.accepted + {id}, whenOf := s.whenOf[id := when])
  }

  ghost function StepCancel(s: State, id: TaskId): State {
    var (p, ok) := Cancel(s.pool, id);
    if ok then s.(pool := p, cancelled := s.cancelled + {id}) else s
  }

  // The section of a worker that has woken up.
  ghost function StepWake(s: State, w: nat): State
    requires w < |s.workers|
  {
    if s.pool.shutdown then
      if s.pool.exit == ExecPending then
        s.(pool := s.pool.(immediate := [], delayed := map[]),
           workers := s.workers[w := Draining(s.pool.immediate, s.pool.delayed)],
           taken := s.taken + s.pool.immediate)
      else s.(workers := s.workers[w := Draining([], map[])])
    else
      var imm, del := TakenImmediate(s.pool), TakenDelayed(s.pool, s.now);
      s.(pool := s.pool.(immediate := s.pool.immediate[|imm|..], delayed := Without(s.pool.delayed, del)),
         workers := s.workers[w := Running(imm + del)],
         taken := s.taken + imm)
  }

  // The task that a worker starts next, if any.
  ghost function NextTask(w: Worker): seq<TaskId> {
    match w
    case Waiting => []
    case Running(todo) => if todo == [] then [] else [todo[0]]
    case Draining(immediate, delayed) =>
      if immediate != [] then [immediate[0]] else if delayed != map[] then [First(delayed)] else []
    case Ended => []
  }

  // The worker afterwards; one that has nothing to start ends its round, or ends.
  ghost function AfterNext(w: Worker): Worker {
    match w
    case Waiting => Waiting
    case Running(todo) => if todo == [] then Waiting else Running(todo[1..])
    case Draining(immediate, delayed) =>
      if immediate != [] then Draining(immediate[1..], delayed)
      else if delayed != map[] then Draining([], Without(delayed, [First(delayed)]))
      else Ended
    case Ended => Ended
  }

  // Outside the lock: the next task of a worker, or the end of its round.
  ghost function StepGo(s: State, w: nat): State
    requires w < |s.workers| && (s.workers[w].Running? || s.workers[w].Draining?)
  {
    var next := NextTask(s.workers[w]);
    s.(workers := s.workers[w := AfterNext(s.workers[w])],
       started := s.started + if next == [] then [] else [Start(next[0], s.now)])
  }

  ghost function Step(s: State, e: Event): State
    requires Enabled(s, e)
  {
    match e
    case DoPush => StepPush(s)
    case DoPushDelayed(when) => StepPushDelayed(s, when)
    case DoCancel(id) => StepCancel(s, id)
    case DoShutdown(exit) => s.(pool := Shutdown(s.pool, exit).0)
    case Wake(w) => StepWake(s, w)
    case Go(w) => StepGo(s, w)
    case Tick(passed) => s.(now := s.now + passed)
  }

  // s' can be reached from s by the given events.
  ghost predicate Run(s: State, events: seq<Event>, s': State)
    decreases |events|
  {
    if events == [] then s == s'
    else Enabled(s, events[0]) && Run(Step(s, events[0]), events[1..], s')
  }

  // ----- Every accepted task is in exactly one place

  ghost function HeldBy(w: Worker): multiset<TaskId> {
    match w
    case Waiting => multiset{}
    case Running(todo) => multiset(todo)
    case Draining(immediate, delayed) => multiset(immediate) + multiset(delayed.Keys)
    case Ended => multiset{}
  }

  ghost function Held(workers: seq<Worker>): multiset<TaskId> {
    if workers == [] then multiset{} else HeldBy(workers[0]) + Held(workers[1..])
  }

  lemma SumsBehind(a: multiset<TaskId>, x: multiset<TaskId>, y: multiset<TaskId>, z: multiset<TaskId>, v: multiset<TaskId>)
    requires x + y == z + v
    ensures (a + x) + y == (a + z) + v
  {
    assert (a + x) + y == a + (x + y);
    assert (a + z) + v == a + (z + v);
  }

  lemma {:induction false} HeldUpdate(workers: seq<Worker>, w: nat, worker: Worker)
    requires w < |workers|
    ensures Held(workers[w := worker]) + HeldBy(workers[w]) == Held(workers) + HeldBy(worker)
  {
    hide HeldBy;
    if w > 0 {
      var us := workers[w := worker];
      assert us[1..] == workers[1..][w - 1 := worker];
      HeldUpdate(workers[1..], w - 1, worker);
      SumsBehind(HeldBy(workers[0]), Held(us[1..]), HeldBy(workers[w]), Held(workers[1..]), HeldBy(worker));
      assert Held(us) == HeldBy(workers[0]) + Held(us[1..]);
    } else {
      assert workers[w := worker][1..] == workers[1..];
    }
  }

  lemma {:induction false} HeldContains(workers: seq<Worker>, w: nat)
    requires w < |workers|
    ensures HeldBy(workers[w]) <= Held(workers)
  {
    hide HeldBy;
    if w > 0 {
      HeldContains(workers[1..], w - 1);
      assert workers[1..][w - 1] == workers[w];
    }
  }

  ghost function Ids(started: seq<Start>): seq<TaskId> {
    seq(|started|, i requires 0 <= i < |started| => started[i].id)
  }

  lemma IdsPush(started: seq<Start>, start: Start)
    ensures Ids(started + [start]) == Ids(started) + [start.id]
  {
  }

  // Queued, held by a worker, cancelled, or started.
  ghost function Places(s: State): multiset<TaskId> {
    multiset(s.pool.immediate) + multiset(s.pool.delayed.Keys) + Held(s.workers)
    + multiset(s.cancelled) + multiset(Ids(s.started))
  }

  ghost predicate InOnePlace(s: State) {
    Places(s) == multiset(s.accepted)
  }

  // ----- The invariant is kept by every step

  lemma {:induction false} RemoveOne(ids: seq<TaskId>, id: TaskId)
    requires id in ids
    ensures multiset(Remove(ids, id)) + multiset{id} == multiset(ids)
    ensures forall i :: i in Remove(ids, id) ==> i in ids
  {
    if ids[0] == id {
      assert ids == [id] + ids[1..];
    } else {
      RemoveOne(ids[1..], id);
      assert ids == [ids[0]] + ids[1..];
    }
  }

  // Taking one delayed task away.
  lemma WithoutOne(delayed: map<TaskId, Time>, id: TaskId)
    requires id in delayed
    ensures multiset(Without(delayed, [id]).Keys) + multiset{id} == multiset(delayed.Keys)
  {
    assert Without(delayed, [id]).Keys == delayed.Keys - {id};
    assert delayed.Keys == (delayed.Keys - {id}) + {id};
  }

  lemma WithoutNone(delayed: map<TaskId, Time>)
    ensures Without(delayed, []) == delayed
  {
  }

  lemma PushKeepsPlaces(s: State)
    requires InOnePlace(s) && Enabled(s, DoPush)
    ensures InOnePlace(StepPush(s))
  {
    hide Held, Ids;
    var id := NextImmediate(s.pool);
    if !s.pool.shutdown {
      assert multiset(s.pool.immediate + [id]) == multiset(s.pool.immediate) + multiset{id};
      assert multiset(s.accepted + {id}) == multiset(s.accepted) + multiset{id};
    }
  }

  // A queued task is an accepted one.
  lemma PlacedIsAccepted(s: State, id: TaskId)
    requires InOnePlace(s) && id in Places(s)
    ensures id in s.accepted && Places(s)[id] == 1
  {
    assert Places(s)[id] == multiset(s.accepted)[id];
  }

  // An id that was never given is nowhere.
  lemma NewIdIsNowhere(s: State, id: TaskId)
    requires InOnePlace(s) && id !in s.accepted
    ensures id !in s.pool.immediate && id !in s.pool.delayed && id !in Ids(s.started)
    ensures forall w :: 0 <= w < |s.workers| ==> id !in HeldBy(s.workers[w])
  {
    hide Held, Ids, HeldBy;
    assert Places(s)[id] == 0;
    assert id !in Held(s.workers) && id !in Ids(s.started) && id !in s.pool.immediate;
    assert id !in multiset(s.pool.delayed.Keys);
    forall w | 0 <= w < |s.workers|
      ensures id !in HeldBy(s.workers[w])
    {
      HeldContains(s.workers, w);
      assert HeldBy(s.workers[w])[id] <= Held(s.workers)[id];
    }
  }

  lemma PushDelayedKeepsPlaces(s: State, when: Time)
    requires InOnePlace(s) && Enabled(s, DoPushDelayed(when))
    ensures InOnePlace(StepPushDelayed(s, when))
  {
    hide Held, Ids;
    var id := NextDelayed(s.pool);
    if !s.pool.shutdown {
      NewIdIsNowhere(s, id);
      OneMoreKey(s.pool.delayed, id, when);
      assert multiset(s.accepted + {id}) == multiset(s.accepted) + multiset{id};
    }
  }

  lemma OneMoreKey(delayed: map<TaskId, Time>, id: TaskId, when: Time)
    requires id !in delayed
    ensures multiset(delayed[id := when].Keys) == multiset(delayed.Keys) + multiset{id}
  {
    assert delayed[id := when].Keys == delayed.Keys + {id};
  }

  lemma CancelKeepsPlaces(s: State, id: TaskId)
    requires InOnePlace(s)
    ensures InOnePlace(StepCancel(s, id))
  {
    hide Held, Ids, Remove, Without;
    if Cancel(s.pool, id).1 {
      assert id !in s.cancelled by {
        if id in s.cancelled {
          PlacedIsAccepted(s, id);
        }
      }
      assert multiset(s.cancelled + {id}) == multiset(s.cancelled) + multiset{id};
      if id <= IMMEDIATE_MAX_ID {
        RemoveOne(s.pool.immediate, id);
      } else {
        WithoutOne(s.pool.delayed, id);
      }
    }
  }

  // A worker that wakes up holds what it has taken from the queues.
  lemma WakeMoves(s: State, w: nat)
    requires Enabled(s, Wake(w))
    ensures var s' := StepWake(s, w);
            && s'.workers == s.workers[w := s'.workers[w]] && |s'.workers| == |s.workers|
            && s'.now == s.now && s'.accepted == s.accepted && s'.whenOf == s.whenOf
            && s'.cancelled == s.cancelled && s'.started == s.started
            && multiset(s'.pool.immediate) + multiset(s'.pool.delayed.Keys) + HeldBy(s'.workers[w])
               == multiset(s.pool.immediate) + multiset(s.pool.delayed.Keys)
  {
    hide Held, Without, First, HeldBy, TakenDelayed, TakenImmediate;
    var p := s.pool;
    HoldsNothing();
    if p.shutdown {
      var none: map<TaskId, Time> := map[];
      assert multiset(none.Keys) == multiset{};
      HoldsQueues(p.immediate, p.delayed);
    } else {
      var imm, del := TakenImmediate(p), TakenDelayed(p, s.now);
      HoldsTaken(imm, del);
      TakenDelayedLeaves(p, s.now);
      TakenImmediateLeaves(p);
      MoveToWorker(p.immediate, p.immediate[|imm|..], imm, p.delayed.Keys, Without(p.delayed, del).Keys, del);
    }
  }

  lemma TakenImmediateLeaves(p: Pool)
    ensures var imm := TakenImmediate(p);
            |imm| <= |p.immediate| && p.immediate == imm + p.immediate[|imm|..]
    ensures var imm := TakenImmediate(p);
            multiset(p.immediate[|imm|..]) + multiset(imm) == multiset(p.immediate)
  {
    var imm := TakenImmediate(p);
    assert p.immediate == imm + p.immediate[|imm|..];
  }

  lemma WakeKeepsPlaces(s: State, w: nat)
    requires InOnePlace(s) && Enabled(s, Wake(w))
    ensures InOnePlace(StepWake(s, w))
  {
    hide Held, HeldBy, Ids, StepWake;
    WakeMoves(s, w);
    var s' := StepWake(s, w);
    HeldUpdate(s.workers, w, s'.workers[w]);
    HoldsNothing();
    assert Held(s'.workers) == Held(s.workers) + HeldBy(s'.workers[w]);
    var q', h, b := multiset(s'.pool.immediate) + multiset(s'.pool.delayed.Keys), Held(s.workers), HeldBy(s'.workers[w]);
    assert q' + (h + b) == (q' + b) + h;
  }

  lemma MoveToWorker(i: seq<TaskId>, i': seq<TaskId>, imm: seq<TaskId>, d: set<TaskId>, d': set<TaskId>, del: seq<TaskId>)
    requires multiset(i') + multiset(imm) == multiset(i) && multiset(d') + multiset(del) == multiset(d)
    ensures multiset(i') + multiset(d') + (multiset(imm) + multiset(del)) == multiset(i) + multiset(d)
  {
    assert multiset(i') + multiset(d') + (multiset(imm) + multiset(del))
        == (multiset(i') + multiset(imm)) + (multiset(d') + multiset(del));
  }

  lemma Cancels(a: multiset<TaskId>, b: multiset<TaskId>, c: multiset<TaskId>)
    requires a + c == b + c
    ensures a == b
  {
    forall x: TaskId
      ensures a[x] == b[x]
    {
      assert (a + c)[x] == a[x] + c[x] && (b + c)[x] == b[x] + c[x];
    }
  }

  lemma MoveToStarted(h: multiset<TaskId>, h': multiset<TaskId>, before: multiset<TaskId>, after: multiset<TaskId>,
                      next: multiset<TaskId>, queued: multiset<TaskId>, c: multiset<TaskId>, r: multiset<TaskId>)
    requires h' + before == h + after && after + next == before
    ensures queued + h' + c + (r + next) == queued + h + c + r
  {
    assert (h' + next) + after == h + after;
    Cancels(h' + next, h, after);
    assert queued + h' + c + (r + next) == queued + (h' + next) + c + r;
  }

  lemma TakenDelayedLeaves(p: Pool, now: Time)
    ensures var del := TakenDelayed(p, now);
            multiset(Without(p.delayed, del).Keys) + multiset(del) == multiset(p.delayed.Keys)
  {
    hide Without, First;
    if TakenDelayed(p, now) == [] {
      WithoutNone(p.delayed);
    } else {
      WithoutOne(p.delayed, First(p.delayed));
    }
  }

  lemma HoldsNothing()
    ensures HeldBy(Waiting) == HeldBy(Ended) == HeldBy(Running([])) == HeldBy(Draining([], map[])) == multiset{}
  {
  }

  lemma HoldsQueues(immediate: seq<TaskId>, delayed: map<TaskId, Time>)
    ensures HeldBy(Draining(immediate, delayed)) == multiset(immediate) + multiset(delayed.Keys)
  {
  }

  lemma HoldsTaken(imm: seq<TaskId>, del: seq<TaskId>)
    ensures HeldBy(Running(imm + del)) == multiset(imm) + multiset(del)
  {
  }

  // A worker starts the task it holds first, and holds the others.
  lemma GoStartsNext(s: State, w: nat)
    requires w < |s.workers| && (s.workers[w].Running? || s.workers[w].Draining?)
    ensures var s', next := StepGo(s, w), NextTask(s.workers[w]);
            && s'.pool == s.pool && s'.now == s.now && s'.accepted == s.accepted && s'.whenOf == s.whenOf
            && s'.cancelled == s.cancelled && s'.taken == s.taken
            && |s'.workers| == |s.workers| && s'.workers == s.workers[w := s'.workers[w]]
            && HeldBy(s'.workers[w]) + multiset(next) == HeldBy(s.workers[w])
            && s'.started == s.started + if next == [] then [] else [Start(next[0], s.now)]
  {
    hide NextTask, AfterNext, HeldBy;
    GoKeepsHeld(s, w);
  }

  lemma GoKeepsHeld(s: State, w: nat)
    requires w < |s.workers| && (s.workers[w].Running? || s.workers[w].Draining?)
    ensures |StepGo(s, w).workers| == |s.workers|
    ensures HeldBy(StepGo(s, w).workers[w]) + multiset(NextTask(s.workers[w])) == HeldBy(s.workers[w])
  {
    hide Without, First;
    HoldsNothing();
    match s.workers[w]
    case Running(todo) =>
      if todo != [] {
        assert todo == [todo[0]] + todo[1..];
      }
    case Draining(immediate, delayed) =>
      if immediate != [] {
        assert immediate == [immediate[0]] + immediate[1..];
      } else if delayed != map[] {
        WithoutOne(delayed, First(delayed));
      }
  }

  lemma OneNext(w: Worker)
    ensures |NextTask(w)| <= 1
  {
    hide First;
  }

  lemma GoKeepsPlaces(s: State, w: nat)
    requires InOnePlace(s) && Enabled(s, Go(w))
    ensures InOnePlace(StepGo(s, w))
  {
    hide Held, HeldBy, Ids, StepGo, NextTask;
    GoStartsNext(s, w);
    var s', next := StepGo(s, w), NextTask(s.workers[w]);
    HeldUpdate(s.workers, w, s'.workers[w]);
    if next != [] {
      IdsPush(s.started, Start(next[0], s.now));
      assert next == [next[0]] by { OneNext(s.workers[w]); }
      assert multiset(Ids(s.started) + next) == multiset(Ids(s.started)) + multiset(next);
    } else {
      assert s.started + [] == s.started;
      assert multiset(next) == multiset{};
    }
    assert multiset(Ids(s'.started)) == multiset(Ids(s.started)) + multiset(next);
    MoveToStarted(Held(s.workers), Held(s'.workers), HeldBy(s.workers[w]), HeldBy(s'.workers[w]), multiset(next),
                  multiset(s.pool.immediate) + multiset(s.pool.delayed.Keys), multiset(s.cancelled), multiset(Ids(s.started)));
  }

  lemma StepKeepsPlaces(s: State, e: Event)
    requires InOnePlace(s) && Enabled(s, e)
    ensures InOnePlace(Step(s, e))
  {
    hide StepPush, StepPushDelayed, StepCancel, StepWake, StepGo, Held, Ids;
    match e
    case DoPush => PushKeepsPlaces(s);
    case DoPushDelayed(when) => PushDelayedKeepsPlaces(s, when);
    case DoCancel(id) => CancelKeepsPlaces(s, id);
    case DoShutdown(_) =>
    case Wake(w) => WakeKeepsPlaces(s, w);
    case Go(w) => GoKeepsPlaces(s, w);
    case Tick(_) =>
  }
}
