/**
 base::thread_pool::delayed::ThreadPool: the sections under its lock, each one a step of the state machine.
 */
module ThreadPool {
  import opened Options
  import opened Queues
  import opened ThreadPoolRuns

  // A closure; which one it is, is all that matters here.
  type Task = nat

  datatype DelayedTask = DelayedTask(id: TaskId, when: Time, task: Task) {
    predicate Less(rhs: DelayedTask) {
      if when == rhs.when then id < rhs.id else when < rhs.when
    }
  }

  // What a worker leaves the lock with: its tasks of this round, or the pending queues to work off.
  datatype Outcome =
    | Execute(immediate: Option<Task>, delayed: Option<Task>)
    | Leave(pendingImmediate: LinkedMap<TaskId, Task>, pendingDelayed: BidirectionalMap<TaskId, DelayedTask>)

  // The keys of the delayed queue with the times of their tasks.
  function Times(kToV: map<TaskId, DelayedTask>): map<TaskId, Time> {
    map id | id in kToV :: kToV[id].when
  }

  // Every queued task is the one that was pushed under its id.
  ghost predicate AsPushed(list: seq<Node<TaskId, Task>>, kToV: map<TaskId, DelayedTask>, taskOf: map<TaskId, Task>) {
    && (forall i :: 0 <= i < |list| ==> list[i].key in taskOf && taskOf[list[i].key] == list[i].value)
    && (forall id | id in kToV :: kToV[id].id == id && id in taskOf && taskOf[id] == kToV[id].task)
  }

  lemma {:induction false} SameRemove(keys: seq<TaskId>, id: TaskId)
    ensures RemoveKey(keys, id) == Remove(keys, id)
  {
    if keys != [] {
      SameRemove(keys[1..], id);
    }
  }

  // The least delayed task is that of the id that comes first.
  lemma LeastIsFirst(kToV: map<TaskId, DelayedTask>, v: DelayedTask)
    requires v in kToV.Values && forall id | id in kToV :: kToV[id].id == id
    requires forall u | u in kToV.Values :: !u.Less(v)
    ensures v.id in kToV && kToV[v.id] == v && Times(kToV) != map[] && First(Times(kToV)) == v.id
  {
    var times := Times(kToV);
    var f := First(times);
    assert kToV[f] in kToV.Values;
    assert v.id in times;
  }

  // The first value of a queue by the order of delayed tasks.
  method GetFirstValue(queue: BidirectionalMap<TaskId, DelayedTask>) returns (v: DelayedTask)
    requires queue.Valid() && !queue.IsEmpty()
    ensures v in queue.vToK && v in queue.kToV.Values
    ensures forall u | u in queue.kToV.Values :: !u.Less(v)
  {
    var k :| k in queue.kToV;
    v := queue.kToV[k];
    var rest := queue.vToK.Keys - {v};
    while rest != {}
      invariant v in queue.vToK && rest <= queue.vToK.Keys
      invariant forall u | u in queue.vToK && u !in rest :: !u.Less(v)
      decreases rest
    {
      var u :| u in rest;
      if u.Less(v) {
        v := u;
      }
      rest := rest - {u};
    }
    assert queue.kToV[queue.vToK[v]] == v;
    forall u | u in queue.kToV.Values
      ensures u in queue.vToK
    {
    }
  }

  // The first of the queue has been taken, if there was one.
  ghost predicate TookFirst(before: seq<TaskId>, after: seq<TaskId>, task: Option<Task>, taskOf: map<TaskId, Task>) {
    if before == [] then task.None? && after == []
    else before[0] in taskOf && task == Some(taskOf[before[0]]) && after == before[1..]
  }

  // Some task was due exactly when one has been taken: a due one that no queued task precedes.
  ghost predicate TookDue(before: map<TaskId, Time>, after: map<TaskId, Time>, now: Time, task: Option<Task>, taskOf: map<TaskId, Task>) {
    && (task.Some? <==> exists id :: id in before && before[id] <= now)
    && (task.None? ==> after == before)
    && (task.Some? ==> exists id :: IsFirst(before, id) && before[id] <= now && after == before - {id}
                                    && id in taskOf && task.value == taskOf[id])
  }

  class ThreadPool {
    const immediate: LinkedMap<TaskId, Task>
    const delayed: BidirectionalMap<TaskId, DelayedTask>
    var shutdown: bool
    var exit: Exit
    var immediateLastId: TaskId
    var delayedLastId: TaskId
    // The task behind every id given so far.
    ghost var taskOf: map<TaskId, Task>

    ghost predicate Valid()
      reads this, immediate, delayed
    {
      immediate.Valid() && delayed.Valid() && AsPushed(immediate.list, delayed.kToV, taskOf)
    }

    ghost function State(): Pool
      reads this, immediate, delayed
    {
      Pool(Keys(immediate.list), Times(delayed.kToV), shutdown, exit, immediateLastId, delayedLastId)
    }

    constructor (e: Exit)
      ensures Valid() && State() == InitialPool(e) && fresh(immediate) && fresh(delayed)
    {
      immediate := new LinkedMap();
      delayed := new BidirectionalMap();
      shutdown, exit, immediateLastId, delayedLastId := false, e, IMMEDIATE_MAX_ID, DELAYED_MAX_ID;
      taskOf := map[];
    }

    method AddImmediate(task: Task) returns (id: TaskId)
      requires Valid() && (shutdown || NextImmediate(State()) !in taskOf)
      modifies this, immediate
      ensures Valid() && (State(), id) == PushImmediate(old(State()))
      ensures taskOf == if id == INCORRECT_ID then old(taskOf) else old(taskOf)[id := task]
    {
      if shutdown {
        return INCORRECT_ID;
      }
      hide Linked, AsPushed, Keys, Times;
      id := MakeNextId(immediateLastId, IMMEDIATE_MIN_ID, IMMEDIATE_MAX_ID);
      ghost var before := immediate.list;
      NewKey(before, immediate.index, immediate.nextHandle, delayed.kToV, taskOf, id);
      var ok := immediate.Emplace(id, task);
      OneMorePushed(before, immediate.list, delayed.kToV, taskOf, id, task);
      immediateLastId := id;
      taskOf := taskOf[id := task];
    }

    method AddDelayed(when: Time, task: Task) returns (id: TaskId)
      requires Valid() && (shutdown || NextDelayed(State()) !in taskOf)
      modifies this, delayed
      ensures Valid() && (State(), id) == PushDelayed(old(State()), when)
      ensures taskOf == if id == INCORRECT_ID then old(taskOf) else old(taskOf)[id := task]
    {
      if shutdown {
        return INCORRECT_ID;
      }
      id := MakeNextId(delayedLastId, DELAYED_MIN_ID, DELAYED_MAX_ID);
      var value := DelayedTask(id, when, task);
      ghost var before := delayed.kToV;
      assert forall k | k in before :: before[k] != value;
      var ok := delayed.Add(id, value);
      assert Times(delayed.kToV) == Times(before)[id := when];
      delayedLastId := id;
      taskOf := taskOf[id := task];
    }

    method CancelTask(id: TaskId) returns (ok: bool)
      requires Valid()
      modifies immediate, delayed
      ensures Valid() && (State(), ok) == Cancel(old(State()), id)
      ensures ok <==> !shutdown && id != INCORRECT_ID &&
                        if id <= IMMEDIATE_MAX_ID then id in old(State()).immediate else id in old(State()).delayed
      ensures ok && id > IMMEDIATE_MAX_ID ==> State() == old(State()).(delayed := old(State()).delayed - {id})
      ensures !ok ==> State() == old(State())
    {
      if shutdown || id == INCORRECT_ID {
        return false;
      }
      if id <= IMMEDIATE_MAX_ID {
        SameRemove(Keys(immediate.list), id);
        ghost var before := immediate.list;
        ok := immediate.Erase(id);
        assert AsPushed(immediate.list, delayed.kToV, taskOf) by { FewerAsPushed(before, immediate.list, delayed.kToV, delayed.kToV, taskOf); }
      } else {
        ghost var before := delayed.kToV;
        ok := delayed.RemoveKey(id);
        assert Times(delayed.kToV) == if ok then Without(Times(before), [id]) else Times(before);
      }
    }

    method ShutDown(e: Exit) returns (ok: bool)
      requires Valid()
      modifies this
      ensures Valid() && (State(), ok) == Shutdown(old(State()), e) && taskOf == old(taskOf)
      ensures shutdown && (ok <==> !old(shutdown)) && exit == if ok then e else old(exit)
      ensures State() == old(State()).(shutdown := true, exit := exit)
    {
      if shutdown {
        return false;
      }
      shutdown, exit := true, e;
      return true;
    }

    // What a worker does between waking up and leaving the lock, at the given time.
    method WakeUp(now: Time) returns (outcome: Outcome)
      requires Valid()
      modifies immediate, delayed
      ensures Valid()
      ensures outcome.Leave? <==> shutdown
      ensures outcome.Leave? ==>
                && outcome.pendingImmediate.Valid() && outcome.pendingDelayed.Valid()
                && AsPushed(outcome.pendingImmediate.list, outcome.pendingDelayed.kToV, taskOf)
                && Keys(outcome.pendingImmediate.list) == (if exit == ExecPending then old(State()).immediate else [])
                && Times(outcome.pendingDelayed.kToV) == (if exit == ExecPending then old(State()).delayed else map[])
                && State() == if exit == ExecPending then old(State()).(immediate := [], delayed := map[]) else old(State())
      ensures outcome.Execute? ==>
                var imm, del := TakenImmediate(old(State())), TakenDelayed(old(State()), now);
                && Tasks(imm, outcome.immediate, taskOf) && Tasks(del, outcome.delayed, taskOf)
                && State() == old(State()).(immediate := old(State()).immediate[|imm|..],
                                            delayed := Without(old(State()).delayed, del))
      ensures outcome.Execute? ==>
                && TookFirst(old(State()).immediate, State().immediate, outcome.immediate, taskOf)
                && TookDue(old(State()).delayed, State().delayed, now, outcome.delayed, taskOf)
    {
      hide AsPushed, First, Without, Keys, Times, TakenImmediate, TakenDelayed, Tasks, TookFirst, TookDue;
      if shutdown {
        var pendingImmediate := new LinkedMap<TaskId, Task>();
        var pendingDelayed := new BidirectionalMap<TaskId, DelayedTask>();
        NothingQueued(taskOf);
        if exit == ExecPending {
          SwapLists(immediate, pendingImmediate);
          SwapMaps(delayed, pendingDelayed);
        }
        return Leave(pendingImmediate, pendingDelayed);
      }
      ghost var before := State();
      var first := TakeImmediate();
      SameDelayed(before, State(), now);
      var due := TakeDelayed(now);
      FirstIsTaken(before, first, taskOf);
      DueIsTaken(before, now, due, taskOf);
      return Execute(first, due);
    }

    method TakeImmediate() returns (first: Option<Task>)
      requires Valid()
      modifies immediate
      ensures Valid()
      ensures var imm := TakenImmediate(old(State()));
              && Tasks(imm, first, taskOf)
              && State() == old(State()).(immediate := old(State()).immediate[|imm|..])
    {
      hide Linked, AsPushed, Times, Keys;
      first := None;
      KeysOfList(immediate.list);
      ghost var keys := Keys(immediate.list);
      if !immediate.IsEmpty() {
        first := Some(immediate.Front());
        ghost var before := immediate.list;
        immediate.PopFront();
        FirstAsPushed(before, delayed.kToV, taskOf);
      } else {
        assert keys[0..] == keys;
      }
    }

    method TakeDelayed(now: Time) returns (due: Option<Task>)
      requires Valid()
      modifies delayed
      ensures Valid()
      ensures var del := TakenDelayed(old(State()), now);
              && Tasks(del, due, taskOf)
              && State() == old(State()).(delayed := Without(old(State()).delayed, del))
    {
      hide First, Without;
      due := None;
      ghost var before := delayed.kToV;
      WithoutNone(Times(before));
      if !delayed.IsEmpty() {
        var v := GetFirstValue(delayed);
        LeastIsFirst(before, v);
        if now >= v.when {
          due := Some(v.task);
          var ok := delayed.RemoveValue(v);
          TimesWithout(before, v.id);
        }
      }
    }
  }

  lemma FirstIsTaken(p: Pool, task: Option<Task>, taskOf: map<TaskId, Task>)
    requires Tasks(TakenImmediate(p), task, taskOf)
    ensures TookFirst(p.immediate, p.immediate[|TakenImmediate(p)|..], task, taskOf)
  {
  }

  lemma DueIsTaken(p: Pool, now: Time, task: Option<Task>, taskOf: map<TaskId, Task>)
    requires Tasks(TakenDelayed(p, now), task, taskOf)
    ensures TookDue(p.delayed, Without(p.delayed, TakenDelayed(p, now)), now, task, taskOf)
  {
    hide First;
    if TakenDelayed(p, now) == [] {
      WithoutNone(p.delayed);
    } else {
      var id := First(p.delayed);
      assert Without(p.delayed, [id]) == p.delayed - {id};
      assert IsFirst(p.delayed, id);
    }
  }

  lemma SameDelayed(p: Pool, p': Pool, now: Time)
    requires p.delayed == p'.delayed
    ensures TakenDelayed(p, now) == TakenDelayed(p', now)
  {
  }

  lemma TimesWithout(kToV: map<TaskId, DelayedTask>, id: TaskId)
    ensures Times(kToV - {id}) == Without(Times(kToV), [id])
  {
  }

  lemma NothingQueued(taskOf: map<TaskId, Task>)
    ensures AsPushed([], map[], taskOf) && Times(map[]) == map[]
    ensures Keys<TaskId, Task>([]) == []
  {
  }

  // The task taken, if there is one, is that of the id taken.
  ghost predicate Tasks(ids: seq<TaskId>, task: Option<Task>, taskOf: map<TaskId, Task>) {
    if ids == [] then task == None else ids[0] in taskOf && task == Some(taskOf[ids[0]])
  }

  lemma NewKey(list: seq<Node<TaskId, Task>>, index: map<TaskId, nat>, nextHandle: nat,
               kToV: map<TaskId, DelayedTask>, taskOf: map<TaskId, Task>, id: TaskId)
    requires Linked(list, index, nextHandle) && AsPushed(list, kToV, taskOf) && id !in taskOf
    ensures id !in index
  {
    assert id in index ==> InList(list, id);
  }

  lemma OneMorePushed(list: seq<Node<TaskId, Task>>, list': seq<Node<TaskId, Task>>,
                      kToV: map<TaskId, DelayedTask>, taskOf: map<TaskId, Task>, id: TaskId, task: Task)
    requires AsPushed(list, kToV, taskOf) && id !in taskOf
    requires |list'| == |list| + 1 && list'[..|list|] == list && list'[|list|].key == id && list'[|list|].value == task
    ensures AsPushed(list', kToV, taskOf[id := task])
    ensures Keys(list') == Keys(list) + [id]
  {
    assert forall i :: 0 <= i < |list| ==> list'[i] == list'[..|list|][i];
  }

  lemma KeysOfList(list: seq<Node<TaskId, Task>>)
    ensures Keys(list) == [] <==> list == []
    ensures list != [] ==> Keys(list)[0] == list[0].key && Keys(list[1..]) == Keys(list)[1..]
    ensures Keys(list)[0..] == Keys(list)
  {
  }

  lemma FirstAsPushed(list: seq<Node<TaskId, Task>>, kToV: map<TaskId, DelayedTask>, taskOf: map<TaskId, Task>)
    requires AsPushed(list, kToV, taskOf) && list != []
    ensures AsPushed(list[1..], kToV, taskOf)
    ensures list[0].key in taskOf && taskOf[list[0].key] == list[0].value
  {
  }

  lemma FewerAsPushed(list: seq<Node<TaskId, Task>>, list': seq<Node<TaskId, Task>>,
                      kToV: map<TaskId, DelayedTask>, kToV': map<TaskId, DelayedTask>, taskOf: map<TaskId, Task>)
    requires AsPushed(list, kToV, taskOf)
    requires (forall n | n in list' :: n in list) && (forall k | k in kToV' :: k in kToV && kToV'[k] == kToV[k])
    ensures AsPushed(list', kToV', taskOf)
  {
    forall i | 0 <= i < |list'|
      ensures list'[i].key in taskOf && taskOf[list'[i].key] == list'[i].value
    {
      assert list'[i] in list;
    }
  }

  method SwapLists(a: LinkedMap<TaskId, Task>, b: LinkedMap<TaskId, Task>)
    requires a != b && a.Valid() && b.Valid()
    modifies a, b
    ensures a.Valid() && b.Valid() && a.list == old(b.list) && b.list == old(a.list)
  {
    a.list, b.list := b.list, a.list;
    a.index, b.index := b.index, a.index;
    a.nextHandle, b.nextHandle := b.nextHandle, a.nextHandle;
  }

  method SwapMaps(a: BidirectionalMap<TaskId, DelayedTask>, b: BidirectionalMap<TaskId, DelayedTask>)
    requires a != b && a.Valid() && b.Valid()
    modifies a, b
    ensures a.Valid() && b.Valid() && a.kToV == old(b.kToV) && b.kToV == old(a.kToV)
  {
    a.kToV, b.kToV := b.kToV, a.kToV;
    a.vToK, b.vToK := b.vToK, a.vToK;
  }
}
