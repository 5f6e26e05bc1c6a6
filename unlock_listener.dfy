/** The unlock-waiter registry of the connector: a map from object id to the
    one-shot task a client waits on until that object is unlocked.

    A task is modelled as a handle (a natural number, handed out in increasing
    order) and the state of every task ever handed out is kept in `waiters`, so
    that completing a task that is no longer registered stays observable. */
module UnlockListeners {
  import opened Common
  import opened Listeners

  /** The state of the task behind a handle: not yet completed, or completed
      with a result (`true` for an unlock, `false` for a cancellation). */
  datatype WaiterState = Pending | Resolved(result: bool)

  /** The handles registered in `tcs` for the ids in `ids`. */
  function HandlesOf(tcs: map<string, nat>, ids: set<string>): set<nat> {
    set id | id in ids && id in tcs :: tcs[id]
  }

  /** `ws` with every task in `hs` completed with `result`. */
  function Resolve(ws: map<nat, WaiterState>, hs: set<nat>, result: bool): map<nat, WaiterState> {
    map h | h in ws :: if h in hs then Resolved(result) else ws[h]
  }

  /** No task completed in `before` is changed or forgotten in `after`: a task
      is completed at most once. */
  predicate KeepsResolved(before: map<nat, WaiterState>, after: map<nat, WaiterState>) {
    forall h :: h in before && before[h].Resolved? ==> h in after && after[h] == before[h]
  }

  /** Completing only pending tasks keeps every earlier completion, and
      completes each of them with the given result. */
  lemma ResolvePending(ws: map<nat, WaiterState>, hs: set<nat>, result: bool)
    requires forall h :: h in hs ==> h in ws && ws[h] == Pending
    ensures KeepsResolved(ws, Resolve(ws, hs, result))
    ensures forall h :: h in hs ==> Resolve(ws, hs, result)[h] == Resolved(result)
    ensures forall h :: h in ws && h !in hs ==> Resolve(ws, hs, result)[h] == ws[h]
  {
  }

  /** Adding one id to the resolved ids: when the id still has a handle (it is
      registered and not yet among `done`), exactly that handle is added. */
  lemma ResolveStep(ws: map<nat, WaiterState>, t0: map<string, nat>, done: set<string>, id: string, result: bool)
    requires forall k :: k in t0 ==> t0[k] in ws
    ensures id in t0 && id !in done ==>
      Resolve(ws, HandlesOf(t0, done + {id}), result) == Resolve(ws, HandlesOf(t0, done), result)[t0[id] := Resolved(result)]
    ensures !(id in t0 && id !in done) ==>
      Resolve(ws, HandlesOf(t0, done + {id}), result) == Resolve(ws, HandlesOf(t0, done), result)
  {
    if id in t0 && id !in done {
      assert HandlesOf(t0, done + {id}) == HandlesOf(t0, done) + {t0[id]};
    } else {
      assert HandlesOf(t0, done + {id}) == HandlesOf(t0, done);
    }
  }

  /** The registry `t`, `w` is `t0`, `w0` with the ids in `ids` subscribed:
      already registered ids keep their task, every other id of `ids` got a
      new pending task numbered from `n0` on, and no other task was created. */
  predicate Subscribed(t0: map<string, nat>, w0: map<nat, WaiterState>, n0: nat, ids: set<string>,
                       t: map<string, nat>, w: map<nat, WaiterState>)
  {
    && t.Keys == t0.Keys + ids
    && (forall id :: id in t0 ==> t[id] == t0[id])
    && w.Keys == w0.Keys + HandlesOf(t, ids - t0.Keys)
    && (forall h :: h in w0 ==> w[h] == w0[h])
    && (forall h :: h in w && h !in w0 ==> n0 <= h && w[h] == Pending)
  }

  /** One more subscription, of `id` with the next free handle `n1`, keeps the
      registry a subscription of the old one. */
  lemma SubscribeStep(t0: map<string, nat>, w0: map<nat, WaiterState>, n0: nat, done: set<string>,
                      t1: map<string, nat>, w1: map<nat, WaiterState>, n1: nat, id: string,
                      t2: map<string, nat>, w2: map<nat, WaiterState>)
    requires Subscribed(t0, w0, n0, done, t1, w1)
    requires n0 <= n1 && forall h :: h in w1 ==> h < n1
    requires id in t1 ==> t2 == t1 && w2 == w1
    requires id !in t1 ==> t2 == t1[id := n1] && w2 == w1[n1 := Pending]
    ensures Subscribed(t0, w0, n0, done + {id}, t2, w2)
  {
    if id in t1 {
      assert (done + {id}) - t0.Keys == (done - t0.Keys) + ({id} - t0.Keys);
      assert HandlesOf(t2, (done + {id}) - t0.Keys) == HandlesOf(t1, done - t0.Keys);
    } else {
      HandlesOfAdd(t1, done - t0.Keys, id, n1);
      assert (done + {id}) - t0.Keys == (done - t0.Keys) + {id};
    }
  }

  /** Registering `id` with handle `n` adds exactly `n` to the handles of a
      set of registered ids that grows by `id`. */
  lemma HandlesOfAdd(t: map<string, nat>, ids: set<string>, id: string, n: nat)
    requires ids <= t.Keys && id !in t
    ensures HandlesOf(t[id := n], ids + {id}) == HandlesOf(t, ids) + {n}
  {
    var t' := t[id := n];
    forall h | h in HandlesOf(t', ids + {id}) ensures h in HandlesOf(t, ids) + {n} {
      var k :| k in ids + {id} && k in t' && t'[k] == h;
      if k != id {
        assert t[k] == h;
      }
    }
    forall h | h in HandlesOf(t, ids) + {n} ensures h in HandlesOf(t', ids + {id}) {
      if h != n {
        var k :| k in ids && k in t && t[k] == h;
        assert t'[k] == h;
      } else {
        assert t'[id] == h;
      }
    }
  }

  /** `GetOrAdd` on the registry: an id without a task gets a new pending one
      with the next free handle. */
  function Subscribe(t: map<string, nat>, w: map<nat, WaiterState>, n: nat, id: string)
    : (map<string, nat>, map<nat, WaiterState>, nat)
  {
    if id in t then (t, w, n) else (t[id := n], w[n := Pending], n + 1)
  }

  /** The registry after subscribing `ids` in order. */
  function SubscribeAll(t: map<string, nat>, w: map<nat, WaiterState>, n: nat, ids: seq<string>)
    : (map<string, nat>, map<nat, WaiterState>, nat)
  {
    if ids == [] then (t, w, n)
    else
      var s := SubscribeAll(t, w, n, ids[..|ids| - 1]);
      Subscribe(s.0, s.1, s.2, ids[|ids| - 1])
  }

  /** The state of the bulk subscription after the first `i` ids: the
      registry has them subscribed, they are distinct, and `tasks` maps each of
      them to its task. */
  predicate SubscribedPrefix(t0: map<string, nat>, w0: map<nat, WaiterState>, n0: nat, ids: seq<string>, i: int,
                             t: map<string, nat>, w: map<nat, WaiterState>, n: nat, tasks: map<string, nat>)
  {
    && 0 <= i <= |ids|
    && (t, w, n) == SubscribeAll(t0, w0, n0, ids[..i])
    && NoDup(ids[..i])
    && tasks.Keys == Elements(ids[..i])
    && forall id :: id in tasks ==> id in t && tasks[id] == t[id]
  }

  lemma SubscribedPrefixStep(t0: map<string, nat>, w0: map<nat, WaiterState>, n0: nat, ids: seq<string>, i: int,
                             t: map<string, nat>, w: map<nat, WaiterState>, n: nat, tasks: map<string, nat>,
                             t': map<string, nat>, w': map<nat, WaiterState>, n': nat, handle: nat)
    requires i < |ids| && SubscribedPrefix(t0, w0, n0, ids, i, t, w, n, tasks)
    requires (t', w', n') == Subscribe(t, w, n, ids[i]) && ids[i] in t' && handle == t'[ids[i]]
    ensures ids[i] in tasks ==> FirstRepeat(ids) == i && !NoDup(ids) && SubscribeAll(t0, w0, n0, ids[..FirstRepeat(ids)]) == (t', w', n')
    ensures ids[i] !in tasks ==> SubscribedPrefix(t0, w0, n0, ids, i + 1, t', w', n', tasks[ids[i] := handle])
  {
    assert ids[..i + 1] == ids[..i] + [ids[i]];
    assert ids[..i + 1][..i] == ids[..i];
    if ids[i] in tasks {
      NoRepeatBefore(ids, i);
      var j :| 0 <= j < i && ids[..i][j] == ids[i];
      assert ids[j] == ids[i];
    } else {
      NoDupConcat(ids[..i], [ids[i]]);
    }
  }

  lemma SubscribedPrefixDone(t0: map<string, nat>, w0: map<nat, WaiterState>, n0: nat, ids: seq<string>,
                             t: map<string, nat>, w: map<nat, WaiterState>, n: nat, tasks: map<string, nat>)
    requires SubscribedPrefix(t0, w0, n0, ids, |ids|, t, w, n, tasks)
    ensures NoDup(ids) && FirstRepeat(ids) == |ids| && (t, w, n) == SubscribeAll(t0, w0, n0, ids)
    ensures tasks.Keys == Elements(ids) && forall id :: id in tasks ==> id in t && tasks[id] == t[id]
  {
    assert ids[..|ids|] == ids;
    NoDupNoRepeat(ids);
  }

  /** Subscribing a list of ids one by one subscribes exactly the set of them,
      and keeps every handle below the next free one. */
  lemma {:induction false} SubscribeAllSpec(t0: map<string, nat>, w0: map<nat, WaiterState>, n0: nat, ids: seq<string>)
    requires forall h :: h in w0 ==> h < n0
    ensures var s := SubscribeAll(t0, w0, n0, ids);
      && Subscribed(t0, w0, n0, Elements(ids), s.0, s.1)
      && n0 <= s.2 && forall h :: h in s.1 ==> h < s.2
  {
    if ids == [] {
      assert HandlesOf(t0, {} - t0.Keys) == {};
    } else {
      var prefix, id := ids[..|ids| - 1], ids[|ids| - 1];
      SubscribeAllSpec(t0, w0, n0, prefix);
      var s := SubscribeAll(t0, w0, n0, prefix);
      var s' := Subscribe(s.0, s.1, s.2, id);
      SubscribeStep(t0, w0, n0, Elements(prefix), s.0, s.1, s.2, id, s'.0, s'.1);
      assert Elements(ids) == Elements(prefix) + {id} by {
        assert ids == prefix + [id];
      }
    }
  }

  /** Every registered task is pending, no two ids share a task, and every
      handle is below the next free one. */
  predicate RegistryOf(t: map<string, nat>, w: map<nat, WaiterState>, n: nat) {
    && (forall h :: h in w ==> h < n)
    && (forall id :: id in t ==> t[id] in w && w[t[id]] == Pending)
    && (forall a, b :: (a in t && b in t && t[a] == t[b]) ==> a == b)
  }

  /** `TryRemove` followed by completing the removed task with `result`. */
  function CancelOne(t: map<string, nat>, w: map<nat, WaiterState>, id: string, result: bool)
    : (map<string, nat>, map<nat, WaiterState>)
  {
    if id in t then (t - {id}, w[t[id] := Resolved(result)]) else (t, w)
  }

  /** The state of a loop that completed the tasks of the first `i` ids with
      `result`: those ids are gone and exactly their tasks are completed. */
  predicate CancelledPrefix(t0: map<string, nat>, w0: map<nat, WaiterState>, n: nat, ids: seq<string>, i: int,
                            result: bool, t: map<string, nat>, w: map<nat, WaiterState>)
  {
    && 0 <= i <= |ids|
    && RegistryOf(t0, w0, n) && RegistryOf(t, w, n)
    && t == t0 - Elements(ids[..i])
    && w == Resolve(w0, HandlesOf(t0, Elements(ids[..i])), result)
  }

  lemma CancelledPrefixStart(t0: map<string, nat>, w0: map<nat, WaiterState>, n: nat, ids: seq<string>, result: bool)
    requires RegistryOf(t0, w0, n)
    ensures CancelledPrefix(t0, w0, n, ids, 0, result, t0, w0)
  {
    assert Elements(ids[..0]) == {};
    assert Resolve(w0, HandlesOf(t0, {}), result) == w0;
  }

  lemma CancelledPrefixStep(t0: map<string, nat>, w0: map<nat, WaiterState>, n: nat, ids: seq<string>, i: int,
                            result: bool, t: map<string, nat>, w: map<nat, WaiterState>)
    requires i < |ids| && CancelledPrefix(t0, w0, n, ids, i, result, t, w)
    ensures var c := CancelOne(t, w, ids[i], result);
      CancelledPrefix(t0, w0, n, ids, i + 1, result, c.0, c.1)
  {
    var done := Elements(ids[..i]);
    assert Elements(ids[..i + 1]) == done + {ids[i]} by {
      assert ids[..i + 1] == ids[..i] + [ids[i]];
    }
    ResolveStep(w0, t0, done, ids[i], result);
    var c := CancelOne(t, w, ids[i], result);
    assert c.0 == t0 - (done + {ids[i]});
    if ids[i] in t {
      var h := t[ids[i]];
      forall id | id in c.0 ensures c.0[id] in c.1 && c.1[c.0[id]] == Pending {
        assert t[id] != h;
      }
    }
  }

  lemma CancelledPrefixDone(t0: map<string, nat>, w0: map<nat, WaiterState>, n: nat, ids: seq<string>,
                            result: bool, t: map<string, nat>, w: map<nat, WaiterState>)
    requires CancelledPrefix(t0, w0, n, ids, |ids|, result, t, w)
    ensures t == t0 - Elements(ids)
    ensures w == Resolve(w0, HandlesOf(t0, Elements(ids)), result)
    ensures KeepsResolved(w0, w)
  {
    assert ids[..|ids|] == ids;
    ResolvePending(w0, HandlesOf(t0, Elements(ids)), result);
  }

  class UnlockListenerBase {
    /** The start/stop state this listener inherits. */
    const listener: Listener

    /** Object id to the handle of the task waiting for its unlock. */
    var taskCompletionSources: map<string, nat>

    /** The state of every task handed out so far. */
    var waiters: map<nat, WaiterState>
    var nextHandle: nat

    constructor ()
      ensures Valid() && fresh(listener)
      ensures taskCompletionSources == map[] && waiters == map[]
      ensures !listener.isListening && !listener.disposedValue
      ensures listener.monitorStarts == 0 && listener.monitorStops == 0
    {
      listener := new Listener();
      taskCompletionSources := map[];
      waiters := map[];
      nextHandle := 0;
    }

    /** Every registered task is pending, no two ids share a task, and every
        handle was handed out. */
    predicate Registry()
      reads this
    {
      RegistryOf(taskCompletionSources, waiters, nextHandle)
    }

    /** The registry is consistent and the listener listens exactly while some
        task is waiting. */
    predicate Valid()
      reads this, listener
    {
      && Registry()
      && listener.Idle() && listener.Balanced()
      && (listener.isListening <==> taskCompletionSources != map[])
    }

    /** Returns the task of `objectId`, creating a pending one when the id has
        none, and makes sure the listener listens. */
    method StartListeningForUnlock(objectId: string) returns (handle: nat)
      requires Valid()
      modifies this, listener
      ensures Valid()
      ensures objectId in old(taskCompletionSources) ==>
        && handle == old(taskCompletionSources)[objectId]
        && taskCompletionSources == old(taskCompletionSources)
        && waiters == old(waiters) && nextHandle == old(nextHandle)
      ensures objectId !in old(taskCompletionSources) ==>
        && handle == old(nextHandle)
        && taskCompletionSources == old(taskCompletionSources)[objectId := handle]
        && waiters == old(waiters)[handle := Pending]
        && nextHandle == old(nextHandle) + 1
      ensures objectId in taskCompletionSources && handle == taskCompletionSources[objectId]
      ensures waiters[handle] == Pending
      ensures KeepsResolved(old(waiters), waiters)
      ensures listener.isListening
      ensures listener.monitorStarts == old(listener.monitorStarts) + (if old(listener.isListening) then 0 else 1)
      ensures listener.monitorStops == old(listener.monitorStops)
      ensures listener.disposedValue == old(listener.disposedValue)
    {
      if objectId in taskCompletionSources {
        handle := taskCompletionSources[objectId];
      } else {
        handle := nextHandle;
        taskCompletionSources := taskCompletionSources[objectId := handle];
        waiters := waiters[handle := Pending];
        nextHandle := nextHandle + 1;
      }

      if !listener.isListening {
        listener.StartListening();
      }
    }

    /** Subscribes every id in turn and collects their tasks in a new map. A
        repeated id makes the map insertion fail after that id was subscribed
        (again, which changes nothing), so the registry then holds the ids
        before the first repetition. */
    method StartListeningForUnlocks(objectIds: seq<string>) returns (r: Result<map<string, nat>>)
      requires Valid()
      modifies this, listener
      ensures Valid()
      ensures r.Success? <==> NoDup(objectIds)
      ensures r.Failure? ==> r.error == DuplicateArgument
      ensures (taskCompletionSources, waiters, nextHandle)
           == SubscribeAll(old(taskCompletionSources), old(waiters), old(nextHandle), objectIds[..FirstRepeat(objectIds)])
      ensures r.Success? ==>
        && r.value.Keys == Elements(objectIds)
        && forall id :: id in r.value ==> id in taskCompletionSources && r.value[id] == taskCompletionSources[id]
      ensures listener.monitorStarts ==
        old(listener.monitorStarts) + (if !old(listener.isListening) && listener.isListening then 1 else 0)
      ensures listener.monitorStops == old(listener.monitorStops)
      ensures listener.disposedValue == old(listener.disposedValue)
    {
      ghost var t0, w0, n0 := taskCompletionSources, waiters, nextHandle;
      var tasks: map<string, nat> := map[];
      for i := 0 to |objectIds|
        invariant Valid()
        invariant SubscribedPrefix(t0, w0, n0, objectIds, i, taskCompletionSources, waiters, nextHandle, tasks)
        invariant listener.monitorStarts ==
          old(listener.monitorStarts) + (if !old(listener.isListening) && listener.isListening then 1 else 0)
        invariant listener.monitorStops == old(listener.monitorStops)
        invariant listener.disposedValue == old(listener.disposedValue)
      {
        var objectId := objectIds[i];
        ghost var t1, w1, n1 := taskCompletionSources, waiters, nextHandle;
        var handle := StartListeningForUnlock(objectId);
        SubscribedPrefixStep(t0, w0, n0, objectIds, i, t1, w1, n1, tasks,
                             taskCompletionSources, waiters, nextHandle, handle);
        if objectId in tasks {
          r := Failure(DuplicateArgument);
          return;
        }
        tasks := tasks[objectId := handle];
      }
      SubscribedPrefixDone(t0, w0, n0, objectIds, taskCompletionSources, waiters, nextHandle, tasks);
      r := Success(tasks);
    }

    /** Cancels the task of `objectId`, if it has one, and stops listening
        once no task is left. */
    method StopListeningForUnlock(objectId: string)
      requires Valid()
      modifies this, listener
      ensures Valid()
      ensures taskCompletionSources == old(taskCompletionSources) - {objectId}
      ensures objectId in old(taskCompletionSources) ==>
        waiters == old(waiters)[old(taskCompletionSources)[objectId] := Resolved(false)]
      ensures objectId !in old(taskCompletionSources) ==> waiters == old(waiters)
      ensures nextHandle == old(nextHandle)
      ensures KeepsResolved(old(waiters), waiters)
      ensures listener.monitorStops ==
        old(listener.monitorStops) + (if old(listener.isListening) && taskCompletionSources == map[] then 1 else 0)
      ensures listener.monitorStarts == old(listener.monitorStarts)
      ensures listener.disposedValue == old(listener.disposedValue)
    {
      if objectId in taskCompletionSources {
        var handle := taskCompletionSources[objectId];
        taskCompletionSources := taskCompletionSources - {objectId};
        // TrySetResult: the task is pending, so this completes it.
        waiters := waiters[handle := Resolved(false)];
      }

      if taskCompletionSources == map[] && listener.isListening {
        listener.StopListening();
      }
    }

    /** Cancels the tasks of all given ids, one by one. */
    method StopListeningForUnlocks(objectIds: seq<string>)
      requires Valid()
      modifies this, listener
      ensures Valid()
      ensures taskCompletionSources == old(taskCompletionSources) - Elements(objectIds)
      ensures waiters == Resolve(old(waiters), HandlesOf(old(taskCompletionSources), Elements(objectIds)), false)
      ensures nextHandle == old(nextHandle)
      ensures KeepsResolved(old(waiters), waiters)
      ensures listener.monitorStops ==
        old(listener.monitorStops) + (if old(listener.isListening) && taskCompletionSources == map[] then 1 else 0)
      ensures listener.monitorStarts == old(listener.monitorStarts)
      ensures listener.disposedValue == old(listener.disposedValue)
    {
      ghost var t0, w0, n := taskCompletionSources, waiters, nextHandle;
      CancelledPrefixStart(t0, w0, n, objectIds, false);
      for i := 0 to |objectIds|
        invariant Valid()
        invariant CancelledPrefix(t0, w0, n, objectIds, i, false, taskCompletionSources, waiters)
        invariant nextHandle == n
        invariant listener.monitorStops ==
          old(listener.monitorStops) + (if old(listener.isListening) && taskCompletionSources == map[] then 1 else 0)
        invariant listener.monitorStarts == old(listener.monitorStarts)
        invariant listener.disposedValue == old(listener.disposedValue)
      {
        CancelledPrefixStep(t0, w0, n, objectIds, i, false, taskCompletionSources, waiters);
        StopListeningForUnlock(objectIds[i]);
      }
      CancelledPrefixDone(t0, w0, n, objectIds, false, taskCompletionSources, waiters);
    }

    /** Completes with `true` the tasks of the reported ids that have one, and
        stops listening once no task is left. */
    method ReportUnlockedObjects(unlockedObjectIds: seq<string>)
      requires Valid()
      modifies this, listener
      ensures Valid()
      ensures taskCompletionSources == old(taskCompletionSources) - Elements(unlockedObjectIds)
      ensures waiters == Resolve(old(waiters), HandlesOf(old(taskCompletionSources), Elements(unlockedObjectIds)), true)
      ensures nextHandle == old(nextHandle)
      ensures KeepsResolved(old(waiters), waiters)
      ensures listener.monitorStops ==
        old(listener.monitorStops) + (if old(listener.isListening) && taskCompletionSources == map[] then 1 else 0)
      ensures listener.monitorStarts == old(listener.monitorStarts)
      ensures listener.disposedValue == old(listener.disposedValue)
    {
      ghost var t0, w0, n := taskCompletionSources, waiters, nextHandle;
      CancelledPrefixStart(t0, w0, n, unlockedObjectIds, true);
      for i := 0 to |unlockedObjectIds|
        modifies this
        invariant CancelledPrefix(t0, w0, n, unlockedObjectIds, i, true, taskCompletionSources, waiters)
        invariant nextHandle == n
      {
        var unlockedObjectId := unlockedObjectIds[i];
        CancelledPrefixStep(t0, w0, n, unlockedObjectIds, i, true, taskCompletionSources, waiters);
        if unlockedObjectId in taskCompletionSources {
          var handle := taskCompletionSources[unlockedObjectId];
          taskCompletionSources := taskCompletionSources - {unlockedObjectId};
          // SetResult: the task is pending, so this does not throw.
          waiters := waiters[handle := Resolved(true)];
        }
      }
      CancelledPrefixDone(t0, w0, n, unlockedObjectIds, true, taskCompletionSources, waiters);

      if taskCompletionSources == map[] && listener.isListening {
        listener.StopListening();
      }
    }

    /** The first disposal cancels every waiting task and stops listening; a
        later one changes nothing. */
    method Dispose()
      requires Valid()
      modifies this, listener
      ensures Valid()
      ensures listener.disposedValue
      ensures old(listener.disposedValue) ==>
        && taskCompletionSources == old(taskCompletionSources) && waiters == old(waiters)
        && listener.isListening == old(listener.isListening)
        && listener.monitorStops == old(listener.monitorStops)
      ensures !old(listener.disposedValue) ==>
        && taskCompletionSources == map[]
        && waiters == Resolve(old(waiters), old(taskCompletionSources).Values, false)
        && !listener.isListening
        && listener.monitorStops == old(listener.monitorStops) + (if old(listener.isListening) then 1 else 0)
      ensures KeepsResolved(old(waiters), waiters)
      ensures nextHandle == old(nextHandle)
      ensures listener.monitorStarts == old(listener.monitorStarts)
    {
      if !listener.disposedValue {
        ghost var t0 := taskCompletionSources;
        var keys := SetToSequence(taskCompletionSources.Keys);
        StopListeningForUnlocks(keys);
        assert HandlesOf(t0, Elements(keys)) == t0.Values;
        listener.StopListening();
        listener.disposedValue := true;
      }
    }
  }

  /** Disposing after two subscriptions cancels both tasks and stops the
      monitor once. */
  method DisposeCancelsAllScenario() returns (first: WaiterState, second: WaiterState, stops: nat)
    ensures first == Resolved(false) && second == Resolved(false)
    ensures stops == 1
  {
    var l := new UnlockListenerBase();
    var h1 := l.StartListeningForUnlock("objectId");
    var h2 := l.StartListeningForUnlock("different objectId");
    ghost var t0 := l.taskCompletionSources;
    assert t0["objectId"] == h1 && t0["different objectId"] == h2;
    assert h1 in t0.Values && h2 in t0.Values;
    l.Dispose();
    first, second, stops := l.waiters[h1], l.waiters[h2], l.listener.monitorStops;
  }

  /** Cancelling the only subscription stops the monitor it started;
      cancelling an id nobody waits for leaves it running. */
  method StartStopScenario(stopId: string) returns (starts: nat, stops: nat)
    ensures starts == 1
    ensures stops == if stopId == "objectId" then 1 else 0
  {
    var l := new UnlockListenerBase();
    var _ := l.StartListeningForUnlock("objectId");
    l.StopListeningForUnlock(stopId);
    starts, stops := l.listener.monitorStarts, l.listener.monitorStops;
  }

  /** A reported unlock completes the waiting task with `true`; the monitor
      stops exactly when no other id is still waited for. */
  method UnlockReportedScenario(otherWaiter: bool) returns (state: WaiterState, starts: nat, stops: nat)
    ensures state == Resolved(true)
    ensures starts == 1
    ensures stops == if otherWaiter then 0 else 1
  {
    var l := new UnlockListenerBase();
    var h := l.StartListeningForUnlock("objectId");
    if otherWaiter {
      var _ := l.StartListeningForUnlock("different objectId");
    }
    ghost var t0 := l.taskCompletionSources;
    assert t0["objectId"] == h;
    assert Elements(["objectId"]) == {"objectId"};
    assert h in HandlesOf(t0, {"objectId"});
    l.ReportUnlockedObjects(["objectId"]);
    state, starts, stops := l.waiters[h], l.listener.monitorStarts, l.listener.monitorStops;
  }

  /** The position of the first element that repeats an earlier one, or the
      length when there is none. */
  function FirstRepeat<T(==)>(s: seq<T>): (k: nat)
    ensures k <= |s|
    ensures forall j :: 0 <= j < k ==> s[j] !in s[..j]
    ensures k < |s| ==> s[k] in s[..k]
  {
    if s == [] then 0
    else
      var k := FirstRepeat(s[..|s| - 1]);
      assert forall j :: 0 <= j <= |s| - 1 ==> s[..|s| - 1][..j] == s[..j];
      if k < |s| - 1 then k
      else if s[|s| - 1] in s[..|s| - 1] then |s| - 1
      else |s|
  }

  /** In a prefix without duplicates no element repeats an earlier one. */
  lemma NoDupPrefix<T>(s: seq<T>, i: int)
    requires 0 <= i <= |s| && NoDup(s[..i])
    ensures forall k :: 0 <= k < i ==> s[k] !in s[..k]
  {
    forall k | 0 <= k < i ensures s[k] !in s[..k] {
      forall j | 0 <= j < k ensures s[..k][j] != s[k] {
        assert s[..k][j] == s[..i][j] && s[k] == s[..i][k];
      }
    }
  }

  /** The first repetition is at `i` when the elements before `i` are distinct
      and `s[i]` is one of them. */
  lemma NoRepeatBefore<T>(s: seq<T>, i: int)
    requires 0 <= i < |s| && NoDup(s[..i]) && s[i] in s[..i]
    ensures FirstRepeat(s) == i
  {
    NoDupPrefix(s, i);
  }

  /** A sequence has no duplicates exactly when it has no first repetition. */
  lemma NoDupNoRepeat<T>(s: seq<T>)
    ensures NoDup(s) <==> FirstRepeat(s) == |s|
  {
    assert s[..|s|] == s;
    if NoDup(s) {
      NoDupPrefix(s, |s|);
    }
    if FirstRepeat(s) == |s| {
      forall i, j | 0 <= i < j < |s| ensures s[i] != s[j] {
        assert s[i] == s[..j][i];
      }
    }
  }
}
