/** The priority-preemption registry of the connector: for each object id a
    set of priority thresholds. A lock request for a registered id whose
    priority is below one of its thresholds (a lower value is more urgent) is
    reported as a higher-priority request. */
module PriorityListeners {
  import opened Common
  import opened Listeners
  import opened LockMessages

  /** One key-value pair of the argument of the bulk listen and stop calls:
      an object id and its thresholds, `None` standing for a null collection. */
  datatype PriorityEntry = PriorityEntry(objectId: string, priorities: Option<seq<int>>)

  type Registry = map<string, set<int>>

  /** The ids named by the entries. */
  function EntryIds(es: seq<PriorityEntry>): set<string> {
    if es == [] then {} else EntryIds(es[..|es| - 1]) + {es[|es| - 1].objectId}
  }

  /** The union of the thresholds the entries give for `id`. */
  function PrioritiesFor(es: seq<PriorityEntry>, id: string): set<int> {
    if es == [] then {}
    else
      var e := es[|es| - 1];
      PrioritiesFor(es[..|es| - 1], id) + (if e.objectId == id then Elements(e.priorities.GetOr([])) else {})
  }

  /** Some entry carries a null collection of thresholds. */
  predicate HasNullValue(es: seq<PriorityEntry>) {
    exists i :: 0 <= i < |es| && es[i].priorities.None?
  }

  /** The thresholds registered for `id`, empty when it has none. */
  function Lookup(m: Registry, id: string): set<int> {
    if id in m then m[id] else {}
  }

  /** `GetOrAdd` followed by `UnionWith` for one entry. */
  function ListenOne(m: Registry, e: PriorityEntry): (r: Registry)
    ensures r.Keys == m.Keys + {e.objectId}
    ensures r[e.objectId] == Lookup(m, e.objectId) + Elements(e.priorities.GetOr([]))
    ensures forall k :: k in m && k != e.objectId ==> r[k] == m[k]
  {
    m[e.objectId := Lookup(m, e.objectId) + Elements(e.priorities.GetOr([]))]
  }

  /** `TryGetValue`, `ExceptWith` and, when nothing is left, `TryRemove` for
      one entry. */
  function StopOne(m: Registry, e: PriorityEntry): (r: Registry)
    ensures r.Keys <= m.Keys
    ensures forall k :: k in m && k != e.objectId ==> k in r && r[k] == m[k]
    ensures e.objectId in r ==>
      r[e.objectId] == m[e.objectId] - Elements(e.priorities.GetOr([])) && r[e.objectId] != {}
    ensures e.objectId in m && e.objectId !in r ==> m[e.objectId] <= Elements(e.priorities.GetOr([]))
  {
    if e.objectId in m then
      var rest := m[e.objectId] - Elements(e.priorities.GetOr([]));
      if rest == {} then
        assert forall p :: p in m[e.objectId] ==> p in rest || p in Elements(e.priorities.GetOr([]));
        m - {e.objectId}
      else m[e.objectId := rest]
    else m
  }

  /** The entries handled one after the other by the listen loop. */
  function ListenAll(m: Registry, es: seq<PriorityEntry>): (r: Registry)
    ensures m.Keys <= r.Keys
  {
    if es == [] then m else ListenOne(ListenAll(m, es[..|es| - 1]), es[|es| - 1])
  }

  /** The entries handled one after the other by the stop loop. */
  function StopAll(m: Registry, es: seq<PriorityEntry>): (r: Registry)
    ensures r.Keys <= m.Keys
  {
    if es == [] then m else StopOne(StopAll(m, es[..|es| - 1]), es[|es| - 1])
  }

  /** `r` is the registry after listening for all entries: every named id is
      present and its thresholds are its old ones together with all it is
      given. */
  ghost predicate Listened(m: Registry, es: seq<PriorityEntry>, r: Registry) {
    && r.Keys == m.Keys + EntryIds(es)
    && forall id :: id in r ==> r[id] == Lookup(m, id) + PrioritiesFor(es, id)
  }

  /** `r` is the registry after stopping for all entries: the given thresholds
      are removed, a named id disappears once it has none left, and an id
      nobody names stays as it was. */
  ghost predicate Unlistened(m: Registry, es: seq<PriorityEntry>, r: Registry) {
    && (forall id :: id in r <==> id in m && (id !in EntryIds(es) || m[id] - PrioritiesFor(es, id) != {}))
    && forall id :: id in r ==> r[id] == m[id] - PrioritiesFor(es, id)
  }

  /** The entry ids and thresholds of a prefix that grows by one entry. */
  lemma EntriesSnoc(es: seq<PriorityEntry>, i: int)
    requires 0 <= i < |es|
    ensures EntryIds(es[..i + 1]) == EntryIds(es[..i]) + {es[i].objectId}
    ensures forall id ::
      (PrioritiesFor(es[..i + 1], id) ==
       PrioritiesFor(es[..i], id) + (if es[i].objectId == id then Elements(es[i].priorities.GetOr([])) else {}))
  {
    assert es[..i + 1][..i] == es[..i];
  }

  /** An id no entry names is given no thresholds. */
  lemma {:induction false} PrioritiesOutside(es: seq<PriorityEntry>, id: string)
    requires id !in EntryIds(es)
    ensures PrioritiesFor(es, id) == {}
  {
    if es != [] {
      PrioritiesOutside(es[..|es| - 1], id);
    }
  }

  /** A single entry for one threshold. */
  lemma SingleThreshold(m: Registry, objectId: string, threshold: int)
    ensures var e := PriorityEntry(objectId, Some([threshold]));
      && ListenAll(m, [e]) == m[objectId := Lookup(m, objectId) + {threshold}]
      && StopAll(m, [e]) == StopOne(m, e)
      && Elements(e.priorities.GetOr([])) == {threshold}
  {
    var e := PriorityEntry(objectId, Some([threshold]));
    assert [e][..0] == [];
    assert Elements([threshold]) == {threshold};
    assert ListenAll(m, [e]) == ListenOne(ListenAll(m, []), e);
    assert StopAll(m, [e]) == StopOne(StopAll(m, []), e);
  }

  /** The loops' prefix grows by one entry. */
  lemma AllSnoc(m: Registry, es: seq<PriorityEntry>, i: int)
    requires 0 <= i < |es|
    ensures ListenAll(m, es[..i + 1]) == ListenOne(ListenAll(m, es[..i]), es[i])
    ensures StopAll(m, es[..i + 1]) == StopOne(StopAll(m, es[..i]), es[i])
  {
    assert es[..i + 1][..i] == es[..i];
  }

  /** The listen loop computes the closed form, in whatever order the entries
      come. */
  lemma {:induction false} ListenAllSpec(m: Registry, es: seq<PriorityEntry>)
    ensures Listened(m, es, ListenAll(m, es))
  {
    if es != [] {
      var n := |es| - 1;
      var p, e := es[..n], es[n];
      ListenAllSpec(m, p);
      EntriesSnoc(es, n);
      assert es[..n + 1] == es;
      var before, after := ListenAll(m, p), ListenAll(m, es);
      assert after == ListenOne(before, e);
      forall id | id in after ensures after[id] == Lookup(m, id) + PrioritiesFor(es, id) {
        if id == e.objectId && id !in before {
          PrioritiesOutside(p, id);
        }
      }
    }
  }

  /** The stop loop computes the closed form, whatever the order in which
      thresholds run out. */
  lemma {:induction false} StopAllSpec(m: Registry, es: seq<PriorityEntry>)
    ensures Unlistened(m, es, StopAll(m, es))
  {
    if es != [] {
      var n := |es| - 1;
      var p, e := es[..n], es[n];
      StopAllSpec(m, p);
      EntriesSnoc(es, n);
      assert es[..n + 1] == es;
      var before, after := StopAll(m, p), StopAll(m, es);
      assert after == StopOne(before, e);
      var x := e.objectId;
      forall id | id != x
        ensures (id in after <==> id in before) && (id in after ==> after[id] == before[id])
        ensures PrioritiesFor(es, id) == PrioritiesFor(p, id)
      {
      }
      if x in m && x !in before {
        assert m[x] - PrioritiesFor(es, x) <= m[x] - PrioritiesFor(p, x);
      }
    }
  }

  /** The match rule of `ReportHigherPrioLockObjectRequest`: the id is
      registered with a threshold above the request's priority. */
  predicate IsHigherPriority(m: Registry, objectId: string, priority: int): (b: bool)
    ensures b ==> objectId in m && m[objectId] != {}
  {
    objectId in m && exists p :: p in m[objectId] && priority < p
  }

  /** Listening for one threshold adds exactly the requests below it to those
      that fire. */
  lemma ListenedHigherPriority(m: Registry, objectId: string, threshold: int, id: string, priority: int)
    ensures var m' := ListenAll(m, [PriorityEntry(objectId, Some([threshold]))]);
      IsHigherPriority(m', id, priority) <==>
        IsHigherPriority(m, id, priority) || (id == objectId && priority < threshold)
  {
    var e := PriorityEntry(objectId, Some([threshold]));
    SingleThreshold(m, objectId, threshold);
    var m' := ListenAll(m, [e]);
    if id == objectId {
      assert m'[id] == Lookup(m, id) + {threshold};
      if IsHigherPriority(m, id, priority) {
        var p :| p in m[id] && priority < p;
        assert p in m'[id];
      }
      if priority < threshold {
        assert threshold in m'[id];
      }
      if IsHigherPriority(m', id, priority) && priority >= threshold {
        var p :| p in m'[id] && priority < p;
        assert p in m[id];
      }
    } else {
      assert (id in m' <==> id in m) && (id in m ==> m'[id] == m[id]);
    }
  }

  /** Stopping for one threshold silences exactly the requests that only it
      made fire. */
  lemma StoppedHigherPriority(m: Registry, objectId: string, threshold: int, id: string, priority: int)
    ensures var m' := StopAll(m, [PriorityEntry(objectId, Some([threshold]))]);
      IsHigherPriority(m', id, priority) <==>
        IsHigherPriority(m, id, priority) && (id != objectId || exists p :: p in m[id] && p != threshold && priority < p)
  {
    var e := PriorityEntry(objectId, Some([threshold]));
    SingleThreshold(m, objectId, threshold);
    var m' := StopAll(m, [e]);
    if id == objectId && objectId in m {
      var rest := m[id] - {threshold};
      assert rest != {} ==> id in m' && m'[id] == rest;
      assert rest == {} ==> id !in m';
      if exists p :: p in m[id] && p != threshold && priority < p {
        var p :| p in m[id] && p != threshold && priority < p;
        assert p in rest;
      }
      if IsHigherPriority(m', id, priority) {
        var p :| p in m'[id] && priority < p;
        assert p in m[id] && p != threshold;
      }
    } else if id != objectId {
      assert (id in m' <==> id in m) && (id in m ==> m'[id] == m[id]);
    }
  }

  /** Stopping for a threshold that was just added, and was not there
      before, restores the registry. */
  lemma ListenThenStop(m: Registry, objectId: string, threshold: int)
    requires threshold !in Lookup(m, objectId)
    requires objectId in m ==> m[objectId] != {}
    ensures var es := [PriorityEntry(objectId, Some([threshold]))];
      StopAll(ListenAll(m, es), es) == m
  {
    var e := PriorityEntry(objectId, Some([threshold]));
    SingleThreshold(m, objectId, threshold);
    var m' := ListenOne(m, e);
    SingleThreshold(m', objectId, threshold);
    assert m'[objectId] - {threshold} == Lookup(m, objectId);
    if objectId !in m {
      assert m' - {objectId} == m;
    } else {
      assert m'[objectId := m[objectId]] == m;
    }
  }

  class HigherPriorityLockRequestListenerBase {
    /** The start/stop state this listener inherits. */
    const listener: Listener

    var objectIdsAndPriorities: Registry

    /** The requests the `HigherPriorityLockRequestReceived` event was raised
        for, in order. */
    var raisedEvents: seq<LockRequest>

    constructor ()
      ensures Valid() && fresh(listener)
      ensures objectIdsAndPriorities == map[] && raisedEvents == []
      ensures !listener.isListening && !listener.disposedValue
      ensures listener.monitorStarts == 0 && listener.monitorStops == 0
    {
      listener := new Listener();
      objectIdsAndPriorities := map[];
      raisedEvents := [];
    }

    /** The listener listens only while some id is registered and, until it
        is disposed, whenever one is. */
    predicate Valid()
      reads this, listener
    {
      && listener.Idle() && listener.Balanced()
      && (listener.isListening ==> objectIdsAndPriorities != map[])
      && (!listener.disposedValue && objectIdsAndPriorities != map[] ==> listener.isListening)
    }

    /** Registers every entry's thresholds, after rejecting a null argument
        or a null collection of thresholds, and starts listening. */
    method ListenForLockRequestsWithHigherPriorityThan(entries: Option<seq<PriorityEntry>>) returns (o: Outcome)
      requires Valid()
      modifies this, listener
      ensures Valid()
      ensures entries.None? ==> o == Fail(ArgumentNull)
      ensures entries.Some? && entries.value != [] && HasNullValue(entries.value) ==> o == Fail(NullValue)
      ensures entries.Some? && (entries.value == [] || !HasNullValue(entries.value)) ==> o == Pass
      ensures o.Fail? ==> objectIdsAndPriorities == old(objectIdsAndPriorities)
      ensures o.Pass? ==>
        && objectIdsAndPriorities == ListenAll(old(objectIdsAndPriorities), entries.value)
        && Listened(old(objectIdsAndPriorities), entries.value, objectIdsAndPriorities)
      ensures o.Fail? || entries == Some([]) ==>
        && listener.isListening == old(listener.isListening)
        && listener.monitorStarts == old(listener.monitorStarts)
      ensures o.Pass? && entries != Some([]) ==>
        && listener.isListening
        && listener.monitorStarts == old(listener.monitorStarts) + (if old(listener.isListening) then 0 else 1)
      ensures listener.monitorStops == old(listener.monitorStops)
      ensures listener.disposedValue == old(listener.disposedValue)
      ensures raisedEvents == old(raisedEvents)
    {
      if entries.None? {
        return Fail(ArgumentNull);
      }
      var es := entries.value;
      ghost var m0 := objectIdsAndPriorities;
      ListenAllSpec(m0, es);
      if |es| == 0 {
        return Pass;
      }
      if exists i :: 0 <= i < |es| && es[i].priorities.None? {
        return Fail(NullValue);
      }

      assert es[..0] == [];
      for i := 0 to |es|
        invariant objectIdsAndPriorities == ListenAll(m0, es[..i])
        invariant unchanged(listener)
        invariant raisedEvents == old(raisedEvents)
      {
        AllSnoc(m0, es, i);
        var objectId := es[i].objectId;
        var priorities := Lookup(objectIdsAndPriorities, objectId);
        objectIdsAndPriorities := objectIdsAndPriorities[objectId := priorities + Elements(es[i].priorities.value)];
      }
      assert es[..|es|] == es;
      assert es[0].objectId in objectIdsAndPriorities by {
        EntryIdsMember(es, 0);
      }

      if objectIdsAndPriorities != map[] && !listener.isListening {
        listener.StartListening();
      }
      return Pass;
    }

    /** The single-threshold overload: registers `priority` for `objectId`. */
    method ListenForLockRequestWithHigherPriorityThan(objectId: string, priority: int)
      requires Valid()
      modifies this, listener
      ensures Valid()
      ensures objectIdsAndPriorities ==
        old(objectIdsAndPriorities)[objectId := Lookup(old(objectIdsAndPriorities), objectId) + {priority}]
      ensures listener.isListening
      ensures listener.monitorStarts == old(listener.monitorStarts) + (if old(listener.isListening) then 0 else 1)
      ensures listener.monitorStops == old(listener.monitorStops)
      ensures listener.disposedValue == old(listener.disposedValue)
      ensures raisedEvents == old(raisedEvents)
    {
      var es := [PriorityEntry(objectId, Some([priority]))];
      assert !HasNullValue(es);
      assert es[..0] == [];
      assert Elements([priority]) == {priority};
      var _ := ListenForLockRequestsWithHigherPriorityThan(Some(es));
    }

    /** Removes every entry's thresholds, after rejecting a null argument or a
        null collection of thresholds, and stops listening once no id is
        left. */
    method StopListeningForLockRequestsWithHigherPriorityThan(entries: Option<seq<PriorityEntry>>) returns (o: Outcome)
      requires Valid()
      modifies this, listener
      ensures Valid()
      ensures entries.None? ==> o == Fail(ArgumentNull)
      ensures entries.Some? && entries.value != [] && HasNullValue(entries.value) ==> o == Fail(NullValue)
      ensures entries.Some? && (entries.value == [] || !HasNullValue(entries.value)) ==> o == Pass
      ensures o.Fail? ==> objectIdsAndPriorities == old(objectIdsAndPriorities)
      ensures o.Pass? ==>
        && objectIdsAndPriorities == StopAll(old(objectIdsAndPriorities), entries.value)
        && Unlistened(old(objectIdsAndPriorities), entries.value, objectIdsAndPriorities)
      ensures o.Fail? || entries == Some([]) ==>
        && listener.isListening == old(listener.isListening)
        && listener.monitorStops == old(listener.monitorStops)
      ensures o.Pass? && entries != Some([]) ==>
        && listener.isListening == (old(listener.isListening) && objectIdsAndPriorities != map[])
        && listener.monitorStops ==
             old(listener.monitorStops) + (if old(listener.isListening) && objectIdsAndPriorities == map[] then 1 else 0)
      ensures listener.monitorStarts == old(listener.monitorStarts)
      ensures listener.disposedValue == old(listener.disposedValue)
      ensures raisedEvents == old(raisedEvents)
    {
      if entries.None? {
        return Fail(ArgumentNull);
      }
      var es := entries.value;
      ghost var m0 := objectIdsAndPriorities;
      StopAllSpec(m0, es);
      if |es| == 0 {
        return Pass;
      }
      if exists i :: 0 <= i < |es| && es[i].priorities.None? {
        return Fail(NullValue);
      }

      assert es[..0] == [];
      for i := 0 to |es|
        invariant objectIdsAndPriorities == StopAll(m0, es[..i])
        invariant unchanged(listener)
        invariant raisedEvents == old(raisedEvents)
      {
        AllSnoc(m0, es, i);
        var objectId := es[i].objectId;
        if objectId in objectIdsAndPriorities {
          var priorities := objectIdsAndPriorities[objectId] - Elements(es[i].priorities.value);
          if priorities == {} {
            objectIdsAndPriorities := objectIdsAndPriorities - {objectId};
          } else {
            objectIdsAndPriorities := objectIdsAndPriorities[objectId := priorities];
          }
        }
      }
      assert es[..|es|] == es;
      assert objectIdsAndPriorities.Keys <= m0.Keys;

      if objectIdsAndPriorities == map[] && listener.isListening {
        listener.StopListening();
      }
      return Pass;
    }

    /** The single-threshold overload: removes `priority` for `objectId`. */
    method StopListeningForLockRequestWithHigherPriorityThan(objectId: string, priority: int)
      requires Valid()
      modifies this, listener
      ensures Valid()
      ensures objectId !in old(objectIdsAndPriorities) ==> objectIdsAndPriorities == old(objectIdsAndPriorities)
      ensures objectId in old(objectIdsAndPriorities) ==>
        var rest := old(objectIdsAndPriorities)[objectId] - {priority};
        objectIdsAndPriorities ==
          if rest == {} then old(objectIdsAndPriorities) - {objectId} else old(objectIdsAndPriorities)[objectId := rest]
      ensures listener.isListening == (old(listener.isListening) && objectIdsAndPriorities != map[])
      ensures listener.monitorStops ==
        old(listener.monitorStops) + (if old(listener.isListening) && objectIdsAndPriorities == map[] then 1 else 0)
      ensures listener.monitorStarts == old(listener.monitorStarts)
      ensures listener.disposedValue == old(listener.disposedValue)
      ensures raisedEvents == old(raisedEvents)
    {
      var es := [PriorityEntry(objectId, Some([priority]))];
      assert !HasNullValue(es);
      assert es[..0] == [];
      assert Elements([priority]) == {priority};
      var _ := StopListeningForLockRequestsWithHigherPriorityThan(Some(es));
    }

    /** Raises the event for `lockObjectRequest` exactly when it has a higher
        priority than a threshold registered for its object. */
    method ReportHigherPrioLockObjectRequest(lockObjectRequest: LockRequest)
      modifies this
      ensures raisedEvents == old(raisedEvents) +
        (if IsHigherPriority(objectIdsAndPriorities, lockObjectRequest.objectId, lockObjectRequest.priority)
         then [lockObjectRequest] else [])
      ensures objectIdsAndPriorities == old(objectIdsAndPriorities)
    {
      var objectIdFromLockRequest := lockObjectRequest.objectId;
      var priorityFromLockRequest := lockObjectRequest.priority;
      if objectIdFromLockRequest in objectIdsAndPriorities
        && exists prio :: prio in objectIdsAndPriorities[objectIdFromLockRequest] && priorityFromLockRequest < prio
      {
        raisedEvents := raisedEvents + [lockObjectRequest];
      }
    }

    /** The first disposal stops listening; the registry is left as it is. */
    method Dispose()
      requires Valid()
      modifies listener
      ensures Valid()
      ensures listener.disposedValue
      ensures !old(listener.disposedValue) ==> !listener.isListening
      ensures old(listener.disposedValue) ==> listener.isListening == old(listener.isListening)
      ensures listener.monitorStops ==
        old(listener.monitorStops) + (if !old(listener.disposedValue) && old(listener.isListening) then 1 else 0)
      ensures listener.monitorStarts == old(listener.monitorStarts)
    {
      if !listener.disposedValue {
        listener.StopListening();
        listener.disposedValue := true;
      }
    }
  }

  /** Every entry's id is among the entry ids. */
  lemma {:induction false} EntryIdsMember(es: seq<PriorityEntry>, i: int)
    requires 0 <= i < |es|
    ensures es[i].objectId in EntryIds(es)
  {
    if i < |es| - 1 {
      EntryIdsMember(es[..|es| - 1], i);
    }
  }

  /** Listening for one threshold and disposing stops the monitor once. */
  method DisposeAfterListenScenario() returns (stops: nat)
    ensures stops == 1
  {
    var l := new HigherPriorityLockRequestListenerBase();
    l.ListenForLockRequestWithHigherPriorityThan("objectId", 1);
    l.Dispose();
    stops := l.listener.monitorStops;
  }

  /** Stopping for the threshold just listened for stops the monitor it
      started; stopping for another threshold leaves it running. */
  method ListenThenStopScenario(stopPriority: int) returns (starts: nat, stops: nat)
    ensures starts == 1
    ensures stops == if stopPriority == 1 then 1 else 0
  {
    var l := new HigherPriorityLockRequestListenerBase();
    l.ListenForLockRequestWithHigherPriorityThan("objectId", 1);
    l.StopListeningForLockRequestWithHigherPriorityThan("objectId", stopPriority);
    starts, stops := l.listener.monitorStarts, l.listener.monitorStops;
  }

  /** With a threshold of 5, a request for the object is raised exactly when
      its priority is below 5. */
  method ThresholdFiveScenario(priority: int) returns (raised: seq<LockRequest>)
    ensures |raised| <= 1
    ensures raised != [] <==> priority < 5
    ensures forall r :: r in raised ==> r.objectId == "objectId" && r.priority < 5
  {
    var l := new HigherPriorityLockRequestListenerBase();
    l.ListenForLockRequestWithHigherPriorityThan("objectId", 5);
    assert Lookup(map[], "objectId") == {};
    assert l.objectIdsAndPriorities["objectId"] == {5};
    l.ReportHigherPrioLockObjectRequest(LockRequest("objectId", "", "", [], None, priority));
    raised := l.raisedEvents;
  }
}
