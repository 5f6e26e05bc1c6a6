/** The client-side front end of the Skyline Lock Manager connector: it
    validates lock requests, sends them to the Lock Manager element, turns the
    response trees into one lock info per object id, sends unlock requests and
    forwards priority subscriptions to its listener.

    The element is reached through the inter-app handler, modelled as a
    function from the requests of one message to the responses it yields; the
    messages sent are recorded in order. Time spans are integer ticks. */
module ConnectorApi {
  import opened Common
  import opened LockMessages
  import opened Listeners
  import opened UnlockListeners
  import opened PriorityListeners

  /** What the caller learns about one object of a lock call. */
  datatype LockInfo = LockInfo(
    objectId: string,
    objectDescription: string,
    contextInfo: string,
    isGranted: bool,
    autoUnlockTimestamp: int,
    priority: int)

  /** One lock info per object id and the time spent waiting for locks. */
  datatype LockObjectsResult = LockObjectsResult(lockInfosPerObjectId: map<string, LockInfo>, totalWaitingTime: int)

  /** A request to release the lock of one object and, optionally, of its
      linked objects. */
  datatype UnlockRequest = UnlockRequest(objectId: string, releaseLinkedObjects: bool)

  /** The inter-app messages the connector sends. */
  datatype Message =
    | LockObjectsRequestsMessage(lockRequests: seq<LockRequest>)
    | UnlockObjectsRequestsMessage(unlockRequests: seq<UnlockRequest>)

  /** A lock info takes the object's description and priority from its
      request, and holder, grant and deadline from its response. */
  function InfoOf(response: LockResponse, request: LockRequest): (info: LockInfo)
    ensures info.objectId == response.objectId && info.contextInfo == response.lockHolderInfo
    ensures info.isGranted == response.lockIsGranted && info.autoUnlockTimestamp == response.autoUnlockTimestamp
    ensures info.objectDescription == request.objectDescription && info.priority == request.priority
  {
    LockInfo(response.objectId, request.objectDescription, response.lockHolderInfo,
             response.lockIsGranted, response.autoUnlockTimestamp, request.priority)
  }

  /** `ValidateRequests`: a null argument is rejected, and so is a set of
      requests whose flattened trees name some object id more than once. */
  function ValidateRequests(requests: Option<seq<LockRequest>>): (o: Outcome)
    ensures requests.None? ==> o == Fail(ArgumentNull)
    ensures requests.Some? ==> (o == Pass <==> NoDup(RequestIds(FlattenRequests(requests.value))))
    ensures requests.Some? && o.Fail? ==> o.error == DuplicateArgument
  {
    match requests
    case None => Fail(ArgumentNull)
    case Some(rs) =>
      var objectIds := RequestIds(FlattenRequests(rs));
      DistinctCount(objectIds);
      if |objectIds| != |Elements(objectIds)| then Fail(DuplicateArgument) else Pass
  }

  /** The requests by object id; for a repeated id the last one is kept. */
  function IndexById(rs: seq<LockRequest>): (m: map<string, LockRequest>)
    ensures m.Keys == set i | 0 <= i < |rs| :: rs[i].objectId
  {
    if rs == [] then map[]
    else
      var n := |rs| - 1;
      var m := IndexById(rs[..n]);
      assert (set i | 0 <= i < |rs| :: rs[i].objectId) == (set i | 0 <= i < n :: rs[..n][i].objectId) + {rs[n].objectId};
      m[rs[n].objectId := rs[n]]
  }

  /** Without repeated ids every request is found under its own id. */
  lemma {:induction false} IndexByIdLookup(rs: seq<LockRequest>, i: int)
    requires NoDup(RequestIds(rs)) && 0 <= i < |rs|
    ensures rs[i].objectId in IndexById(rs) && IndexById(rs)[rs[i].objectId] == rs[i]
  {
    var n := |rs| - 1;
    if i < n {
      assert RequestIds(rs[..n]) == RequestIds(rs)[..n];
      assert RequestIds(rs)[i] != RequestIds(rs)[n];
      IndexByIdLookup(rs[..n], i);
    }
  }

  /** `ToDictionary(req => req.ObjectId)`: the requests by object id, or an
      `ArgumentException` for an id that occurs twice. */
  function RequestsById(rs: seq<LockRequest>): (r: Result<map<string, LockRequest>>)
    ensures r.Success? <==> NoDup(RequestIds(rs))
    ensures r.Failure? ==> r.error == DuplicateArgument
    ensures r.Success? ==> r.value.Keys == Elements(RequestIds(rs))
    ensures r.Success? ==> forall i :: 0 <= i < |rs| ==> rs[i].objectId in r.value && r.value[rs[i].objectId] == rs[i]
  {
    if NoDup(RequestIds(rs)) then
      assert Elements(RequestIds(rs)) == set i | 0 <= i < |rs| :: rs[i].objectId by {
        forall id | id in Elements(RequestIds(rs)) ensures id in set i | 0 <= i < |rs| :: rs[i].objectId {
          var i :| 0 <= i < |rs| && RequestIds(rs)[i] == id;
        }
      }
      forall i | 0 <= i < |rs| ensures rs[i].objectId in IndexById(rs) && IndexById(rs)[rs[i].objectId] == rs[i] {
        IndexByIdLookup(rs, i);
      }
      Success(IndexById(rs))
    else Failure(DuplicateArgument)
  }

  /** The response at `k` has no matching request, or its id was already seen
      earlier in the list. */
  predicate Unmatched(rs: seq<LockResponse>, known: set<string>, k: int)
    requires 0 <= k < |rs|
  {
    rs[k].objectId !in known || exists j :: 0 <= j < k && rs[j].objectId == rs[k].objectId
  }

  /** `k` is the first response the assembly loop cannot add. */
  predicate FirstUnmatched(rs: seq<LockResponse>, known: set<string>, k: int) {
    && 0 <= k < |rs| && Unmatched(rs, known, k)
    && forall j :: 0 <= j < k ==> !Unmatched(rs, known, j)
  }

  /** The outcome of building the result from the flattened requests `rq` and
      the flattened responses `rs`: a repeated request id makes the
      dictionary of requests fail; otherwise the first response without a
      request fails the lookup and the first repeated response id fails the
      `Add`; otherwise every response id gets the lock info of the response
      and its request. */
  ghost predicate Assembled(rq: seq<LockRequest>, rs: seq<LockResponse>, waited: int, r: Result<LockObjectsResult>) {
    var known := Elements(RequestIds(rq));
    && (!NoDup(RequestIds(rq)) ==> r == Failure(DuplicateArgument))
    && (NoDup(RequestIds(rq)) ==>
          && (r.Success? <==> forall k :: 0 <= k < |rs| ==> !Unmatched(rs, known, k))
          && (r.Failure? ==>
                exists k :: (FirstUnmatched(rs, known, k) &&
                             r.error == if rs[k].objectId !in known then KeyNotFound else DuplicateArgument))
          && (r.Success? ==>
                && r.value.totalWaitingTime == waited
                && r.value.lockInfosPerObjectId.Keys == (set k | 0 <= k < |rs| :: rs[k].objectId)
                && forall k, j :: 0 <= k < |rs| && 0 <= j < |rq| && rq[j].objectId == rs[k].objectId ==>
                     r.value.lockInfosPerObjectId[rs[k].objectId] == InfoOf(rs[k], rq[j])))
  }

  /** The assembly loop has added the first `i` responses to `infos`. */
  ghost predicate AssemblyPrefix(rs: seq<LockResponse>, byId: map<string, LockRequest>, i: int, infos: map<string, LockInfo>) {
    && 0 <= i <= |rs|
    && (forall k :: 0 <= k < i ==> !Unmatched(rs, byId.Keys, k))
    && infos.Keys == (set k | 0 <= k < i :: rs[k].objectId)
    && forall k :: 0 <= k < i ==> rs[k].objectId in byId && infos[rs[k].objectId] == InfoOf(rs[k], byId[rs[k].objectId])
  }

  /** One turn of the assembly loop: it stops at the first response without a
      request or with a repeated id, and otherwise adds the response. */
  lemma AssemblyStep(rs: seq<LockResponse>, byId: map<string, LockRequest>, i: int, infos: map<string, LockInfo>)
    requires AssemblyPrefix(rs, byId, i, infos) && i < |rs|
    ensures rs[i].objectId !in byId || rs[i].objectId in infos ==> FirstUnmatched(rs, byId.Keys, i)
    ensures rs[i].objectId in byId && rs[i].objectId !in infos ==>
      AssemblyPrefix(rs, byId, i + 1, infos[rs[i].objectId := InfoOf(rs[i], byId[rs[i].objectId])])
  {
    var id := rs[i].objectId;
    if id in infos {
      var j :| 0 <= j < i && rs[j].objectId == id;
      assert Unmatched(rs, byId.Keys, i);
    } else if id in byId {
      assert !Unmatched(rs, byId.Keys, i);
      var infos' := infos[id := InfoOf(rs[i], byId[id])];
      assert infos'.Keys == (set k | 0 <= k < i + 1 :: rs[k].objectId);
    }
  }

  /** A first unmatched response decides the error, once the requests had no
      repeated id. */
  lemma AssemblyFailure(rq: seq<LockRequest>, rs: seq<LockResponse>, waited: int, byId: map<string, LockRequest>, i: int)
    requires RequestsById(rq) == Success(byId)
    requires FirstUnmatched(rs, byId.Keys, i)
    ensures Assembled(rq, rs, waited, Failure(if rs[i].objectId !in byId then KeyNotFound else DuplicateArgument))
  {
  }

  /** A loop that added every response yields the promised lock infos. */
  lemma AssemblyDone(rq: seq<LockRequest>, rs: seq<LockResponse>, waited: int, byId: map<string, LockRequest>, infos: map<string, LockInfo>)
    requires RequestsById(rq) == Success(byId)
    requires AssemblyPrefix(rs, byId, |rs|, infos)
    ensures Assembled(rq, rs, waited, Success(LockObjectsResult(infos, waited)))
  {
    forall k, j | 0 <= k < |rs| && 0 <= j < |rq| && rq[j].objectId == rs[k].objectId
      ensures infos[rs[k].objectId] == InfoOf(rs[k], rq[j])
    {
      assert byId[rq[j].objectId] == rq[j];
    }
  }

  /** The assembly loop of `LockObjectsInternal`: one lock info per flattened
      response, looked up by id among the flattened requests. */
  method AssembleLockInfos(flatRequests: seq<LockRequest>, flatResponses: seq<LockResponse>, totalWaitingTime: int)
    returns (r: Result<LockObjectsResult>)
    ensures Assembled(flatRequests, flatResponses, totalWaitingTime, r)
  {
    var byId := RequestsById(flatRequests);
    if byId.Failure? {
      return Failure(byId.error);
    }
    var requestsPerObjectId := byId.value;
    var lockInfosPerObjectId: map<string, LockInfo> := map[];
    for i := 0 to |flatResponses|
      invariant AssemblyPrefix(flatResponses, requestsPerObjectId, i, lockInfosPerObjectId)
    {
      AssemblyStep(flatResponses, requestsPerObjectId, i, lockInfosPerObjectId);
      var response := flatResponses[i];
      if response.objectId !in requestsPerObjectId {
        AssemblyFailure(flatRequests, flatResponses, totalWaitingTime, requestsPerObjectId, i);
        return Failure(KeyNotFound);
      }
      if response.objectId in lockInfosPerObjectId {
        AssemblyFailure(flatRequests, flatResponses, totalWaitingTime, requestsPerObjectId, i);
        return Failure(DuplicateArgument);
      }
      lockInfosPerObjectId := lockInfosPerObjectId[response.objectId := InfoOf(response, requestsPerObjectId[response.objectId])];
    }
    AssemblyDone(flatRequests, flatResponses, totalWaitingTime, requestsPerObjectId, lockInfosPerObjectId);
    return Success(LockObjectsResult(lockInfosPerObjectId, totalWaitingTime));
  }

  /** A positive maximum waiting time selects the waiting path. */
  predicate WaitsForLocks(maxWaitingTime: Option<int>) {
    maxWaitingTime.Some? && maxWaitingTime.value > 0
  }

  class SkylineLockManagerConnectorApi {
    /** The round trip of one lock message through the Lock Manager element. */
    const interAppHandler: seq<LockRequest> -> seq<LockResponse>

    /** The final responses and the total waiting time that the waiting loop
        of `LockObjectsWithWait` reaches from the requests, the responses to
        their first message and a positive maximum waiting time. */
    const lockObjectsWithWait: (seq<LockRequest>, seq<LockResponse>, int) -> (seq<LockResponse>, int)

    const unlockListener: UnlockListenerBase
    const higherPrioLockRequestListener: HigherPriorityLockRequestListenerBase

    /** The messages handed to the inter-app handler, in order. */
    var sentMessages: seq<Message>
    var disposedValue: bool

    constructor (interAppHandler: seq<LockRequest> -> seq<LockResponse>,
                 lockObjectsWithWait: (seq<LockRequest>, seq<LockResponse>, int) -> (seq<LockResponse>, int),
                 unlockListener: UnlockListenerBase,
                 higherPrioLockRequestListener: HigherPriorityLockRequestListenerBase)
      requires unlockListener.Valid() && higherPrioLockRequestListener.Valid()
      requires unlockListener.listener != higherPrioLockRequestListener.listener
      ensures Valid()
      ensures this.interAppHandler == interAppHandler && this.lockObjectsWithWait == lockObjectsWithWait
      ensures this.unlockListener == unlockListener
      ensures this.higherPrioLockRequestListener == higherPrioLockRequestListener
      ensures sentMessages == [] && !disposedValue
    {
      this.interAppHandler := interAppHandler;
      this.lockObjectsWithWait := lockObjectsWithWait;
      this.unlockListener := unlockListener;
      this.higherPrioLockRequestListener := higherPrioLockRequestListener;
      sentMessages := [];
      disposedValue := false;
    }

    /** Both listeners are consistent and do not share their listening
        state. */
    predicate Valid()
      reads this, unlockListener, unlockListener.listener
      reads higherPrioLockRequestListener, higherPrioLockRequestListener.listener
    {
      && unlockListener.Valid() && higherPrioLockRequestListener.Valid()
      && unlockListener.listener != higherPrioLockRequestListener.listener
    }

    /** `SendLockObjectRequests`: nothing is sent for no requests; otherwise
        one message carries all of them and its responses are returned. */
    method SendLockObjectRequests(requests: Option<seq<LockRequest>>) returns (r: Result<seq<LockResponse>>)
      modifies this
      ensures requests.None? ==> r == Failure(ArgumentNull) && sentMessages == old(sentMessages)
      ensures requests == Some([]) ==> r == Success([]) && sentMessages == old(sentMessages)
      ensures requests.Some? && requests.value != [] ==>
        && sentMessages == old(sentMessages) + [LockObjectsRequestsMessage(requests.value)]
        && r == Success(interAppHandler(requests.value))
      ensures disposedValue == old(disposedValue)
    {
      if requests.None? {
        return Failure(ArgumentNull);
      }
      var requestsList := requests.value;
      if |requestsList| == 0 {
        return Success([]);
      }
      sentMessages := sentMessages + [LockObjectsRequestsMessage(requestsList)];
      return Success(interAppHandler(requestsList));
    }

    /** `LockObjectsInternal`: rejects null, answers no requests with an
        empty result, and otherwise sends all requests in one message. Without
        a positive maximum waiting time those responses are final. With one,
        the responses and the waiting time come from waiting for unlocks and
        re-sending, after which every flattened id is unsubscribed from the
        unlock listener; the result is built from the final responses. */
    method LockObjectsInternal(requests: Option<seq<LockRequest>>, maxWaitingTime: Option<int>)
      returns (r: Result<LockObjectsResult>)
      requires Valid()
      modifies this, unlockListener, unlockListener.listener
      ensures Valid()
      ensures !(requests.Some? && requests.value != [] && WaitsForLocks(maxWaitingTime)) ==>
        unchanged(unlockListener, unlockListener.listener)
      ensures requests.None? ==> r == Failure(ArgumentNull) && sentMessages == old(sentMessages)
      ensures requests == Some([]) ==>
        r == Success(LockObjectsResult(map[], 0)) && sentMessages == old(sentMessages)
      ensures requests.Some? && requests.value != [] && !WaitsForLocks(maxWaitingTime) ==>
        && sentMessages == old(sentMessages) + [LockObjectsRequestsMessage(requests.value)]
        && Assembled(FlattenRequests(requests.value), FlattenResponses(interAppHandler(requests.value)), 0, r)
      ensures requests.Some? && requests.value != [] && WaitsForLocks(maxWaitingTime) ==>
        && old(sentMessages) + [LockObjectsRequestsMessage(requests.value)] <= sentMessages
        && Elements(RequestIds(FlattenRequests(requests.value))) !! unlockListener.taskCompletionSources.Keys
        && KeepsResolved(old(unlockListener.waiters), unlockListener.waiters)
        && var (responses, waited) := lockObjectsWithWait(requests.value, interAppHandler(requests.value), maxWaitingTime.value);
           Assembled(FlattenRequests(requests.value), FlattenResponses(responses), waited, r)
      ensures disposedValue == old(disposedValue)
    {
      if requests.None? {
        return Failure(ArgumentNull);
      }
      var requestsList := requests.value;
      if |requestsList| == 0 {
        return Success(LockObjectsResult(map[], 0));
      }

      var lockObjectResponses: seq<LockResponse>;
      var totalWaitingTime := 0;
      if maxWaitingTime.Some? && maxWaitingTime.value > 0 {
        // `LockObjectsWithWait`: the first message, the waiting loop, and
        // then every flattened id unsubscribed.
        var initial := SendLockObjectRequests(Some(requestsList));
        var waited := lockObjectsWithWait(requestsList, initial.value, maxWaitingTime.value);
        unlockListener.StopListeningForUnlocks(RequestIds(FlattenRequests(requestsList)));
        lockObjectResponses, totalWaitingTime := waited.0, waited.1;
      } else {
        var sent := SendLockObjectRequests(Some(requestsList));
        lockObjectResponses := sent.value;
      }

      r := AssembleLockInfos(FlattenRequests(requestsList), FlattenResponses(lockObjectResponses), totalWaitingTime);
    }

    /** `LockObjects`: validates all requests before anything is sent. */
    method LockObjects(requests: Option<seq<LockRequest>>, maxWaitingTime: Option<int>)
      returns (r: Result<LockObjectsResult>)
      requires Valid()
      modifies this, unlockListener, unlockListener.listener
      ensures Valid()
      ensures !(ValidateRequests(requests).Pass? && requests.value != [] && WaitsForLocks(maxWaitingTime)) ==>
        unchanged(unlockListener, unlockListener.listener)
      ensures ValidateRequests(requests).Fail? ==>
        r == Failure(ValidateRequests(requests).error) && sentMessages == old(sentMessages)
      ensures requests == Some([]) ==>
        r == Success(LockObjectsResult(map[], 0)) && sentMessages == old(sentMessages)
      ensures ValidateRequests(requests).Pass? && requests.value != [] && !WaitsForLocks(maxWaitingTime) ==>
        && sentMessages == old(sentMessages) + [LockObjectsRequestsMessage(requests.value)]
        && Assembled(FlattenRequests(requests.value), FlattenResponses(interAppHandler(requests.value)), 0, r)
      ensures ValidateRequests(requests).Pass? && requests.value != [] && WaitsForLocks(maxWaitingTime) ==>
        && old(sentMessages) + [LockObjectsRequestsMessage(requests.value)] <= sentMessages
        && Elements(RequestIds(FlattenRequests(requests.value))) !! unlockListener.taskCompletionSources.Keys
        && KeepsResolved(old(unlockListener.waiters), unlockListener.waiters)
        && var (responses, waited) := lockObjectsWithWait(requests.value, interAppHandler(requests.value), maxWaitingTime.value);
           Assembled(FlattenRequests(requests.value), FlattenResponses(responses), waited, r)
      ensures disposedValue == old(disposedValue)
    {
      var validation := ValidateRequests(requests);
      if validation.Fail? {
        return Failure(validation.error);
      }
      r := LockObjectsInternal(requests, maxWaitingTime);
    }

    /** `LockObject`: a single request, validated like a list of one. */
    method LockObject(request: LockRequest, maxWaitingTime: Option<int>) returns (r: Result<LockObjectsResult>)
      requires Valid()
      modifies this, unlockListener, unlockListener.listener
      ensures Valid()
      ensures !(NoDup(RequestIds(request.Flatten())) && WaitsForLocks(maxWaitingTime)) ==>
        unchanged(unlockListener, unlockListener.listener)
      ensures !NoDup(RequestIds(request.Flatten())) ==>
        r == Failure(DuplicateArgument) && sentMessages == old(sentMessages)
      ensures NoDup(RequestIds(request.Flatten())) && !WaitsForLocks(maxWaitingTime) ==>
        && sentMessages == old(sentMessages) + [LockObjectsRequestsMessage([request])]
        && Assembled(request.Flatten(), FlattenResponses(interAppHandler([request])), 0, r)
      ensures NoDup(RequestIds(request.Flatten())) && WaitsForLocks(maxWaitingTime) ==>
        && old(sentMessages) + [LockObjectsRequestsMessage([request])] <= sentMessages
        && Elements(RequestIds(request.Flatten())) !! unlockListener.taskCompletionSources.Keys
        && KeepsResolved(old(unlockListener.waiters), unlockListener.waiters)
        && var (responses, waited) := lockObjectsWithWait([request], interAppHandler([request]), maxWaitingTime.value);
           Assembled(request.Flatten(), FlattenResponses(responses), waited, r)
      ensures disposedValue == old(disposedValue)
    {
      assert FlattenRequests([request]) == request.Flatten() by {
        assert [request][1..] == [];
      }
      r := LockObjects(Some([request]), maxWaitingTime);
    }

    /** `UnlockObjects`: rejects null and sends nothing for no requests;
        otherwise one message carries all of them, in order. */
    method UnlockObjects(requests: Option<seq<UnlockRequest>>) returns (o: Outcome)
      modifies this
      ensures requests.None? ==> o == Fail(ArgumentNull) && sentMessages == old(sentMessages)
      ensures requests.Some? ==> o == Pass
      ensures requests == Some([]) ==> sentMessages == old(sentMessages)
      ensures requests.Some? && requests.value != [] ==>
        sentMessages == old(sentMessages) + [UnlockObjectsRequestsMessage(requests.value)]
      ensures disposedValue == old(disposedValue)
    {
      if requests.None? {
        return Fail(ArgumentNull);
      }
      var requestsList := requests.value;
      if |requestsList| == 0 {
        return Pass;
      }
      sentMessages := sentMessages + [UnlockObjectsRequestsMessage(requestsList)];
      return Pass;
    }

    /** `UnlockObject`: one unlock request in a message of its own. */
    method UnlockObject(request: UnlockRequest)
      modifies this
      ensures sentMessages == old(sentMessages) + [UnlockObjectsRequestsMessage([request])]
      ensures disposedValue == old(disposedValue)
    {
      var _ := UnlockObjects(Some([request]));
    }

    /** Forwards a listen call to the priority listener. */
    method ListenForLockRequestsWithHigherPriorityThan(entries: Option<seq<PriorityEntry>>) returns (o: Outcome)
      requires Valid()
      modifies higherPrioLockRequestListener, higherPrioLockRequestListener.listener
      ensures Valid()
      ensures entries.None? ==> o == Fail(ArgumentNull)
      ensures entries.Some? && entries.value != [] && HasNullValue(entries.value) ==> o == Fail(NullValue)
      ensures entries.Some? && (entries.value == [] || !HasNullValue(entries.value)) ==> o == Pass
      ensures o.Fail? ==>
        higherPrioLockRequestListener.objectIdsAndPriorities == old(higherPrioLockRequestListener.objectIdsAndPriorities)
      ensures o.Pass? ==>
        higherPrioLockRequestListener.objectIdsAndPriorities ==
          ListenAll(old(higherPrioLockRequestListener.objectIdsAndPriorities), entries.value)
      ensures o.Fail? || entries == Some([]) ==>
        && higherPrioLockRequestListener.listener.isListening == old(higherPrioLockRequestListener.listener.isListening)
        && higherPrioLockRequestListener.listener.monitorStarts == old(higherPrioLockRequestListener.listener.monitorStarts)
      ensures o.Pass? && entries != Some([]) ==>
        && higherPrioLockRequestListener.listener.isListening
        && higherPrioLockRequestListener.listener.monitorStarts == old(higherPrioLockRequestListener.listener.monitorStarts) + (if old(higherPrioLockRequestListener.listener.isListening) then 0 else 1)
      ensures higherPrioLockRequestListener.listener.monitorStops == old(higherPrioLockRequestListener.listener.monitorStops)
      ensures higherPrioLockRequestListener.listener.disposedValue == old(higherPrioLockRequestListener.listener.disposedValue)
      ensures higherPrioLockRequestListener.raisedEvents == old(higherPrioLockRequestListener.raisedEvents)
    {
      o := higherPrioLockRequestListener.ListenForLockRequestsWithHigherPriorityThan(entries);
    }

    /** The single-threshold listen overload, as a collection of one entry. */
    method ListenForLockRequestWithHigherPriorityThan(objectId: string, priority: int)
      requires Valid()
      modifies higherPrioLockRequestListener, higherPrioLockRequestListener.listener
      ensures Valid()
      ensures higherPrioLockRequestListener.objectIdsAndPriorities ==
        old(higherPrioLockRequestListener.objectIdsAndPriorities)
          [objectId := Lookup(old(higherPrioLockRequestListener.objectIdsAndPriorities), objectId) + {priority}]
      ensures higherPrioLockRequestListener.listener.isListening
      ensures higherPrioLockRequestListener.listener.monitorStarts == old(higherPrioLockRequestListener.listener.monitorStarts) + (if old(higherPrioLockRequestListener.listener.isListening) then 0 else 1)
      ensures higherPrioLockRequestListener.listener.monitorStops == old(higherPrioLockRequestListener.listener.monitorStops)
      ensures higherPrioLockRequestListener.listener.disposedValue == old(higherPrioLockRequestListener.listener.disposedValue)
      ensures higherPrioLockRequestListener.raisedEvents == old(higherPrioLockRequestListener.raisedEvents)
    {
      var es := [PriorityEntry(objectId, Some([priority]))];
      assert !HasNullValue(es);
      SingleThreshold(higherPrioLockRequestListener.objectIdsAndPriorities, objectId, priority);
      var _ := ListenForLockRequestsWithHigherPriorityThan(Some(es));
    }

    /** Forwards a stop call to the priority listener. */
    method StopListeningForLockRequestsWithHigherPriorityThan(entries: Option<seq<PriorityEntry>>) returns (o: Outcome)
      requires Valid()
      modifies higherPrioLockRequestListener, higherPrioLockRequestListener.listener
      ensures Valid()
      ensures entries.None? ==> o == Fail(ArgumentNull)
      ensures entries.Some? && entries.value != [] && HasNullValue(entries.value) ==> o == Fail(NullValue)
      ensures entries.Some? && (entries.value == [] || !HasNullValue(entries.value)) ==> o == Pass
      ensures o.Fail? ==>
        higherPrioLockRequestListener.objectIdsAndPriorities == old(higherPrioLockRequestListener.objectIdsAndPriorities)
      ensures o.Pass? ==>
        higherPrioLockRequestListener.objectIdsAndPriorities ==
          StopAll(old(higherPrioLockRequestListener.objectIdsAndPriorities), entries.value)
      ensures o.Fail? || entries == Some([]) ==>
        && higherPrioLockRequestListener.listener.isListening == old(higherPrioLockRequestListener.listener.isListening)
        && higherPrioLockRequestListener.listener.monitorStops == old(higherPrioLockRequestListener.listener.monitorStops)
      ensures o.Pass? && entries != Some([]) ==>
        && higherPrioLockRequestListener.listener.isListening == (old(higherPrioLockRequestListener.listener.isListening) && higherPrioLockRequestListener.objectIdsAndPriorities != map[])
        && higherPrioLockRequestListener.listener.monitorStops ==
             old(higherPrioLockRequestListener.listener.monitorStops) + (if old(higherPrioLockRequestListener.listener.isListening) && higherPrioLockRequestListener.objectIdsAndPriorities == map[] then 1 else 0)
      ensures higherPrioLockRequestListener.listener.monitorStarts == old(higherPrioLockRequestListener.listener.monitorStarts)
      ensures higherPrioLockRequestListener.listener.disposedValue == old(higherPrioLockRequestListener.listener.disposedValue)
      ensures higherPrioLockRequestListener.raisedEvents == old(higherPrioLockRequestListener.raisedEvents)
    {
      o := higherPrioLockRequestListener.StopListeningForLockRequestsWithHigherPriorityThan(entries);
    }

    /** The single-threshold stop overload, as a collection of one entry. */
    method StopListeningForLockRequestWithHigherPriorityThan(objectId: string, priority: int)
      requires Valid()
      modifies higherPrioLockRequestListener, higherPrioLockRequestListener.listener
      ensures Valid()
      ensures higherPrioLockRequestListener.objectIdsAndPriorities ==
        StopOne(old(higherPrioLockRequestListener.objectIdsAndPriorities), PriorityEntry(objectId, Some([priority])))
      ensures higherPrioLockRequestListener.listener.isListening == (old(higherPrioLockRequestListener.listener.isListening) && higherPrioLockRequestListener.objectIdsAndPriorities != map[])
      ensures higherPrioLockRequestListener.listener.monitorStops ==
        old(higherPrioLockRequestListener.listener.monitorStops) + (if old(higherPrioLockRequestListener.listener.isListening) && higherPrioLockRequestListener.objectIdsAndPriorities == map[] then 1 else 0)
      ensures higherPrioLockRequestListener.listener.monitorStarts == old(higherPrioLockRequestListener.listener.monitorStarts)
      ensures higherPrioLockRequestListener.listener.disposedValue == old(higherPrioLockRequestListener.listener.disposedValue)
      ensures higherPrioLockRequestListener.raisedEvents == old(higherPrioLockRequestListener.raisedEvents)
    {
      var es := [PriorityEntry(objectId, Some([priority]))];
      assert !HasNullValue(es);
      SingleThreshold(higherPrioLockRequestListener.objectIdsAndPriorities, objectId, priority);
      var _ := StopListeningForLockRequestsWithHigherPriorityThan(Some(es));
    }

    /** The first disposal disposes both listeners, which cancels every task
        still waiting for an unlock; later ones do nothing. */
    method Dispose()
      requires Valid()
      modifies this, unlockListener, unlockListener.listener, higherPrioLockRequestListener.listener
      ensures Valid()
      ensures disposedValue
      ensures sentMessages == old(sentMessages)
      ensures old(disposedValue) ==>
        && unchanged(unlockListener, unlockListener.listener, higherPrioLockRequestListener.listener)
      ensures unlockListener.nextHandle == old(unlockListener.nextHandle)
      ensures unlockListener.listener.monitorStarts == old(unlockListener.listener.monitorStarts)
      ensures higherPrioLockRequestListener.listener.monitorStarts == old(higherPrioLockRequestListener.listener.monitorStarts)
      ensures KeepsResolved(old(unlockListener.waiters), unlockListener.waiters)
      ensures !old(disposedValue) ==>
        && unlockListener.listener.disposedValue && higherPrioLockRequestListener.listener.disposedValue
        && (!old(unlockListener.listener.disposedValue) ==>
              && unlockListener.taskCompletionSources == map[]
              && unlockListener.waiters ==
                   Resolve(old(unlockListener.waiters), old(unlockListener.taskCompletionSources).Values, false)
              && !unlockListener.listener.isListening)
        && (old(unlockListener.listener.disposedValue) ==>
              && unlockListener.taskCompletionSources == old(unlockListener.taskCompletionSources)
              && unlockListener.waiters == old(unlockListener.waiters))
        && (!old(higherPrioLockRequestListener.listener.disposedValue) ==> !higherPrioLockRequestListener.listener.isListening)
        && (old(higherPrioLockRequestListener.listener.disposedValue) ==> higherPrioLockRequestListener.listener.isListening == old(higherPrioLockRequestListener.listener.isListening))
        && (old(unlockListener.listener.disposedValue) ==>
              unlockListener.listener.isListening == old(unlockListener.listener.isListening))
        && unlockListener.listener.monitorStops == old(unlockListener.listener.monitorStops) +
             (if !old(unlockListener.listener.disposedValue) && old(unlockListener.listener.isListening) then 1 else 0)
        && higherPrioLockRequestListener.listener.monitorStops == old(higherPrioLockRequestListener.listener.monitorStops) +
             (if !old(higherPrioLockRequestListener.listener.disposedValue) && old(higherPrioLockRequestListener.listener.isListening) then 1 else 0)
    {
      if !disposedValue {
        unlockListener.Dispose();
        higherPrioLockRequestListener.Dispose();
        disposedValue := true;
      }
    }
  }

  /** Two requests for the same object are rejected before anything is
      sent. */
  lemma DuplicateRequestsRejected(a: LockRequest, b: LockRequest)
    requires a.objectId == b.objectId
    ensures ValidateRequests(Some([a, b])) == Fail(DuplicateArgument)
  {
    var flat := FlattenRequests([a, b]);
    assert [a, b][1..] == [b] && [b][1..] == [];
    assert a.Flatten()[0] == a && b.Flatten()[0] == b;
    assert FlattenRequests([b]) == b.Flatten() + FlattenRequests([]);
    assert flat == a.Flatten() + FlattenRequests([b]);
    assert flat[0] == a && flat[|a.Flatten()|] == b;
    assert RequestIds(flat)[0] == RequestIds(flat)[|a.Flatten()|];
  }

  /** Disposing the connector after a priority subscription and an unlock
      subscription stops each listener's monitor once. */
  method DisposeStopsAllMonitorsScenario(interAppHandler: seq<LockRequest> -> seq<LockResponse>,
                                         lockObjectsWithWait: (seq<LockRequest>, seq<LockResponse>, int) -> (seq<LockResponse>, int))
    returns (unlockStops: nat, priorityStops: nat)
    ensures unlockStops == 1 && priorityStops == 1
  {
    var higherPrio := new HigherPriorityLockRequestListenerBase();
    var unlocks := new UnlockListenerBase();
    higherPrio.ListenForLockRequestWithHigherPriorityThan("objectId", 1);
    var _ := unlocks.StartListeningForUnlock("objectId");
    var api := new SkylineLockManagerConnectorApi(interAppHandler, lockObjectsWithWait, unlocks, higherPrio);
    api.Dispose();
    unlockStops, priorityStops := unlocks.listener.monitorStops, higherPrio.listener.monitorStops;
  }

  /** Locking one object without a positive waiting time makes one round
      trip and neither starts nor stops the unlock listener; with one, the
      first message is sent all the same. */
  method LockWithoutWaitScenario(interAppHandler: seq<LockRequest> -> seq<LockResponse>,
                                 lockObjectsWithWait: (seq<LockRequest>, seq<LockResponse>, int) -> (seq<LockResponse>, int),
                                 maxWaitingTime: Option<int>)
    returns (sent: nat, unlockStarts: nat, unlockStops: nat)
    ensures !WaitsForLocks(maxWaitingTime) ==> sent == 1
    ensures WaitsForLocks(maxWaitingTime) ==> sent >= 1
    ensures !WaitsForLocks(maxWaitingTime) ==> unlockStarts == 0 && unlockStops == 0
  {
    var higherPrio := new HigherPriorityLockRequestListenerBase();
    var unlocks := new UnlockListenerBase();
    var api := new SkylineLockManagerConnectorApi(interAppHandler, lockObjectsWithWait, unlocks, higherPrio);
    var request := NewLockRequest("objectId", "", "");
    assert RequestIds(request.Flatten()) == ["objectId"];
    var _ := api.LockObject(request, maxWaitingTime);
    sent, unlockStarts, unlockStops := |api.sentMessages|, unlocks.listener.monitorStarts, unlocks.listener.monitorStops;
  }
}
