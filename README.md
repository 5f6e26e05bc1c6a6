# Skyline Lock Manager: lock table, listeners and connector front end

This project is a Dafny model of the Skyline Lock Manager, a DataMiner
service that hands out exclusive locks on named objects. It has two halves,
and the model keeps them apart as the code does.

- **The lock table** (`LockTable`, file `lock_manager.dfy`). The `LockManager`
  class holds a dictionary from object id to the record of the lock on it.
  - `RequestLock` takes a tree of lock requests. It fills in the default
    auto-unlock span of one hour wherever a node lacks one. It answers with
    one response per node, children before their parent. It commits a record
    for every node only when no node of the tree is held, so the grant is all
    or nothing.
  - `UnlockExpiredObjects` drops the records whose deadline lies strictly
    before now. `UnlockObject` releases one id and can cascade over the ids
    its record links to. `UnlockAllObjects` clears the table.
- **The client side of the connector**:
  - the request and response trees and their pre-order `Flatten`
    (`LockMessages`);
  - the start/stop state machine every listener shares (`Listeners`);
  - the registry of tasks waiting for an unlock (`UnlockListeners`);
  - the registry of priority thresholds that decides when a competing lock
    request is reported (`PriorityListeners`);
  - the `SkylineLockManagerConnectorApi` front end (`ConnectorApi`). It
    rejects duplicate object ids, chooses between the no-wait and the wait
    path, and builds one lock info per object id from the response trees.

Conventions used throughout:
- Times and time spans are integer ticks (100 ns). The current time is the
  parameter `now`.
- A priority is an `int` where a lower value is more urgent (the
  `ILockBaseInfo.Priority` convention). Medium, a new request's priority,
  is 2.
- An exception the code throws on purpose becomes a `Failure` or `Fail`
  value. It names the exception: `ArgumentNull`, `DuplicateArgument` (an
  `ArgumentException` for a repeated key), `NullValue` (an
  `ArgumentException` for a null entry) or `KeyNotFound`.
- The inter-app handler, which carries messages to the Lock Manager
  element, is a function from the requests of one message to the responses
  that come back. The connector records the messages it sends, in order. On
  the wait path only the first message is recorded; the messages sent again
  while waiting belong to the waiting loop, which is a parameter.
- `StartMonitor` and `StopMonitor` are counted, as the test doubles count
  them.
- A waiting task is a numbered handle whose state is `Pending` or
  `Resolved(result)`.

## Model

| member | source | states |
|---|---|---|
| `Common.DistinctCount` | ConnectorAPI.SkylineLockManager/ConnectorApi/SkylineLockManagerConnectorApi.cs:290-297 | counting distinct ids finds a duplicate exactly: the list is as long as its set of elements iff no element repeats |
| `LockMessages.NewLockRequest` | ConnectorAPI.SkylineLockManager/ConnectorApi/Messages/Locking/LockObjectRequest.cs:35-47 | a new request has no linked requests, no span and Medium priority, and flattens to exactly itself |
| `LockMessages.LockRequest.Flatten` | ConnectorAPI.SkylineLockManager/ConnectorApi/Messages/Locking/LockObjectRequest.cs:57-73 | the flattening is never empty and starts with the request itself |
| `LockMessages.RequestFlattenSpec` | ConnectorAPI.SkylineLockManager/ConnectorApi/Messages/Locking/LockObjectRequest.cs:57-73 | `Flatten` starts with the request itself, has one element per node of the tree, and holds exactly the tree's nodes |
| `LockMessages.FlattenRequestsAppend` | ConnectorAPI.SkylineLockManager/ConnectorApi/Messages/Locking/LockObjectRequest.cs:66-72 | flattening a list of requests is the concatenation of flattenings in list order |
| `LockMessages.RequestFlattenIsPreOrder` | ConnectorAPI.SkylineLockManager/ConnectorApi/Messages/Locking/LockObjectRequest.cs:59-72 | a root with two children that each have one child flattens to root, child 1, grandchild 1, child 2, grandchild 2 |
| `LockMessages.NewLockResponse` | ConnectorAPI.SkylineLockManager/ConnectorApi/Messages/Locking/LockObjectResponse.cs:39 | a new response has no linked responses, is neither granted nor available, and flattens to exactly itself |
| `LockMessages.LockResponse.Flatten` | ConnectorAPI.SkylineLockManager/ConnectorApi/Messages/Locking/LockObjectResponse.cs:49-65 | the flattening is never empty and starts with the response itself |
| `LockMessages.ResponseFlattenSpec` | ConnectorAPI.SkylineLockManager/ConnectorApi/Messages/Locking/LockObjectResponse.cs:49-65 | `Flatten` starts with the response itself, has one element per node, and holds exactly the tree's nodes |
| `LockMessages.FlattenResponsesAppend` | ConnectorAPI.SkylineLockManager/ConnectorApi/Messages/Locking/LockObjectResponse.cs:58-64 | flattening a list of responses is the concatenation of flattenings in list order |
| `LockMessages.ResponseFlattenIsPreOrder` | ConnectorAPI.SkylineLockManagerTests/LockObjectResponseTests.cs:27-49 | depth-first pre-order on the two-level tree of the test |
| `LockTable.SetAutoUnlockTimeSpan` | ConnectorAPI.SkylineLockManager/LockManager/LockManager.cs:98-106 | the node keeps its id, description, requester, priority and number of children; a supplied span is kept and a missing one becomes the default |
| `LockTable.SetAutoUnlockTimeSpans` | ConnectorAPI.SkylineLockManager/LockManager/LockManager.cs:102-105 | one normalised request per linked request, each under the same id in the same position |
| `LockTable.SetAutoUnlockTimeSpanFlatten` | ConnectorAPI.SkylineLockManager/LockManager/LockManager.cs:98-106 | node by node in flattening order, normalisation keeps id, description, requester, priority and children's ids, keeps a supplied span and sets a missing one to the default |
| `LockTable.NormalizedHasSpans` | ConnectorAPI.SkylineLockManager/LockManager/LockManager.cs:100-105 | after normalisation every node of the tree has a span |
| `LockTable.NormalizedIds` | ConnectorAPI.SkylineLockManager/LockManager/LockManager.cs:98-106 | normalisation keeps the tree's ids, as a set and position by position, so whether the tree is free is unchanged |
| `LockTable.PostOrderSpec` | ConnectorAPI.SkylineLockManager/LockManager/LockManager.cs:113-138 | the children-first order is a rearrangement of the flattening, has one entry per node and ends with the root |
| `LockTable.NormalizedAvailability` | ConnectorAPI.SkylineLockManager/LockManager/LockManager.cs:49-51 | checking availability of the normalised tree gives the same responses as for the tree as given |
| `LockTable.GrantedIffFree` | ConnectorAPI.SkylineLockManager/LockManager/LockManager.cs:53 | every response of the availability check is granted iff no node's id is held |
| `LockTable.ReachAfterRemoval` | ConnectorAPI.SkylineLockManager/LockManager/LockManager.cs:84-87 | after the ids a link-closed set reaches are removed, cascading from another id removes what it reaches outside that set, which is why a cascade over linked ids in turn removes the union of what each reaches |
| `LockTable.CascadeOneLevel` | ConnectorAPI.SkylineLockManager/LockManager/LockManager.cs:82-93 | when the linked records have no links of their own, a cascade removes the id and exactly those of its linked ids that are held |
| `LockTable.LockManager.constructor` | ConnectorAPI.SkylineLockManager/LockManager/LockManager.cs:25-28 | the table starts as the given dictionary, or empty for null |
| `LockTable.LockManager.UnlockExpiredObjects` | ConnectorAPI.SkylineLockManager/LockManager/LockManager.cs:34-44 | exactly the records with a deadline strictly before `now` are removed; every other record is unchanged |
| `LockTable.LockManager.RequestLock` | ConnectorAPI.SkylineLockManager/LockManager/LockManager.cs:47-65 | one response per node. If no node is held, every response is granted with the availability answers, every tree id gets its record (requester as holder, description, priority, children's ids, deadline `now` plus span), and earlier records are unchanged. If a node is held, the same answers come back with every grant cleared and the table is unchanged |
| `LockTable.LockManager.UnlockAllObjects` | ConnectorAPI.SkylineLockManager/LockManager/LockManager.cs:68-75 | returns the previous ids, once each, and leaves the table empty |
| `LockTable.LockManager.UnlockObject` | ConnectorAPI.SkylineLockManager/LockManager/LockManager.cs:78-96 | without cascade only `objectId` is removed (returned iff it was held), on any table; with cascade exactly the ids reachable from it through held records' links are removed; the returned list is duplicate-free and equals what was removed |
| `LockTable.LockManager.CheckLockAvailability` | ConnectorAPI.SkylineLockManager/LockManager/LockManager.cs:108-139 | children-first responses; a held id reports the current holder and is not granted, a free id reports the requester and is granted; the table is not changed |
| `LockTable.LockManager.LockObjects` | ConnectorAPI.SkylineLockManager/LockManager/LockManager.cs:141-160 | for a tree of fresh, distinct ids with spans, every node gets its record and no earlier record changes |
| `Listeners.Listener.constructor` | ConnectorAPI.SkylineLockManager/ConnectorApi/Listeners/Listener.cs:36-47 | a listener starts idle, not listening and not disposed |
| `Listeners.Listener.StartListening` | ConnectorAPI.SkylineLockManager/ConnectorApi/Listeners/Listener.cs:96-110 | from idle it starts the monitor once and listens; while listening or starting it does nothing; it stops nothing; starts minus stops stays 1 while listening and 0 otherwise |
| `Listeners.Listener.StopListening` | ConnectorAPI.SkylineLockManager/ConnectorApi/Listeners/Listener.cs:117-131 | while listening it stops the monitor once and stops listening; otherwise it does nothing; the balance of starts and stops is kept |
| `UnlockListeners.ResolvePending` | ConnectorAPI.SkylineLockManager/ConnectorApi/Listeners/Unlocks/UnlockListenerBase.cs:65-68 | completing pending tasks never changes an earlier completion, so each task is completed at most once |
| `UnlockListeners.SubscribeAllSpec` | ConnectorAPI.SkylineLockManager/ConnectorApi/Listeners/Unlocks/UnlockListenerBase.cs:50-60 | subscribing ids one by one registers exactly their set; registered ids keep their task and the others get new pending ones |
| `UnlockListeners.UnlockListenerBase.constructor` | ConnectorAPI.SkylineLockManager/ConnectorApi/Listeners/Unlocks/UnlockListenerBase.cs:26 | empty registry, not listening |
| `UnlockListeners.UnlockListenerBase.StartListeningForUnlock` | ConnectorAPI.SkylineLockManager/ConnectorApi/Listeners/Unlocks/UnlockListenerBase.cs:37-47 | returns the id's existing task, or registers a new pending one; the listener then listens, and it started the monitor iff it was not listening |
| `UnlockListeners.UnlockListenerBase.StartListeningForUnlocks` | ConnectorAPI.SkylineLockManager/ConnectorApi/Listeners/Unlocks/UnlockListenerBase.cs:50-60 | fails with `DuplicateArgument` iff an id repeats, after subscribing the ids before the first repeat; on success the returned map's keys are exactly the ids, each with its registered task |
| `UnlockListeners.UnlockListenerBase.StopListeningForUnlock` | ConnectorAPI.SkylineLockManager/ConnectorApi/Listeners/Unlocks/UnlockListenerBase.cs:63-75 | removes the id and completes its task with false, leaving other entries alone; an absent id changes nothing; the monitor stops iff the registry becomes empty while listening |
| `UnlockListeners.UnlockListenerBase.StopListeningForUnlocks` | ConnectorAPI.SkylineLockManager/ConnectorApi/Listeners/Unlocks/UnlockListenerBase.cs:78-84 | removes all given ids and completes exactly their tasks with false |
| `UnlockListeners.UnlockListenerBase.ReportUnlockedObjects` | ConnectorAPI.SkylineLockManager/ConnectorApi/Listeners/Unlocks/UnlockListenerBase.cs:94-109 | removes exactly the reported ids that have tasks and completes those tasks with true; others are ignored; the monitor stops iff nothing is left while listening |
| `UnlockListeners.UnlockListenerBase.Dispose` | ConnectorAPI.SkylineLockManager/ConnectorApi/Listeners/Unlocks/UnlockListenerBase.cs:112-124 | the first call completes every waiting task with false, empties the registry and stops listening; a later call changes nothing |
| `UnlockListeners.DisposeCancelsAllScenario` | ConnectorAPI.SkylineLockManagerTests/UnlockListenerTests.cs:11-45 | after two subscriptions, disposing completes both tasks with false and stops the monitor once |
| `UnlockListeners.StartStopScenario` | ConnectorAPI.SkylineLockManagerTests/UnlockListenerTests.cs:48-83 | cancelling the only subscription stops the monitor; cancelling an unknown id does not |
| `UnlockListeners.UnlockReportedScenario` | ConnectorAPI.SkylineLockManagerTests/UnlockListenerTests.cs:86-153 | a reported unlock completes the task with true; the monitor stops iff no other id is waited for |
| `PriorityListeners.ListenOne` | ConnectorAPI.SkylineLockManager/ConnectorApi/Listeners/HigherPriorityLockRequests/HigherPriorityLockRequestListenerBase.cs:65-70 | one listen entry registers its id, whose set becomes its old thresholds together with the entry's; every other id keeps its set |
| `PriorityListeners.StopOne` | ConnectorAPI.SkylineLockManager/ConnectorApi/Listeners/HigherPriorityLockRequests/HigherPriorityLockRequestListenerBase.cs:105-116 | one stop entry touches no other id; the id keeps what is left of its set after removing the entry's thresholds, and is dropped exactly when nothing is left |
| `PriorityListeners.IsHigherPriority` | ConnectorAPI.SkylineLockManager/ConnectorApi/Listeners/HigherPriorityLockRequests/HigherPriorityLockRequestListenerBase.cs:136 | a request can only match an id that is registered with at least one threshold |
| `PriorityListeners.SingleThreshold` | ConnectorAPI.SkylineLockManager/ConnectorApi/Listeners/HigherPriorityLockRequests/HigherPriorityLockRequestListenerBase.cs:39-45 | a collection of one entry with one threshold adds exactly that threshold to the id's set |
| `PriorityListeners.ListenAllSpec` | ConnectorAPI.SkylineLockManager/ConnectorApi/Listeners/HigherPriorityLockRequests/HigherPriorityLockRequestListenerBase.cs:65-70 | after the listen loop the ids are the old ones plus the named ones, and each id's set is its old set united with every threshold given for it |
| `PriorityListeners.StopAllSpec` | ConnectorAPI.SkylineLockManager/ConnectorApi/Listeners/HigherPriorityLockRequests/HigherPriorityLockRequestListenerBase.cs:105-116 | after the stop loop each id's set is its old set minus the thresholds given for it; an id whose set became empty is removed; unknown ids are ignored and none is added |
| `PriorityListeners.ListenedHigherPriority` | ConnectorAPI.SkylineLockManager/ConnectorApi/Listeners/HigherPriorityLockRequests/HigherPriorityLockRequestListenerBase.cs:136 | after listening for one threshold, a request is reported iff it was before, or it is for that id with a priority below that threshold |
| `PriorityListeners.StoppedHigherPriority` | ConnectorAPI.SkylineLockManager/ConnectorApi/Listeners/HigherPriorityLockRequests/HigherPriorityLockRequestListenerBase.cs:107-114 | after stopping one threshold, a request is reported iff it was before and, for that id, some other threshold still lies above its priority |
| `PriorityListeners.ListenThenStop` | ConnectorAPI.SkylineLockManager/ConnectorApi/Listeners/HigherPriorityLockRequests/HigherPriorityLockRequestListenerBase.cs:65-116 | stopping a threshold just added, which was not registered before, restores the registry |
| `PriorityListeners.HigherPriorityLockRequestListenerBase.constructor` | ConnectorAPI.SkylineLockManager/ConnectorApi/Listeners/HigherPriorityLockRequests/HigherPriorityLockRequestListenerBase.cs:23 | empty registry, no events, not listening |
| `PriorityListeners.HigherPriorityLockRequestListenerBase.ListenForLockRequestsWithHigherPriorityThan` | ConnectorAPI.SkylineLockManager/ConnectorApi/Listeners/HigherPriorityLockRequests/HigherPriorityLockRequestListenerBase.cs:48-76 | null fails with `ArgumentNull`; a non-empty collection with a null set fails with `NullValue`; neither changes anything; an empty collection does nothing; otherwise the registry becomes the listen loop's result and the listener listens, having started the monitor iff it was not listening |
| `PriorityListeners.HigherPriorityLockRequestListenerBase.ListenForLockRequestWithHigherPriorityThan` | ConnectorAPI.SkylineLockManager/ConnectorApi/Listeners/HigherPriorityLockRequests/HigherPriorityLockRequestListenerBase.cs:39-45 | adds the one threshold to the id's set and listens |
| `PriorityListeners.HigherPriorityLockRequestListenerBase.StopListeningForLockRequestsWithHigherPriorityThan` | ConnectorAPI.SkylineLockManager/ConnectorApi/Listeners/HigherPriorityLockRequests/HigherPriorityLockRequestListenerBase.cs:88-122 | the same validation as listening; otherwise the registry becomes the stop loop's result, and the monitor stops iff the registry is empty while listening |
| `PriorityListeners.HigherPriorityLockRequestListenerBase.StopListeningForLockRequestWithHigherPriorityThan` | ConnectorAPI.SkylineLockManager/ConnectorApi/Listeners/HigherPriorityLockRequests/HigherPriorityLockRequestListenerBase.cs:79-85 | removes the one threshold; the id goes once its set is empty; an unknown id changes nothing |
| `PriorityListeners.HigherPriorityLockRequestListenerBase.ReportHigherPrioLockObjectRequest` | ConnectorAPI.SkylineLockManager/ConnectorApi/Listeners/HigherPriorityLockRequests/HigherPriorityLockRequestListenerBase.cs:131-140 | raises the event exactly once iff the request's id has a threshold above the request's priority; otherwise nothing |
| `PriorityListeners.HigherPriorityLockRequestListenerBase.Dispose` | ConnectorAPI.SkylineLockManager/ConnectorApi/Listeners/HigherPriorityLockRequests/HigherPriorityLockRequestListenerBase.cs:155-166 | the first call stops listening, stopping the monitor iff it was listening; a later call changes nothing |
| `PriorityListeners.DisposeAfterListenScenario` | ConnectorAPI.SkylineLockManagerTests/HigherPriorityLockRequestListenerTests.cs:10-23 | listen then dispose stops the monitor once |
| `PriorityListeners.ListenThenStopScenario` | ConnectorAPI.SkylineLockManagerTests/HigherPriorityLockRequestListenerTests.cs:26-62 | listen starts the monitor once; stopping the same threshold stops it, stopping another threshold does not |
| `PriorityListeners.ThresholdFiveScenario` | ConnectorAPI.SkylineLockManagerTests/HigherPriorityLockRequestListenerTests.cs:65-157 | with threshold 5, a request for the object is reported (once) iff its priority is below 5 |
| `ConnectorApi.InfoOf` | ConnectorAPI.SkylineLockManager/ConnectorApi/SkylineLockManagerConnectorApi.cs:269-277 | a lock info takes id, holder info, grant and deadline from the response and description and priority from the request |
| `ConnectorApi.ValidateRequests` | ConnectorAPI.SkylineLockManager/ConnectorApi/SkylineLockManagerConnectorApi.cs:283-298 | null fails with `ArgumentNull`; otherwise it passes iff the flattened ids of all requests are distinct, and fails with `DuplicateArgument` when not |
| `ConnectorApi.RequestsById` | ConnectorAPI.SkylineLockManager/ConnectorApi/SkylineLockManagerConnectorApi.cs:263 | the dictionary of flattened requests succeeds iff their ids are distinct; its keys are those ids and each maps to its request |
| `ConnectorApi.AssembleLockInfos` | ConnectorAPI.SkylineLockManager/ConnectorApi/SkylineLockManagerConnectorApi.cs:261-280 | fails for a repeated request id, then at the first response without a request (`KeyNotFound`) or with a repeated id (`DuplicateArgument`); on success there is one lock info per response id, with holder, grant and deadline from the response and description and priority from the request |
| `ConnectorApi.SkylineLockManagerConnectorApi.constructor` | ConnectorAPI.SkylineLockManager/ConnectorApi/SkylineLockManagerConnectorApi.cs:57-63 | keeps the handler and both listeners; nothing sent yet, not disposed |
| `ConnectorApi.SkylineLockManagerConnectorApi.SendLockObjectRequests` | ConnectorAPI.SkylineLockManager/ConnectorApi/SkylineLockManagerConnectorApi.cs:392-410 | null fails with `ArgumentNull`; no requests gives no responses and sends nothing; otherwise one message carries all requests and its responses are returned |
| `ConnectorApi.SkylineLockManagerConnectorApi.LockObjectsInternal` | ConnectorAPI.SkylineLockManager/ConnectorApi/SkylineLockManagerConnectorApi.cs:236-281 | null fails; no requests give an empty result with zero wait and no message; otherwise the first message carries all requests. Without a positive waiting time it is the only one, the unlock listener is untouched and the result is assembled with zero wait. With one, the sent messages start with it, no flattened id is left waiting at the unlock listener, no task result is changed, and the waiting loop's responses and waiting time are assembled |
| `ConnectorApi.SkylineLockManagerConnectorApi.LockObjects` | ConnectorAPI.SkylineLockManager/ConnectorApi/SkylineLockManagerConnectorApi.cs:174-179 | invalid requests fail with the validation error, send nothing and leave the unlock listener untouched; valid ones behave as `LockObjectsInternal`, on both paths |
| `ConnectorApi.SkylineLockManagerConnectorApi.LockObject` | ConnectorAPI.SkylineLockManager/ConnectorApi/SkylineLockManagerConnectorApi.cs:165-170 | a tree with a repeated id fails with `DuplicateArgument` and sends nothing; otherwise it is locked as a list of one, on both paths |
| `ConnectorApi.SkylineLockManagerConnectorApi.UnlockObjects` | ConnectorAPI.SkylineLockManager/ConnectorApi/SkylineLockManagerConnectorApi.cs:190-206 | null fails with `ArgumentNull`; an empty list sends nothing; otherwise one message carries all unlock requests in order |
| `ConnectorApi.SkylineLockManagerConnectorApi.UnlockObject` | ConnectorAPI.SkylineLockManager/ConnectorApi/SkylineLockManagerConnectorApi.cs:183-186 | one message with the single unlock request |
| `ConnectorApi.SkylineLockManagerConnectorApi.ListenForLockRequestsWithHigherPriorityThan` | ConnectorAPI.SkylineLockManager/ConnectorApi/SkylineLockManagerConnectorApi.cs:143-146 | forwards to the priority listener with its validation and registry update; a successful non-empty call leaves it listening and starts its monitor iff it was not listening, a failed or empty one leaves the monitor as it was; no monitor stop, no event raised, disposal unchanged |
| `ConnectorApi.SkylineLockManagerConnectorApi.ListenForLockRequestWithHigherPriorityThan` | ConnectorAPI.SkylineLockManager/ConnectorApi/SkylineLockManagerConnectorApi.cs:134-140 | the priority listener's set for the id gains the one threshold, and the listener is listening afterwards, with its monitor started iff it was not listening; no monitor stop, no event raised, disposal unchanged |
| `ConnectorApi.SkylineLockManagerConnectorApi.StopListeningForLockRequestsWithHigherPriorityThan` | ConnectorAPI.SkylineLockManager/ConnectorApi/SkylineLockManagerConnectorApi.cs:158-161 | forwards to the priority listener with its validation and registry update; after a successful non-empty call it listens iff it was listening and some id is left, and the monitor stops exactly when the registry empties while listening; no monitor start, no event raised, disposal unchanged |
| `ConnectorApi.SkylineLockManagerConnectorApi.StopListeningForLockRequestWithHigherPriorityThan` | ConnectorAPI.SkylineLockManager/ConnectorApi/SkylineLockManagerConnectorApi.cs:149-155 | the priority listener drops the one threshold for the id (and the id once its set is empty); it keeps listening iff some id is left, and the monitor stops exactly when the registry empties while listening; no monitor start, no event raised, disposal unchanged |
| `ConnectorApi.SkylineLockManagerConnectorApi.Dispose` | ConnectorAPI.SkylineLockManager/ConnectorApi/SkylineLockManagerConnectorApi.cs:209-234 | the first call disposes both listeners: a first disposal of the unlock listener resolves every waiting task with false and empties its registry, and each listener stops its monitor if it was listening, while an already-disposed listener keeps its listening state. No monitor is started, no handle is handed out, no resolved task changes, and later calls change nothing |
| `ConnectorApi.DuplicateRequestsRejected` | ConnectorAPI.SkylineLockManagerTests/SkylineLockManagerConnectorApiTests.cs:15-35 | two requests for the same object are rejected with `DuplicateArgument` |
| `ConnectorApi.DisposeStopsAllMonitorsScenario` | ConnectorAPI.SkylineLockManagerTests/SkylineLockManagerConnectorApiTests.cs:38-59 | after a priority and an unlock subscription, disposing the connector stops each monitor once |
| `ConnectorApi.LockWithoutWaitScenario` | ConnectorAPI.SkylineLockManagerTests/SkylineLockManagerConnectorApiTests.cs:62-134 | without a positive waiting time, one lock makes exactly one round trip and neither starts nor stops the unlock listener; with one, at least the first message is sent |

## Left out

- The waiting loop of `LockObjectsWithWait` (SkylineLockManagerConnectorApi.cs:314-376) is left out because it is built on concurrent tasks, timeouts and a stopwatch. What the model keeps of the wait path is its first message (:312) and the final `StopListeningForUnlocks` over all flattened ids (:380). The loop's final responses and total waiting time are a parameter function of the requests, the first responses and the maximum waiting time. The loop's own subscriptions at the unlock listener (:341), and the monitor start they cause, are not modelled, and neither are the messages it sends again (:352). The private `SendLockObjectRequest`, used only there, is left out with it.
- ConnectorApi.SkylineLockManagerConnectorApi.LockObjectsInternal: on the wait path it states that the first message is sent, and that the flattened ids are unsubscribed at the end. It does not state how the monitor counters of the unlock listener change, because the subscriptions that start the monitor are not modelled.
- ConnectorApi.SkylineLockManagerConnectorApi.LockObjects: on the wait path it is as weak as `LockObjectsInternal`, and for the same reason.
- ConnectorApi.SkylineLockManagerConnectorApi.LockObject: on the wait path it is as weak as `LockObjectsInternal`, and for the same reason.
- ConnectorApi.LockWithoutWaitScenario: the monitor counts of SkylineLockManagerConnectorApiTests.cs:137-159 (one start and one stop for a positive wait) are not stated, because the start happens inside the waiting loop.
- Transport and element plumbing are left out because they are I/O on libraries outside this model: the inter-app handlers, the Lock Manager element, the DataMiner-lookup constructors, timeouts, JSON and logging (including the `StackTrace` lookup). The inter-app handler is a function parameter, and a transport failure is not modelled.
- The event's add and remove accessors (SkylineLockManagerConnectorApi.cs:115-131) are left out because they only forward subscriptions to the priority listener. A raised event is recorded in `raisedEvents`.
- The concrete monitor subclasses and the earlier revisions of these classes in other directories are left out, because only the base classes hold logic and the earlier revisions are superseded. What `StartMonitor` and `StopMonitor` do is reduced to counters.
- Concurrency is not modelled. The concurrent dictionaries are plain maps, and callbacks that re-enter a listener while it starts or stops are not modelled. The re-entrancy flags are kept and proved to be down whenever a call returns.
- Null elements inside collections (a null request in a list, a null id) are not modelled. Of the null checks in the code, the model has those on the arguments of the lock, unlock and listen calls and those on the priority sets. The constructor's null checks on the handler and the listeners (SkylineLockManagerConnectorApi.cs:59-61) are not modelled, because those parameters cannot be null here.
- LockTable.LockManager.RequestLock and LockTable.LockManager.CheckLockAvailability take a list of linked requests that is never null. In the source, a null `LinkedObjectRequests` throws `NullReferenceException` in the loops at LockManager.cs:102, :115 and :143, while `Flatten` treats it as empty. The model has no null list, so that exception is not modelled.
- `DateTime` is integer ticks, with the current time passed in as `now`, so the clock itself is left out. `TimeSpan.FromHours(1)` is 36,000,000,000 ticks.
- `Task<bool>` objects are numbered handles with a state. Awaiting them is not modelled.
- The `Dispose(false)` path (a finalizer) is left out because no finalizer calls it.
- The enum `Priority` type at LockObjectRequest.cs:47 is not followed. Priorities are ints where lower is more urgent, as at ILockBaseInfo.cs:24-26 and the int thresholds of the priority listener. Medium is 2.
- The `LockInfo` class at ConnectorApi/LockInfo.cs:6-19 has none of the `ObjectDescription`, `ContextInfo` and `Priority` properties that SkylineLockManagerConnectorApi.cs:269-277 sets. The model follows the assembly code, and `contextInfo` holds the response's lock holder info.
- LockTable.LockManager.RequestLock requires the ids of one tree to be distinct only when no node of the tree is held. A tree with a repeated id and a held node is modelled as in the source: the answers come back denied and the table is unchanged (LockManager.cs:53-61). For a wholly free tree with a repeated id, the source's `Dictionary.Add` at LockManager.cs:159 throws after part of the tree was committed, and that partial state is not modelled.
- LockTable.LockManager.UnlockObject takes a ghost ranking, but only for a cascade. The ranking covers every record in the table and proves that no chain of links anywhere in it forms a cycle. So a cascade on a table with any cycle among its records' links is not modelled, even when `objectId` cannot reach the cycle and the source, which recurses only along reachable links, would terminate. Without a cascade any table is accepted.
- LockTable.LockManager.UnlockObject: a record's `linkedObjectIds` is never null here. In the source, `LinkedObjectIds` has no initializer (LockedObject.cs:19), so a record in the initial dictionary given to the constructor can hold a null list. A cascade on such a record throws `NullReferenceException` in the `foreach` at LockManager.cs:84, and that exception is not modelled. Records that `LockObjects` creates always get a list (LockManager.cs:155).
- LockTable.LockManager.LockObjects requires the fresh, distinct ids and the filled-in spans that `RequestLock` establishes before calling it. The private method is not modelled on other inputs.
- `SetAutoUnlockTimeSpan` writes the spans into the caller's request objects. It is modelled as a function that returns the normalised tree, so the caller seeing its own request altered is not modelled.
- "Listening" for the unlock listener after `Dispose` follows the code: a later subscription starts the monitor again. The code's disposed flag does not prevent it.
- UnlockListenerTests.cs:113 expects no monitor stop after the last waited-for unlock, while UnlockListenerBase.cs:105-108 stops the monitor then. The model follows the code, and `UnlockListeners.UnlockReportedScenario` states that the monitor stops.
