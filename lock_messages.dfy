/** The lock request and lock response trees exchanged between a client and
    the lock table, and their pre-order flattening.

    Times are integer ticks (100 ns, as in .NET); priorities are integers where a
    lower value means a more urgent request. A list of linked requests or responses
    is never null here: an absent list is the empty sequence. `Flatten` treats
    a null list as empty as well, but the lock table's loops over the linked
    requests do not. */
module LockMessages {
  import opened Common

  /** `Priority.Medium`, the priority a new request starts with. */
  const DefaultPriority: int := 2

  /** A request to lock `objectId` together with the linked objects below it. */
  datatype LockRequest = LockRequest(
    objectId: string,
    objectDescription: string,
    lockRequesterInfo: string,
    linkedObjectRequests: seq<LockRequest>,
    autoUnlockTimeSpan: Option<int>,
    priority: int)
  {
    /** The request itself followed by the flattening of every linked request,
        in order. */
    function Flatten(): (fl: seq<LockRequest>)
      ensures |fl| >= 1 && fl[0] == this
      decreases this, 1
    {
      [this] + FlattenRequests(linkedObjectRequests)
    }

    /** Number of nodes in the tree, counted independently of `Flatten`. */
    function NodeCount(): (n: nat)
      ensures n >= 1 + |linkedObjectRequests|
      decreases this, 1
    {
      1 + CountRequests(linkedObjectRequests)
    }
  }

  /** The concatenation of the flattenings of `rs`, in order (the
      `SelectMany(r => r.Flatten())` of the source). */
  function FlattenRequests(rs: seq<LockRequest>): (fl: seq<LockRequest>)
    ensures |fl| >= |rs|
    decreases rs, 0
  {
    if rs == [] then [] else rs[0].Flatten() + FlattenRequests(rs[1..])
  }

  function CountRequests(rs: seq<LockRequest>): (c: nat)
    ensures c >= |rs|
    decreases rs, 0
  {
    if rs == [] then 0 else rs[0].NodeCount() + CountRequests(rs[1..])
  }

  /** `x` is `r` or a node of one of `r`'s linked requests. */
  predicate IsRequestNodeOf(x: LockRequest, r: LockRequest)
    decreases r
  {
    x == r || exists i :: 0 <= i < |r.linkedObjectRequests| && IsRequestNodeOf(x, r.linkedObjectRequests[i])
  }

  /** The ids of a flat list of requests, position by position. */
  function RequestIds(rs: seq<LockRequest>): (ids: seq<string>)
    ensures |ids| == |rs|
    ensures forall i :: 0 <= i < |rs| ==> ids[i] == rs[i].objectId
  {
    seq(|rs|, i requires 0 <= i < |rs| => rs[i].objectId)
  }

  /** A fresh request: no linked requests, no auto-unlock span, medium priority. */
  function NewLockRequest(objectId: string, description: string, requesterInfo: string): (r: LockRequest)
    ensures r.objectId == objectId && r.objectDescription == description && r.lockRequesterInfo == requesterInfo
    ensures r.linkedObjectRequests == [] && r.autoUnlockTimeSpan == None && r.priority == DefaultPriority
    ensures r.Flatten() == [r]
  {
    LockRequest(objectId, description, requesterInfo, [], None, DefaultPriority)
  }

  lemma {:induction false} FlattenRequestsAppend(a: seq<LockRequest>, b: seq<LockRequest>)
    ensures FlattenRequests(a + b) == FlattenRequests(a) + FlattenRequests(b)
  {
    if a == [] {
      assert a + b == b;
    } else {
      assert (a + b)[1..] == a[1..] + b;
      FlattenRequestsAppend(a[1..], b);
    }
  }

  /** The flattening starts with the request itself, has one element per node
      of the tree, and holds exactly the tree's nodes. */
  lemma {:induction false} RequestFlattenSpec(r: LockRequest)
    ensures r.Flatten()[0] == r
    ensures |r.Flatten()| == r.NodeCount()
    ensures forall x :: x in r.Flatten() <==> IsRequestNodeOf(x, r)
    decreases r, 1
  {
    FlattenRequestsSpec(r.linkedObjectRequests);
    forall x | IsRequestNodeOf(x, r) && x != r ensures x in FlattenRequests(r.linkedObjectRequests) {
      var i :| 0 <= i < |r.linkedObjectRequests| && IsRequestNodeOf(x, r.linkedObjectRequests[i]);
      FlattenRequestsMember(r.linkedObjectRequests, i);
    }
  }

  lemma {:induction false} FlattenRequestsSpec(rs: seq<LockRequest>)
    ensures |FlattenRequests(rs)| == CountRequests(rs)
    ensures forall x :: x in FlattenRequests(rs) ==> exists i :: 0 <= i < |rs| && IsRequestNodeOf(x, rs[i])
    decreases rs, 0
  {
    if rs != [] {
      RequestFlattenSpec(rs[0]);
      FlattenRequestsSpec(rs[1..]);
      forall x | x in FlattenRequests(rs) ensures exists i :: 0 <= i < |rs| && IsRequestNodeOf(x, rs[i]) {
        if x in rs[0].Flatten() {
          assert IsRequestNodeOf(x, rs[0]);
        } else {
          var i :| 0 <= i < |rs[1..]| && IsRequestNodeOf(x, rs[1..][i]);
          assert IsRequestNodeOf(x, rs[i + 1]);
        }
      }
    }
  }

  lemma {:induction false} FlattenRequestsMember(rs: seq<LockRequest>, i: int)
    requires 0 <= i < |rs|
    ensures forall x :: IsRequestNodeOf(x, rs[i]) ==> x in FlattenRequests(rs)
    decreases rs
  {
    RequestFlattenSpec(rs[i]);
    if i > 0 {
      FlattenRequestsMember(rs[1..], i - 1);
    }
  }

  /** The tree of two linked requests with one linked request each flattens to
      root, first child, its child, second child, its child. */
  lemma RequestFlattenIsPreOrder(root: LockRequest, c1: LockRequest, g1: LockRequest, c2: LockRequest, g2: LockRequest)
    requires root.linkedObjectRequests == [c1, c2]
    requires c1.linkedObjectRequests == [g1] && c2.linkedObjectRequests == [g2]
    requires g1.linkedObjectRequests == [] && g2.linkedObjectRequests == []
    ensures root.Flatten() == [root, c1, g1, c2, g2]
  {
    assert c1.Flatten() == [c1, g1] by { assert FlattenRequests([g1]) == g1.Flatten() + FlattenRequests([]); }
    assert c2.Flatten() == [c2, g2] by { assert FlattenRequests([g2]) == g2.Flatten() + FlattenRequests([]); }
    assert [c1, c2][1..] == [c2];
    assert FlattenRequests([c2]) == c2.Flatten() + FlattenRequests([]);
    assert FlattenRequests([c1, c2]) == c1.Flatten() + FlattenRequests([c2]);
  }

  /** The answer to one node of a lock request tree. */
  datatype LockResponse = LockResponse(
    objectId: string,
    lockHolderInfo: string,
    lockIsGranted: bool,
    lockIsAvailable: bool,
    autoUnlockTimestamp: int,
    linkedObjectResponses: seq<LockResponse>)
  {
    /** The response itself followed by the flattening of every linked
        response, in order. */
    function Flatten(): (fl: seq<LockResponse>)
      ensures |fl| >= 1 && fl[0] == this
      decreases this, 1
    {
      [this] + FlattenResponses(linkedObjectResponses)
    }

    function NodeCount(): (n: nat)
      ensures n >= 1 + |linkedObjectResponses|
      decreases this, 1
    {
      1 + CountResponses(linkedObjectResponses)
    }
  }

  function FlattenResponses(rs: seq<LockResponse>): (fl: seq<LockResponse>)
    ensures |fl| >= |rs|
    decreases rs, 0
  {
    if rs == [] then [] else rs[0].Flatten() + FlattenResponses(rs[1..])
  }

  function CountResponses(rs: seq<LockResponse>): (c: nat)
    ensures c >= |rs|
    decreases rs, 0
  {
    if rs == [] then 0 else rs[0].NodeCount() + CountResponses(rs[1..])
  }

  predicate IsResponseNodeOf(x: LockResponse, r: LockResponse)
    decreases r
  {
    x == r || exists i :: 0 <= i < |r.linkedObjectResponses| && IsResponseNodeOf(x, r.linkedObjectResponses[i])
  }

  /** `new LockObjectResponse { ObjectId = objectId }`: every other property at
      its default. */
  function NewLockResponse(objectId: string): (r: LockResponse)
    ensures r.objectId == objectId && !r.lockIsGranted && !r.lockIsAvailable
    ensures r.linkedObjectResponses == [] && r.Flatten() == [r]
  {
    LockResponse(objectId, "", false, false, 0, [])
  }

  lemma {:induction false} FlattenResponsesAppend(a: seq<LockResponse>, b: seq<LockResponse>)
    ensures FlattenResponses(a + b) == FlattenResponses(a) + FlattenResponses(b)
  {
    if a == [] {
      assert a + b == b;
    } else {
      assert (a + b)[1..] == a[1..] + b;
      FlattenResponsesAppend(a[1..], b);
    }
  }

  /** The flattening starts with the response itself, has one element per
      node, and holds exactly the tree's nodes. */
  lemma {:induction false} ResponseFlattenSpec(r: LockResponse)
    ensures r.Flatten()[0] == r
    ensures |r.Flatten()| == r.NodeCount()
    ensures forall x :: x in r.Flatten() <==> IsResponseNodeOf(x, r)
    decreases r, 1
  {
    FlattenResponsesSpec(r.linkedObjectResponses);
    forall x | IsResponseNodeOf(x, r) && x != r ensures x in FlattenResponses(r.linkedObjectResponses) {
      var i :| 0 <= i < |r.linkedObjectResponses| && IsResponseNodeOf(x, r.linkedObjectResponses[i]);
      FlattenResponsesMember(r.linkedObjectResponses, i);
    }
  }

  lemma {:induction false} FlattenResponsesSpec(rs: seq<LockResponse>)
    ensures |FlattenResponses(rs)| == CountResponses(rs)
    ensures forall x :: x in FlattenResponses(rs) ==> exists i :: 0 <= i < |rs| && IsResponseNodeOf(x, rs[i])
    decreases rs, 0
  {
    if rs != [] {
      ResponseFlattenSpec(rs[0]);
      FlattenResponsesSpec(rs[1..]);
      forall x | x in FlattenResponses(rs) ensures exists i :: 0 <= i < |rs| && IsResponseNodeOf(x, rs[i]) {
        if x in rs[0].Flatten() {
          assert IsResponseNodeOf(x, rs[0]);
        } else {
          var i :| 0 <= i < |rs[1..]| && IsResponseNodeOf(x, rs[1..][i]);
          assert IsResponseNodeOf(x, rs[i + 1]);
        }
      }
    }
  }

  lemma {:induction false} FlattenResponsesMember(rs: seq<LockResponse>, i: int)
    requires 0 <= i < |rs|
    ensures forall x :: IsResponseNodeOf(x, rs[i]) ==> x in FlattenResponses(rs)
    decreases rs
  {
    ResponseFlattenSpec(rs[i]);
    if i > 0 {
      FlattenResponsesMember(rs[1..], i - 1);
    }
  }

  /** Root, first child, its child, second child, its child. */
  lemma ResponseFlattenIsPreOrder(root: LockResponse, c1: LockResponse, g1: LockResponse, c2: LockResponse, g2: LockResponse)
    requires root.linkedObjectResponses == [c1, c2]
    requires c1.linkedObjectResponses == [g1] && c2.linkedObjectResponses == [g2]
    requires g1.linkedObjectResponses == [] && g2.linkedObjectResponses == []
    ensures root.Flatten() == [root, c1, g1, c2, g2]
  {
    assert c1.Flatten() == [c1, g1] by { assert FlattenResponses([g1]) == g1.Flatten() + FlattenResponses([]); }
    assert c2.Flatten() == [c2, g2] by { assert FlattenResponses([g2]) == g2.Flatten() + FlattenResponses([]); }
    assert [c1, c2][1..] == [c2];
    assert FlattenResponses([c2]) == c2.Flatten() + FlattenResponses([]);
    assert FlattenResponses([c1, c2]) == c1.Flatten() + FlattenResponses([c2]);
  }
}
