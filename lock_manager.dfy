/** The authoritative lock table: a dictionary from object id to the record of
    the lock held on it, updated in place by an all-or-nothing grant of a whole
    request tree, by expiry, by a (possibly cascading) unlock of one id and by
    clearing. The wall clock is the parameter `now`, in ticks. */
module LockTable {
  import opened Common
  import opened LockMessages

  /** Ticks in one hour (one tick is 100 ns). */
  const TicksPerHour: int := 36_000_000_000

  /** What the table keeps for one locked object. */
  datatype LockedObject = LockedObject(
    objectId: string,
    objectDescription: string,
    lockHolderInfo: string,
    timestamp: int,
    linkedObjectIds: seq<string>,
    autoUnlockTimestamp: int,
    priority: int)

  type Table = map<string, LockedObject>

  // ---------------------------------------------------------------------
  // Filling in default auto-unlock spans

  /** `SetAutoUnlockTimeSpan`: every node without a span gets `defaultSpan`.
      The source overwrites the spans of the request nodes in place; here the
      normalised tree is returned. */
  function SetAutoUnlockTimeSpan(r: LockRequest, defaultSpan: int): (n: LockRequest)
    ensures n.objectId == r.objectId && n.objectDescription == r.objectDescription
    ensures n.lockRequesterInfo == r.lockRequesterInfo && n.priority == r.priority
    ensures r.autoUnlockTimeSpan.Some? ==> n.autoUnlockTimeSpan == r.autoUnlockTimeSpan
    ensures r.autoUnlockTimeSpan.None? ==> n.autoUnlockTimeSpan == Some(defaultSpan)
    ensures |n.linkedObjectRequests| == |r.linkedObjectRequests|
    decreases r, 1
  {
    r.(autoUnlockTimeSpan := Some(r.autoUnlockTimeSpan.GetOr(defaultSpan)),
       linkedObjectRequests := SetAutoUnlockTimeSpans(r.linkedObjectRequests, defaultSpan))
  }

  function SetAutoUnlockTimeSpans(rs: seq<LockRequest>, defaultSpan: int): (ns: seq<LockRequest>)
    ensures |ns| == |rs|
    ensures forall i :: 0 <= i < |rs| ==> ns[i].objectId == rs[i].objectId
    decreases rs, 0
  {
    seq(|rs|, i requires 0 <= i < |rs| => SetAutoUnlockTimeSpan(rs[i], defaultSpan))
  }

  /** `n` is node `r` with its span filled in and all else as it was (the
      children are compared by id). */
  predicate NormalizedNode(n: LockRequest, r: LockRequest, defaultSpan: int) {
    && n.objectId == r.objectId
    && n.objectDescription == r.objectDescription
    && n.lockRequesterInfo == r.lockRequesterInfo
    && n.priority == r.priority
    && n.autoUnlockTimeSpan == Some(r.autoUnlockTimeSpan.GetOr(defaultSpan))
    && RequestIds(n.linkedObjectRequests) == RequestIds(r.linkedObjectRequests)
  }

  predicate NormalizedNodes(ns: seq<LockRequest>, rs: seq<LockRequest>, defaultSpan: int) {
    |ns| == |rs| && forall i :: 0 <= i < |rs| ==> NormalizedNode(ns[i], rs[i], defaultSpan)
  }

  lemma NormalizedNodesConcat(a: seq<LockRequest>, b: seq<LockRequest>, a': seq<LockRequest>, b': seq<LockRequest>, d: int)
    requires NormalizedNodes(a', a, d) && NormalizedNodes(b', b, d)
    ensures NormalizedNodes(a' + b', a + b, d)
  {
    forall i | 0 <= i < |a + b| ensures NormalizedNode((a' + b')[i], (a + b)[i], d) {
      if i < |a| {
        assert (a' + b')[i] == a'[i] && (a + b)[i] == a[i];
      } else {
        assert (a' + b')[i] == b'[i - |a|] && (a + b)[i] == b[i - |a|];
      }
    }
  }

  /** Normalisation keeps the shape of the tree: node by node in flattening
      order, ids, descriptions, requester infos, priorities and children ids
      are as before, supplied spans are kept and missing ones become the
      default. */
  lemma {:induction false} SetAutoUnlockTimeSpanFlatten(r: LockRequest, d: int)
    ensures NormalizedNodes(SetAutoUnlockTimeSpan(r, d).Flatten(), r.Flatten(), d)
    decreases r, 1
  {
    var n := SetAutoUnlockTimeSpan(r, d);
    SetAutoUnlockTimeSpansFlatten(r.linkedObjectRequests, d);
    assert NormalizedNode(n, r, d);
    NormalizedNodesConcat([r], FlattenRequests(r.linkedObjectRequests), [n], FlattenRequests(n.linkedObjectRequests), d);
  }

  lemma {:induction false} SetAutoUnlockTimeSpansFlatten(rs: seq<LockRequest>, d: int)
    ensures NormalizedNodes(FlattenRequests(SetAutoUnlockTimeSpans(rs, d)), FlattenRequests(rs), d)
    ensures RequestIds(SetAutoUnlockTimeSpans(rs, d)) == RequestIds(rs)
    decreases rs, 0
  {
    var ns := SetAutoUnlockTimeSpans(rs, d);
    if rs != [] {
      SetAutoUnlockTimeSpanFlatten(rs[0], d);
      assert ns[1..] == SetAutoUnlockTimeSpans(rs[1..], d);
      SetAutoUnlockTimeSpansFlatten(rs[1..], d);
      NormalizedNodesConcat(rs[0].Flatten(), FlattenRequests(rs[1..]), ns[0].Flatten(), FlattenRequests(ns[1..]), d);
    }
  }

  /** Every node of a normalised tree carries an auto-unlock span. */
  predicate AllSpansSet(r: LockRequest) {
    forall x :: x in r.Flatten() ==> x.autoUnlockTimeSpan.Some?
  }

  lemma NormalizedHasSpans(r: LockRequest, d: int)
    ensures AllSpansSet(SetAutoUnlockTimeSpan(r, d))
  {
    var n := SetAutoUnlockTimeSpan(r, d);
    SetAutoUnlockTimeSpanFlatten(r, d);
    forall x | x in n.Flatten() ensures x.autoUnlockTimeSpan.Some? {
      var i :| 0 <= i < |n.Flatten()| && n.Flatten()[i] == x;
      assert NormalizedNode(n.Flatten()[i], r.Flatten()[i], d);
    }
  }

  // ---------------------------------------------------------------------
  // Availability, evaluated children first

  /** Children first, then the node itself: the order in which
      `CheckLockAvailability` produces its responses. */
  function PostOrder(r: LockRequest): (po: seq<LockRequest>)
    decreases r, 1
  {
    PostOrderAll(r.linkedObjectRequests) + [r]
  }

  function PostOrderAll(rs: seq<LockRequest>): seq<LockRequest>
    decreases rs, 0
  {
    if rs == [] then [] else PostOrderAll(rs[..|rs| - 1]) + PostOrder(rs[|rs| - 1])
  }

  /** The response to node `x` against table `t`: a held id reports the current
      holder and is not granted; a free id reports the requester and is
      granted. The lock table never fills in availability or a timestamp. */
  function Evaluate(t: Table, x: LockRequest): (resp: LockResponse) {
    if x.objectId in t then
      LockResponse(x.objectId, t[x.objectId].lockHolderInfo, false, false, 0, [])
    else
      LockResponse(x.objectId, x.lockRequesterInfo, true, false, 0, [])
  }

  function Availability(t: Table, xs: seq<LockRequest>): (rs: seq<LockResponse>)
    ensures |rs| == |xs|
    ensures forall i :: 0 <= i < |xs| ==> rs[i] == Evaluate(t, xs[i])
  {
    seq(|xs|, i requires 0 <= i < |xs| => Evaluate(t, xs[i]))
  }

  /** Every response with its grant flag cleared. */
  function Denied(rs: seq<LockResponse>): (ds: seq<LockResponse>)
    ensures |ds| == |rs|
    ensures forall i :: 0 <= i < |rs| ==> ds[i] == rs[i].(lockIsGranted := false)
  {
    seq(|rs|, i requires 0 <= i < |rs| => rs[i].(lockIsGranted := false))
  }

  /** No node of the tree is held in `t`. */
  predicate AllFree(t: Table, r: LockRequest) {
    forall x :: x in r.Flatten() ==> x.objectId !in t
  }

  /** The children-first order is a rearrangement of the flattening that ends
      with the root: one response per node of the tree. */
  lemma {:induction false} PostOrderSpec(r: LockRequest)
    ensures multiset(PostOrder(r)) == multiset(r.Flatten())
    ensures |PostOrder(r)| == r.NodeCount()
    ensures PostOrder(r)[|PostOrder(r)| - 1] == r
    decreases r, 1
  {
    PostOrderAllSpec(r.linkedObjectRequests);
    RequestFlattenSpec(r);
  }

  lemma {:induction false} PostOrderAllSpec(rs: seq<LockRequest>)
    ensures multiset(PostOrderAll(rs)) == multiset(FlattenRequests(rs))
    decreases rs, 0
  {
    if rs != [] {
      var init, last := rs[..|rs| - 1], rs[|rs| - 1];
      PostOrderAllSpec(init);
      PostOrderSpec(last);
      assert FlattenRequests(rs) == FlattenRequests(init) + last.Flatten() by {
        FlattenPrefixStep(rs, |rs| - 1);
        assert rs[..|rs|] == rs;
      }
      calc {
        multiset(PostOrderAll(rs));
        multiset(PostOrderAll(init) + PostOrder(last));
        multiset(PostOrderAll(init)) + multiset(PostOrder(last));
        multiset(FlattenRequests(init)) + multiset(last.Flatten());
        multiset(FlattenRequests(init) + last.Flatten());
      }
    }
  }

  /** Post-order of a normalised tree is node by node the normalised
      post-order. */
  lemma {:induction false} SetAutoUnlockTimeSpanPostOrder(r: LockRequest, d: int)
    ensures NormalizedNodes(PostOrder(SetAutoUnlockTimeSpan(r, d)), PostOrder(r), d)
    decreases r, 1
  {
    var n := SetAutoUnlockTimeSpan(r, d);
    SetAutoUnlockTimeSpansPostOrder(r.linkedObjectRequests, d);
    SetAutoUnlockTimeSpansFlatten(r.linkedObjectRequests, d);
    assert NormalizedNode(n, r, d);
    NormalizedNodesConcat(PostOrderAll(r.linkedObjectRequests), [r], PostOrderAll(n.linkedObjectRequests), [n], d);
  }

  lemma {:induction false} SetAutoUnlockTimeSpansPostOrder(rs: seq<LockRequest>, d: int)
    ensures NormalizedNodes(PostOrderAll(SetAutoUnlockTimeSpans(rs, d)), PostOrderAll(rs), d)
    decreases rs, 0
  {
    var ns := SetAutoUnlockTimeSpans(rs, d);
    if rs != [] {
      var k := |rs| - 1;
      assert ns[..k] == SetAutoUnlockTimeSpans(rs[..k], d);
      SetAutoUnlockTimeSpansPostOrder(rs[..k], d);
      SetAutoUnlockTimeSpanPostOrder(rs[k], d);
      NormalizedNodesConcat(PostOrderAll(rs[..k]), PostOrder(rs[k]), PostOrderAll(ns[..k]), PostOrder(ns[k]), d);
    }
  }

  /** The evaluation only looks at ids and requester infos, which
      normalisation keeps. */
  lemma AvailabilityOfNormalized(t: Table, ns: seq<LockRequest>, rs: seq<LockRequest>, d: int)
    requires NormalizedNodes(ns, rs, d)
    ensures Availability(t, ns) == Availability(t, rs)
  {
    forall i | 0 <= i < |rs| ensures Availability(t, ns)[i] == Availability(t, rs)[i] {
      assert NormalizedNode(ns[i], rs[i], d);
    }
  }

  /** The record committed for node `x` at time `now`. */
  function LockedObjectFor(x: LockRequest, now: int, defaultSpan: int): LockedObject {
    LockedObject(x.objectId, x.objectDescription, x.lockRequesterInfo, now,
                 RequestIds(x.linkedObjectRequests), now + x.autoUnlockTimeSpan.GetOr(defaultSpan), x.priority)
  }

  // ---------------------------------------------------------------------
  // Helpers about the ids of a tree


  /** The ids of a list of request nodes, as a set. */
  function IdSet(xs: seq<LockRequest>): set<string> {
    set x | x in xs :: x.objectId
  }

  function TreeIds(r: LockRequest): set<string> {
    IdSet(r.Flatten())
  }

  /** In a list of request nodes with distinct ids, a middle part has
      distinct ids and shares none with the part before it. */
  lemma NoDupIdsParts(head: seq<LockRequest>, cur: seq<LockRequest>, rest: seq<LockRequest>)
    requires NoDup(RequestIds(head + cur + rest))
    ensures NoDup(RequestIds(cur))
    ensures forall y :: y in cur ==> y.objectId !in IdSet(head)
  {
    var all := head + cur + rest;
    var ids := RequestIds(all);
    assert forall j :: 0 <= j < |cur| ==> all[|head| + j] == cur[j];
    forall j, k | 0 <= j < k < |cur| ensures cur[j].objectId != cur[k].objectId {
      assert ids[|head| + j] != ids[|head| + k];
    }
    forall y | y in cur ensures y.objectId !in IdSet(head) {
      var j :| 0 <= j < |cur| && cur[j] == y;
      forall x | x in head ensures x.objectId != y.objectId {
        var m :| 0 <= m < |head| && head[m] == x;
        assert all[m] == x;
        assert ids[m] != ids[|head| + j];
      }
    }
  }

  lemma FlattenPrefixStep(rs: seq<LockRequest>, i: int)
    requires 0 <= i < |rs|
    ensures FlattenRequests(rs[..i + 1]) == FlattenRequests(rs[..i]) + rs[i].Flatten()
  {
    assert rs[..i + 1] == rs[..i] + [rs[i]];
    FlattenRequestsAppend(rs[..i], [rs[i]]);
    assert FlattenRequests([rs[i]]) == rs[i].Flatten() + FlattenRequests([]);
  }

  lemma FlattenSplit(rs: seq<LockRequest>, i: int)
    requires 0 <= i <= |rs|
    ensures FlattenRequests(rs) == FlattenRequests(rs[..i]) + FlattenRequests(rs[i..])
  {
    assert rs == rs[..i] + rs[i..];
    FlattenRequestsAppend(rs[..i], rs[i..]);
  }

  /** What `LockObjects` needs before committing the `i`-th linked request:
      its nodes are nodes of the whole tree, and its ids are distinct from
      each other and from the ids committed before it. */
  lemma CommitStep(r: LockRequest, i: int)
    requires NoDup(RequestIds(r.Flatten())) && 0 <= i < |r.linkedObjectRequests|
    ensures forall x :: x in r.linkedObjectRequests[i].Flatten() ==> x in r.Flatten()
    ensures NoDup(RequestIds(r.linkedObjectRequests[i].Flatten()))
    ensures forall y :: y in r.linkedObjectRequests[i].Flatten() ==> y.objectId !in IdSet(FlattenRequests(r.linkedObjectRequests[..i]))
  {
    var linked := r.linkedObjectRequests;
    var done, cur, rest := FlattenRequests(linked[..i]), linked[i].Flatten(), FlattenRequests(linked[i + 1..]);
    var head := [r] + done;
    assert r.Flatten() == head + cur + rest by {
      FlattenPrefixStep(linked, i);
      FlattenSplit(linked, i + 1);
    }
    NoDupIdsParts(head, cur, rest);
    assert forall x :: x in done ==> x in head;
  }

  lemma CommitFresh(r: LockRequest, i: int, t0: Table, t: Table, done: seq<LockRequest>)
    requires NoDup(RequestIds(r.Flatten())) && AllSpansSet(r) && 0 <= i < |r.linkedObjectRequests|
    requires forall x :: x in r.Flatten() ==> x.objectId !in t0
    requires done == FlattenRequests(r.linkedObjectRequests[..i])
    requires t.Keys == t0.Keys + IdSet(done)
    ensures NoDup(RequestIds(r.linkedObjectRequests[i].Flatten()))
    ensures AllSpansSet(r.linkedObjectRequests[i])
    ensures forall x :: x in r.linkedObjectRequests[i].Flatten() ==> x.objectId !in t
  {
    CommitStep(r, i);
  }

  /** After committing the `i`-th linked request the loop's description of
      the table covers it too. */
  lemma CommitExtend(t0: Table, t: Table, t': Table, done: seq<LockRequest>, cur: seq<LockRequest>, now: int, d: int)
    requires t.Keys == t0.Keys + IdSet(done)
    requires forall k :: k in t0 ==> t[k] == t0[k]
    requires forall x :: x in done ==> t[x.objectId] == LockedObjectFor(x, now, d)
    requires t'.Keys == t.Keys + IdSet(cur)
    requires forall k :: k in t ==> t'[k] == t[k]
    requires forall x :: x in cur ==> t'[x.objectId] == LockedObjectFor(x, now, d)
    ensures t'.Keys == t0.Keys + IdSet(done + cur)
    ensures forall k :: k in t0 ==> t'[k] == t0[k]
    ensures forall x :: x in done + cur ==> t'[x.objectId] == LockedObjectFor(x, now, d)
  {
    assert IdSet(done + cur) == IdSet(done) + IdSet(cur) by {
      assert forall x :: x in done + cur <==> x in done || x in cur;
    }
  }

  /** The ids of a tree are its root's id and the ids below it. */
  lemma TreeIdsUnfold(r: LockRequest)
    ensures TreeIds(r) == {r.objectId} + IdSet(FlattenRequests(r.linkedObjectRequests))
  {
    var rf, done := r.Flatten(), FlattenRequests(r.linkedObjectRequests);
    assert forall x :: x in rf <==> x == r || x in done;
  }

  /** The root's record does not overwrite any record committed below it. */
  lemma CommitRootRecords(r: LockRequest, t: Table, t': Table, now: int, d: int)
    requires NoDup(RequestIds(r.Flatten()))
    requires forall x :: x in FlattenRequests(r.linkedObjectRequests) ==>
      x.objectId in t && t[x.objectId] == LockedObjectFor(x, now, d)
    requires t' == t[r.objectId := LockedObjectFor(r, now, d)]
    ensures forall x :: x in r.Flatten() ==> x.objectId in t' && t'[x.objectId] == LockedObjectFor(x, now, d)
  {
    var rf, done := r.Flatten(), FlattenRequests(r.linkedObjectRequests);
    var ids := RequestIds(rf);
    forall x | x in rf ensures x.objectId in t' && t'[x.objectId] == LockedObjectFor(x, now, d) {
      if x != r {
        var j :| 0 <= j < |rf| && rf[j] == x;
        assert j != 0 && ids[j] != ids[0];
        assert x in done;
      }
    }
  }

  // ---------------------------------------------------------------------
  // Reachability through linked ids, for the cascading unlock

  /** `rank` strictly decreases along every link of a record: the links of the
      table have no cycle. */
  ghost predicate Ranked(t: Table, rank: string -> nat) {
    forall k, j :: k in t && j in t[k].linkedObjectIds ==> rank(j) < rank(k)
  }

  /** The ids of the records reachable from `id` through `LinkedObjectIds`,
      `id` included when it is held. */
  ghost function Reach(t: Table, id: string, rank: string -> nat): set<string>
    requires Ranked(t, rank)
    decreases rank(id), 1
  {
    if id !in t then {} else {id} + ReachAll(t, t[id].linkedObjectIds, rank, rank(id))
  }

  ghost function ReachAll(t: Table, ids: seq<string>, rank: string -> nat, bound: nat): set<string>
    requires Ranked(t, rank)
    requires forall j :: j in ids ==> rank(j) < bound
    decreases bound, 0
  {
    set j, x | j in ids && x in Reach(t, j, rank) :: x
  }

  lemma ReachAllMember(t: Table, ids: seq<string>, rank: string -> nat, bound: nat, k: string)
    requires Ranked(t, rank)
    requires forall j :: j in ids ==> rank(j) < bound
    ensures k in ReachAll(t, ids, rank, bound) <==> exists j :: j in ids && k in Reach(t, j, rank)
  {
  }

  /** No record outside `u` is linked from a record inside `u`. */
  ghost predicate Closed(t: Table, u: set<string>) {
    forall k, j :: k in u && k in t && j in t[k].linkedObjectIds && j in t ==> j in u
  }

  /** What is reached is held and ranks no higher than the start. */
  lemma {:induction false} ReachBounds(t: Table, id: string, rank: string -> nat)
    requires Ranked(t, rank)
    ensures Reach(t, id, rank) <= t.Keys
    ensures forall x :: x in Reach(t, id, rank) ==> rank(x) <= rank(id)
    decreases rank(id)
  {
    if id in t {
      forall j | j in t[id].linkedObjectIds {
        ReachBounds(t, j, rank);
      }
      forall x | x in Reach(t, id, rank) && x != id ensures x in t && rank(x) <= rank(id) {
        ReachAllMember(t, t[id].linkedObjectIds, rank, rank(id), x);
      }
    }
  }

  /** A reach set is closed under links. */
  lemma {:induction false} ReachIsClosed(t: Table, id: string, rank: string -> nat)
    requires Ranked(t, rank)
    ensures Closed(t, Reach(t, id, rank))
    decreases rank(id)
  {
    if id in t {
      var links := t[id].linkedObjectIds;
      forall c | c in links {
        ReachIsClosed(t, c, rank);
      }
      forall k, j | k in Reach(t, id, rank) && k in t && j in t[k].linkedObjectIds && j in t
        ensures j in Reach(t, id, rank)
      {
        ReachAllMember(t, links, rank, rank(id), j);
        if k == id {
          assert j in Reach(t, j, rank);
        } else {
          ReachAllMember(t, links, rank, rank(id), k);
          var c :| c in links && k in Reach(t, c, rank);
          assert j in Reach(t, c, rank);
        }
      }
    }
  }

  /** Everything reachable from a held member of a closed set stays inside
      it. */
  lemma {:induction false} ReachInsideClosed(t: Table, u: set<string>, id: string, rank: string -> nat)
    requires Ranked(t, rank) && Closed(t, u) && id in u
    ensures Reach(t, id, rank) <= u
    decreases rank(id)
  {
    if id in t {
      var links := t[id].linkedObjectIds;
      forall x | x in Reach(t, id, rank) ensures x in u {
        if x != id {
          ReachAllMember(t, links, rank, rank(id), x);
          var c :| c in links && x in Reach(t, c, rank);
          assert c in t;
          ReachInsideClosed(t, u, c, rank);
        }
      }
    }
  }

  /** Removing a closed set first and then walking the links reaches exactly
      what walking the whole table reaches outside that set. */
  lemma {:induction false} ReachAfterRemoval(t: Table, u: set<string>, id: string, rank: string -> nat)
    requires Ranked(t, rank) && Closed(t, u)
    ensures Ranked(t - u, rank)
    ensures Reach(t - u, id, rank) == Reach(t, id, rank) - u
    decreases rank(id)
  {
    var t' := t - u;
    assert Ranked(t', rank);
    if id !in t {
    } else if id in u {
      ReachInsideClosed(t, u, id, rank);
    } else {
      var links := t[id].linkedObjectIds;
      assert t'[id] == t[id];
      forall c | c in links {
        ReachAfterRemoval(t, u, c, rank);
      }
      forall k ensures k in ReachAll(t', links, rank, rank(id)) <==> k in ReachAll(t, links, rank, rank(id)) - u {
        ReachAllMember(t', links, rank, rank(id), k);
        ReachAllMember(t, links, rank, rank(id), k);
      }
    }
  }

  /** One step of the cascade: after the ids in the closed set `u` are gone,
      unlocking `c` removes what `c` reaches outside `u`, and the union is
      closed again and still ranks below `bound`. */
  lemma CascadeStep(t: Table, u: set<string>, c: string, rank: string -> nat, bound: nat)
    requires Ranked(t, rank) && Closed(t, u) && rank(c) < bound
    requires forall x :: x in u ==> rank(x) < bound
    ensures Ranked(t - u, rank)
    ensures Reach(t - u, c, rank) == Reach(t, c, rank) - u
    ensures Closed(t, u + Reach(t, c, rank))
    ensures forall x :: x in u + Reach(t, c, rank) ==> rank(x) < bound
    ensures (t - u) - (Reach(t, c, rank) - u) == t - (u + Reach(t, c, rank))
  {
    ReachAfterRemoval(t, u, c, rank);
    ReachBounds(t, c, rank);
    ReachIsClosed(t, c, rank);
  }

  /** Appending the ids removed by one step of the cascade keeps the list of
      removed ids duplicate-free and equal, as a set, to what was removed. */
  lemma AppendUnlocked(done: seq<string>, more: seq<string>, u: set<string>, r: set<string>)
    requires Elements(done) == u && NoDup(done)
    requires Elements(more) == r - u && NoDup(more)
    ensures Elements(done + more) == u + r
    ensures NoDup(done + more)
  {
    forall x | x in done ensures x !in more {
      assert x in Elements(done);
      assert x !in Elements(more);
    }
    NoDupConcat(done, more);
    assert forall k :: k in Elements(done + more) <==> k in Elements(done) || k in Elements(more);
  }

  /** Cascading from a record whose linked records have no links of their own
      releases the record and exactly those of its linked ids that are held. */
  lemma CascadeOneLevel(t: Table, id: string, rank: string -> nat)
    requires Ranked(t, rank) && id in t
    requires forall j :: j in t[id].linkedObjectIds && j in t ==> t[j].linkedObjectIds == []
    ensures Reach(t, id, rank) == {id} + set j | j in t[id].linkedObjectIds && j in t
  {
    var links := t[id].linkedObjectIds;
    forall j | j in links
      ensures Reach(t, j, rank) == if j in t then {j} else {}
    {
      if j in t {
        assert ReachAll(t, t[j].linkedObjectIds, rank, rank(j)) == {};
      }
    }
    forall k ensures k in ReachAll(t, links, rank, rank(id)) <==> k in links && k in t {
      ReachAllMember(t, links, rank, rank(id), k);
      if k in links && k in t {
        assert k in Reach(t, k, rank);
      }
    }
  }

  // ---------------------------------------------------------------------
  // Correspondence between a request tree and its normalised copy

  /** Normalisation keeps the ids of the tree (as a set and node by node),
      fills in every span, and so leaves the question whether the tree is
      free unchanged. */
  lemma NormalizedIds(r: LockRequest, d: int, t: Table)
    ensures TreeIds(SetAutoUnlockTimeSpan(r, d)) == TreeIds(r)
    ensures RequestIds(SetAutoUnlockTimeSpan(r, d).Flatten()) == RequestIds(r.Flatten())
    ensures AllSpansSet(SetAutoUnlockTimeSpan(r, d))
    ensures AllFree(t, SetAutoUnlockTimeSpan(r, d)) <==> AllFree(t, r)
  {
    var n := SetAutoUnlockTimeSpan(r, d);
    var nf, rf := n.Flatten(), r.Flatten();
    SetAutoUnlockTimeSpanFlatten(r, d);
    NormalizedHasSpans(r, d);
    assert forall i :: 0 <= i < |rf| ==> NormalizedNode(nf[i], rf[i], d);
    forall k ensures k in TreeIds(n) <==> k in TreeIds(r) {
      if k in TreeIds(r) {
        var x :| x in rf && x.objectId == k;
        var i :| 0 <= i < |rf| && rf[i] == x;
        assert nf[i] in nf;
      }
      if k in TreeIds(n) {
        var y :| y in nf && y.objectId == k;
        var i :| 0 <= i < |nf| && nf[i] == y;
        assert rf[i] in rf;
      }
    }
    if AllFree(t, r) {
      forall y | y in nf ensures y.objectId !in t {
        var i :| 0 <= i < |nf| && nf[i] == y;
        assert rf[i] in rf;
      }
    }
    if AllFree(t, n) {
      forall x | x in rf ensures x.objectId !in t {
        var i :| 0 <= i < |rf| && rf[i] == x;
        assert nf[i] in nf;
      }
    }
  }

  /** The availability check gives the same answers for the normalised
      tree as for the original. */
  lemma NormalizedAvailability(r: LockRequest, d: int, t: Table)
    ensures Availability(t, PostOrder(SetAutoUnlockTimeSpan(r, d))) == Availability(t, PostOrder(r))
  {
    SetAutoUnlockTimeSpanPostOrder(r, d);
    AvailabilityOfNormalized(t, PostOrder(SetAutoUnlockTimeSpan(r, d)), PostOrder(r), d);
  }

  /** The records committed for a normalised tree are the records of the
      original nodes. */
  lemma NormalizedRecords(r: LockRequest, d: int, now: int, t: Table)
    requires forall y :: y in SetAutoUnlockTimeSpan(r, d).Flatten() ==> y.objectId in t && t[y.objectId] == LockedObjectFor(y, now, d)
    ensures forall x :: x in r.Flatten() ==> x.objectId in t && t[x.objectId] == LockedObjectFor(x, now, d)
  {
    var nf, rf := SetAutoUnlockTimeSpan(r, d).Flatten(), r.Flatten();
    SetAutoUnlockTimeSpanFlatten(r, d);
    forall x | x in rf ensures x.objectId in t && t[x.objectId] == LockedObjectFor(x, now, d) {
      var i :| 0 <= i < |rf| && rf[i] == x;
      assert NormalizedNode(nf[i], x, d);
      assert nf[i] in nf;
      assert LockedObjectFor(nf[i], now, d) == LockedObjectFor(x, now, d);
    }
  }

  /** Every response of the availability check is granted exactly when no node
      of the tree is held. */
  lemma GrantedIffFree(t: Table, r: LockRequest, rs: seq<LockResponse>)
    requires rs == Availability(t, PostOrder(r))
    ensures (forall i :: 0 <= i < |rs| ==> rs[i].lockIsGranted) <==> AllFree(t, r)
  {
    var po := PostOrder(r);
    PostOrderSpec(r);
    forall x ensures x in po <==> x in r.Flatten() {
      assert x in po <==> x in multiset(po);
      assert x in r.Flatten() <==> x in multiset(r.Flatten());
    }
    if forall i :: 0 <= i < |rs| ==> rs[i].lockIsGranted {
      forall x | x in r.Flatten() ensures x.objectId !in t {
        var i :| 0 <= i < |po| && po[i] == x;
        assert rs[i].lockIsGranted;
      }
    }
  }

  // ---------------------------------------------------------------------
  // The table

  class LockManager {
    /** The held locks, keyed by object id. */
    var lockedObjects: Table

    /** The span given to a lock request node that does not state one. */
    const DefaultAutoLockReleaseTimeSpan: int := TicksPerHour

    constructor (initial: Option<Table>)
      ensures lockedObjects == initial.GetOr(map[])
    {
      lockedObjects := initial.GetOr(map[]);
    }

    /** Drops every record whose deadline lies strictly before `now`. */
    method UnlockExpiredObjects(now: int)
      modifies this
      ensures forall k :: k in lockedObjects <==> k in old(lockedObjects) && old(lockedObjects)[k].autoUnlockTimestamp >= now
      ensures forall k :: k in lockedObjects ==> lockedObjects[k] == old(lockedObjects)[k]
    {
      var expired := set k | k in lockedObjects && lockedObjects[k].autoUnlockTimestamp < now;
      var objectIdsToUnlock := SetToSequence(expired);
      ghost var t0 := lockedObjects;
      for i := 0 to |objectIdsToUnlock|
        invariant forall k :: k in lockedObjects <==> k in t0 && k !in objectIdsToUnlock[..i]
        invariant forall k :: k in lockedObjects ==> lockedObjects[k] == t0[k]
      {
        assert objectIdsToUnlock[..i + 1] == objectIdsToUnlock[..i] + [objectIdsToUnlock[i]];
        lockedObjects := lockedObjects - {objectIdsToUnlock[i]};
      }
      assert objectIdsToUnlock[..|objectIdsToUnlock|] == objectIdsToUnlock;
      assert forall k :: k in objectIdsToUnlock <==> k in expired;
    }

    /** The all-or-nothing grant of a whole request tree, answered with one
        response per node, children before their parent. */
    method RequestLock(request: LockRequest, now: int) returns (responses: seq<LockResponse>)
      requires AllFree(lockedObjects, request) ==> NoDup(RequestIds(request.Flatten()))
      modifies this
      ensures |responses| == request.NodeCount()
      ensures AllFree(old(lockedObjects), request) ==>
        && responses == Availability(old(lockedObjects), PostOrder(request))
        && (forall i :: 0 <= i < |responses| ==> responses[i].lockIsGranted)
        && lockedObjects.Keys == old(lockedObjects).Keys + TreeIds(request)
        && (forall k :: k in old(lockedObjects) ==> lockedObjects[k] == old(lockedObjects)[k])
        && (forall x :: x in request.Flatten() ==>
              lockedObjects[x.objectId] == LockedObjectFor(x, now, DefaultAutoLockReleaseTimeSpan))
      ensures !AllFree(old(lockedObjects), request) ==>
        && responses == Denied(Availability(old(lockedObjects), PostOrder(request)))
        && (forall i :: 0 <= i < |responses| ==> !responses[i].lockIsGranted)
        && lockedObjects == old(lockedObjects)
    {
      var normalized := SetAutoUnlockTimeSpan(request, DefaultAutoLockReleaseTimeSpan);
      var lockObjectResponses := CheckLockAvailability(normalized);
      assert lockObjectResponses == Availability(old(lockedObjects), PostOrder(request)) by {
        NormalizedAvailability(request, DefaultAutoLockReleaseTimeSpan, lockedObjects);
      }
      assert |lockObjectResponses| == request.NodeCount() by {
        PostOrderSpec(request);
      }
      var allLocksAreGranted := forall i :: 0 <= i < |lockObjectResponses| ==> lockObjectResponses[i].lockIsGranted;
      assert allLocksAreGranted <==> AllFree(old(lockedObjects), request) by {
        GrantedIffFree(lockedObjects, request, lockObjectResponses);
      }

      responses := lockObjectResponses;
      if allLocksAreGranted {
        NormalizedIds(request, DefaultAutoLockReleaseTimeSpan, lockedObjects);
        LockObjects(normalized, now);
        NormalizedRecords(request, DefaultAutoLockReleaseTimeSpan, now, lockedObjects);
      } else {
        // A tree that is not wholly free gets every grant cleared.
        for i := 0 to |responses|
          invariant |responses| == |lockObjectResponses|
          invariant forall j :: 0 <= j < i ==> responses[j] == lockObjectResponses[j].(lockIsGranted := false)
          invariant forall j :: i <= j < |responses| ==> responses[j] == lockObjectResponses[j]
        {
          responses := responses[i := responses[i].(lockIsGranted := false)];
        }
        assert responses == Denied(lockObjectResponses);
        assert forall i :: 0 <= i < |responses| ==> !responses[i].lockIsGranted;
      }
    }

    /** `UnlockAllObjects`: forgets every record and returns the ids it held. */
    method UnlockAllObjects() returns (allUnlockedObjects: seq<string>)
      modifies this
      ensures Elements(allUnlockedObjects) == old(lockedObjects).Keys
      ensures NoDup(allUnlockedObjects)
      ensures lockedObjects == map[]
    {
      allUnlockedObjects := SetToSequence(lockedObjects.Keys);
      lockedObjects := map[];
    }

    /** Releases `objectId`; with `unlockLinkedObjects` it first releases,
        recursively, the ids its record links to. For a cascade `rank` is a
        witness that the links have no cycle (the source recurses without a
        guard); without one it is not needed.
        Returns every id it removed, once each. */
    method UnlockObject(objectId: string, unlockLinkedObjects: bool, ghost rank: string -> nat)
      returns (allUnlockedObjectIds: seq<string>)
      requires unlockLinkedObjects ==> Ranked(lockedObjects, rank)
      modifies this
      ensures NoDup(allUnlockedObjectIds)
      ensures unlockLinkedObjects ==>
        && Elements(allUnlockedObjectIds) == Reach(old(lockedObjects), objectId, rank)
        && lockedObjects == old(lockedObjects) - Reach(old(lockedObjects), objectId, rank)
      ensures !unlockLinkedObjects ==>
        && Elements(allUnlockedObjectIds) == (if objectId in old(lockedObjects) then {objectId} else {})
        && lockedObjects == old(lockedObjects) - {objectId}
      decreases rank(objectId)
    {
      allUnlockedObjectIds := [];
      ghost var t0 := lockedObjects;

      if unlockLinkedObjects && objectId in lockedObjects {
        var linked := lockedObjects[objectId].linkedObjectIds;
        ghost var bound := rank(objectId);
        ghost var u: set<string> := {};
        for i := 0 to |linked|
          invariant u == ReachAll(t0, linked[..i], rank, bound)
          invariant lockedObjects == t0 - u
          invariant Elements(allUnlockedObjectIds) == u
          invariant NoDup(allUnlockedObjectIds)
          invariant Closed(t0, u)
          invariant forall x :: x in u ==> rank(x) < bound
        {
          CascadeStep(t0, u, linked[i], rank, bound);
          assert ReachAll(t0, linked[..i + 1], rank, bound) == u + Reach(t0, linked[i], rank) by {
            assert linked[..i + 1] == linked[..i] + [linked[i]];
          }
          var unlocked := UnlockObject(linked[i], unlockLinkedObjects, rank);
          AppendUnlocked(allUnlockedObjectIds, unlocked, u, Reach(t0, linked[i], rank));
          allUnlockedObjectIds := allUnlockedObjectIds + unlocked;
          u := u + Reach(t0, linked[i], rank);
        }
        assert linked[..|linked|] == linked;
      }

      if objectId in lockedObjects {
        lockedObjects := lockedObjects - {objectId};
        NoDupConcat(allUnlockedObjectIds, [objectId]);
        allUnlockedObjectIds := allUnlockedObjectIds + [objectId];
      }
    }

    /** One response per node, children first, evaluated against the current
        table without changing it. */
    method CheckLockAvailability(request: LockRequest) returns (lockObjectResponses: seq<LockResponse>)
      ensures lockObjectResponses == Availability(lockedObjects, PostOrder(request))
      decreases request
    {
      lockObjectResponses := [];
      var linked := request.linkedObjectRequests;
      for i := 0 to |linked|
        invariant lockObjectResponses == Availability(lockedObjects, PostOrderAll(linked[..i]))
      {
        var sub := CheckLockAvailability(linked[i]);
        assert linked[..i + 1][..i] == linked[..i];
        lockObjectResponses := lockObjectResponses + sub;
      }
      assert linked[..|linked|] == linked;

      var lockObjectResponse: LockResponse;
      if request.objectId in lockedObjects {
        lockObjectResponse := LockResponse(request.objectId, lockedObjects[request.objectId].lockHolderInfo, false, false, 0, []);
      } else {
        lockObjectResponse := LockResponse(request.objectId, request.lockRequesterInfo, true, false, 0, []);
      }
      lockObjectResponses := lockObjectResponses + [lockObjectResponse];
    }

    /** Commits one record per node, children first. Every id must be new
        (`Dictionary.Add` throws otherwise) and every span filled in. */
    method LockObjects(lockRequest: LockRequest, now: int)
      requires NoDup(RequestIds(lockRequest.Flatten()))
      requires AllSpansSet(lockRequest)
      requires AllFree(lockedObjects, lockRequest)
      modifies this
      ensures lockedObjects.Keys == old(lockedObjects).Keys + TreeIds(lockRequest)
      ensures forall k :: k in old(lockedObjects) ==> lockedObjects[k] == old(lockedObjects)[k]
      ensures forall x :: x in lockRequest.Flatten() ==>
        lockedObjects[x.objectId] == LockedObjectFor(x, now, DefaultAutoLockReleaseTimeSpan)
      decreases lockRequest
    {
      var linked := lockRequest.linkedObjectRequests;
      ghost var t0 := lockedObjects;
      ghost var done: seq<LockRequest> := [];
      for i := 0 to |linked|
        invariant done == FlattenRequests(linked[..i])
        invariant lockedObjects.Keys == t0.Keys + IdSet(done)
        invariant forall k :: k in t0 ==> lockedObjects[k] == t0[k]
        invariant forall x :: x in done ==>
          lockedObjects[x.objectId] == LockedObjectFor(x, now, DefaultAutoLockReleaseTimeSpan)
      {
        assert NoDup(RequestIds(linked[i].Flatten())) && AllSpansSet(linked[i])
          && forall x :: x in linked[i].Flatten() ==> x.objectId !in lockedObjects
        by {
          CommitFresh(lockRequest, i, t0, lockedObjects, done);
        }
        ghost var before := lockedObjects;
        LockObjects(linked[i], now);
        CommitExtend(t0, before, lockedObjects, done, linked[i].Flatten(), now, DefaultAutoLockReleaseTimeSpan);
        FlattenPrefixStep(linked, i);
        done := done + linked[i].Flatten();
      }
      assert linked[..|linked|] == linked;
      assert lockRequest in lockRequest.Flatten();

      var lockedObject := LockedObject(
        lockRequest.objectId, lockRequest.objectDescription, lockRequest.lockRequesterInfo, now,
        RequestIds(linked), now + lockRequest.autoUnlockTimeSpan.value, lockRequest.priority);
      assert lockedObject == LockedObjectFor(lockRequest, now, DefaultAutoLockReleaseTimeSpan);
      ghost var before := lockedObjects;
      lockedObjects := lockedObjects[lockRequest.objectId := lockedObject];
      TreeIdsUnfold(lockRequest);
      CommitRootRecords(lockRequest, before, lockedObjects, now, DefaultAutoLockReleaseTimeSpan);
    }
  }
}
