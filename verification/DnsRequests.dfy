/** Where the requests of a resolver are kept, and how they are counted. */
module DnsRequests {
  import opened Bytes
  import opened Lists
  import opened Rings

  /** A request waits until it has a nameserver; then it is in flight. */
  datatype Request = Request(transId: int, ns: Option<int>, sent: bool)

  datatype Server = Server(up: bool, inflight: int)

  type Requests = map<int, Request>

  type Servers = map<int, Server>

  const NO_ID: int := 0xffff

  /** The bucket, of `n`, for a request. */
  function Slot(r: Request, n: nat): (i: nat)
    requires n > 0
    ensures i < n
  {
    r.transId % n
  }

  // Lists of requests

  /** No request is in two places. */
  ghost predicate Apart(lists: seq<seq<int>>, waiting: seq<int>) {
    && (forall i, j, x :: 0 <= i < |lists| && 0 <= j < |lists| && x in lists[i] && x in lists[j] ==> i == j)
    && (forall i, x :: 0 <= i < |lists| && x in lists[i] ==> x !in waiting)
  }

  /** The heads lead to circular lists of different requests. */
  ghost predicate RingsOk(links: Links, heads: seq<Option<int>>, lists: seq<seq<int>>, waitingHead: Option<int>,
      waiting: seq<int>) {
    && |heads| == |lists|
    && (forall i :: 0 <= i < |lists| ==> Ring(links, heads[i], lists[i]))
    && Ring(links, waitingHead, waiting)
    && Apart(lists, waiting)
  }

  ghost predicate Nowhere(id: int, lists: seq<seq<int>>, waiting: seq<int>) {
    id !in waiting && forall i :: 0 <= i < |lists| ==> id !in lists[i]
  }

  /** Adds a request at the end of list `i`. */
  method LinkIn(links: Links, heads: seq<Option<int>>, i: nat, id: int,
                ghost lists: seq<seq<int>>, ghost waitingHead: Option<int>, ghost waiting: seq<int>)
    returns (now: Links, newHeads: seq<Option<int>>)
    requires RingsOk(links, heads, lists, waitingHead, waiting) && i < |lists| && Nowhere(id, lists, waiting)
    ensures RingsOk(now, newHeads, lists[i := lists[i] + [id]], waitingHead, waiting)
  {
    hide Ring, OnlyThese;
    var head;
    now, head := Insert(links, heads[i], id, lists[i]);
    newHeads := heads[i := head];
    forall j | 0 <= j < |lists| && j != i
      ensures Ring(now, heads[j], lists[j])
    {
      RingElsewhere(links, now, heads[j], lists[j], lists[i] + [id]);
    }
    RingElsewhere(links, now, waitingHead, waiting, lists[i] + [id]);
  }

  /** Takes a request out of list `i`. */
  method LinkOut(links: Links, heads: seq<Option<int>>, i: nat, id: int,
                 ghost lists: seq<seq<int>>, ghost waitingHead: Option<int>, ghost waiting: seq<int>)
    returns (now: Links, newHeads: seq<Option<int>>)
    requires RingsOk(links, heads, lists, waitingHead, waiting) && i < |lists| && id in lists[i]
    ensures var next := lists[i := Without(lists[i], id)];
            && RingsOk(now, newHeads, next, waitingHead, waiting) && Nowhere(id, next, waiting)
            && |Without(lists[i], id)| == |lists[i]| - 1
  {
    hide Ring, OnlyThese, Without;
    RingDistinct(links, heads[i], lists[i]);
    WithoutIs(lists[i], id);
    var head;
    now, head := Remove(links, heads[i], id, lists[i]);
    newHeads := heads[i := head];
    forall j | 0 <= j < |lists| && j != i
      ensures Ring(now, heads[j], lists[j])
    {
      RingElsewhere(links, now, heads[j], lists[j], lists[i]);
    }
    RingElsewhere(links, now, waitingHead, waiting, lists[i]);
  }

  /** Adds a request at the end of the waiting list. */
  method WaitIn(links: Links, waitingHead: Option<int>, id: int,
                ghost heads: seq<Option<int>>, ghost lists: seq<seq<int>>, ghost waiting: seq<int>)
    returns (now: Links, newHead: Option<int>)
    requires RingsOk(links, heads, lists, waitingHead, waiting) && Nowhere(id, lists, waiting)
    ensures RingsOk(now, heads, lists, newHead, waiting + [id])
  {
    hide Ring, OnlyThese;
    now, newHead := Insert(links, waitingHead, id, waiting);
    forall j | 0 <= j < |lists|
      ensures Ring(now, heads[j], lists[j])
    {
      RingElsewhere(links, now, heads[j], lists[j], waiting + [id]);
    }
  }

  /** Takes a request out of the waiting list. */
  method WaitOut(links: Links, waitingHead: Option<int>, id: int,
                 ghost heads: seq<Option<int>>, ghost lists: seq<seq<int>>, ghost waiting: seq<int>)
    returns (now: Links, newHead: Option<int>)
    requires RingsOk(links, heads, lists, waitingHead, waiting) && id in waiting
    ensures RingsOk(now, heads, lists, newHead, Without(waiting, id)) && Nowhere(id, lists, Without(waiting, id))
    ensures |Without(waiting, id)| == |waiting| - 1
  {
    hide Ring, OnlyThese, Without;
    RingDistinct(links, waitingHead, waiting);
    WithoutIs(waiting, id);
    now, newHead := Remove(links, waitingHead, id, waiting);
    forall j | 0 <= j < |lists|
      ensures Ring(now, heads[j], lists[j])
    {
      RingElsewhere(links, now, heads[j], lists[j], waiting);
    }
  }

  // Where requests belong

  /** A request in flight is in the bucket of its id, and any other waits. */
  ghost predicate PlacesOk(reqs: Requests, lists: seq<seq<int>>, waiting: seq<int>) {
    && |lists| > 0
    && (forall i, id :: 0 <= i < |lists| ==>
          (id in lists[i] <==> id in reqs && reqs[id].ns.Some? && reqs[id].transId % |lists| == i))
    && (forall id :: id in waiting <==> id in reqs && reqs[id].ns.None?)
  }

  /** Different requests in flight have different ids. */
  ghost predicate IdsOk(reqs: Requests) {
    && (forall id :: id in reqs && reqs[id].ns.Some? ==> 0 <= reqs[id].transId < NO_ID)
    && (forall a, b :: (a in reqs && b in reqs && reqs[a].ns.Some? && reqs[b].ns.Some?
                        && reqs[a].transId == reqs[b].transId) ==> a == b)
  }

  ghost function Using(reqs: Requests, k: int): set<int> {
    set id | id in reqs && reqs[id].ns == Some(k)
  }

  ghost function Up(servers: Servers): set<int> {
    set k | k in servers && servers[k].up
  }

  /** What each nameserver is counted to have, and how many are good. */
  ghost predicate ServersOk(reqs: Requests, servers: Servers, ring: seq<int>, good: int) {
    && (forall k :: k in servers ==> servers[k].inflight == |Using(reqs, k)|)
    && (forall id :: id in reqs && reqs[id].ns.Some? ==> reqs[id].ns.value in servers)
    && Distinct(ring) && (forall k :: k in ring <==> k in servers)
    && good == |Up(servers)|
  }

  lemma UsingChange(reqs: Requests, next: Requests, id: int, k: int)
    requires next.Keys + {id} == reqs.Keys + {id} && forall x :: x in reqs && x != id ==> next[x] == reqs[x]
    ensures |Using(next, k)| + One(id in reqs && reqs[id].ns == Some(k))
            == |Using(reqs, k)| + One(id in next && next[id].ns == Some(k))
  {
    assert forall x :: x != id ==> (x in next <==> x in next.Keys + {id});
    assert forall x :: x != id ==> (x in reqs <==> x in reqs.Keys + {id});
    SizeChange(Using(reqs, k), Using(next, k), id);
  }

  lemma IsNowhere(reqs: Requests, lists: seq<seq<int>>, waiting: seq<int>, id: int)
    requires PlacesOk(reqs, lists, waiting) && id !in reqs
    ensures Nowhere(id, lists, waiting)
  {
  }

  lemma PlacedIn(reqs: Requests, lists: seq<seq<int>>, waiting: seq<int>, id: int, r: Request)
    requires PlacesOk(reqs, lists, waiting) && id !in reqs
    ensures r.ns.None? ==> PlacesOk(reqs[id := r], lists, waiting + [id])
    ensures r.ns.Some? ==>
      var i := r.transId % |lists|;
      PlacesOk(reqs[id := r], lists[i := lists[i] + [id]], waiting)
  {
    var next := reqs[id := r];
    assert forall x :: x in waiting + [id] <==> x in waiting || x == id;
    if r.ns.Some? {
      var i := r.transId % |lists|;
      assert forall x :: x in lists[i] + [id] <==> x in lists[i] || x == id;
    }
  }

  lemma PlacedOut(reqs: Requests, lists: seq<seq<int>>, waiting: seq<int>, id: int, nextLists: seq<seq<int>>,
      nextWaiting: seq<int>)
    requires PlacesOk(reqs, lists, waiting) && id in reqs && |nextLists| == |lists|
        && Nowhere(id, nextLists, nextWaiting)
    requires forall x :: x != id ==> (x in nextWaiting <==> x in waiting)
    requires forall i, x :: 0 <= i < |lists| && x != id ==> (x in nextLists[i] <==> x in lists[i])
    ensures PlacesOk(reqs - {id}, nextLists, nextWaiting)
  {
  }

  lemma WithoutOne(q: seq<int>, id: int)
    requires Distinct(q)
    ensures forall x :: x != id ==> (x in Without(q, id) <==> x in q)
  {
    WithoutIs(q, id);
  }

  lemma IdsIn(reqs: Requests, id: int, r: Request)
    requires IdsOk(reqs) && id !in reqs
    requires r.ns.Some? ==> 0 <= r.transId < NO_ID && forall x :: x in reqs && reqs[x].ns.Some? ==>
        reqs[x].transId != r.transId
    ensures IdsOk(reqs[id := r])
  {
  }

  lemma IdsOut(reqs: Requests, id: int)
    requires IdsOk(reqs)
    ensures IdsOk(reqs - {id})
  {
  }

  /** The servers when `k` has `d` more requests. */
  function Charged(servers: Servers, k: Option<int>, d: int): Servers {
    if k.Some? && k.value in servers
        then servers[k.value := servers[k.value].(inflight := servers[k.value].inflight + d)]
    else servers
  }

  lemma ServersChange(reqs: Requests, next: Requests, servers: Servers, nextServers: Servers, ring: seq<int>,
      good: int, id: int)
    requires ServersOk(reqs, servers, ring, good)
    requires next.Keys + {id} == reqs.Keys + {id}
    requires forall x :: x in next && x != id ==> x in reqs && next[x] == reqs[x]
    requires id in next && next[id].ns.Some? ==> next[id].ns.value in servers
    requires nextServers.Keys == servers.Keys
    requires forall k :: k in servers ==>
      && nextServers[k].up == servers[k].up
      && nextServers[k].inflight == servers[k].inflight + One(id in next
          && next[id].ns == Some(k)) - One(id in reqs && reqs[id].ns == Some(k))
    ensures ServersOk(next, nextServers, ring, good)
  {
    hide Using;
    forall k | k in nextServers
      ensures nextServers[k].inflight == |Using(next, k)|
    {
      UsingChange(reqs, next, id, k);
    }
    SameUp(servers, nextServers);
  }

  lemma SameUp(servers: Servers, next: Servers)
    requires next.Keys == servers.Keys && forall k :: k in servers ==> next[k].up == servers[k].up
    ensures Up(next) == Up(servers)
  {
    forall k
      ensures k in Up(next) <==> k in Up(servers)
    {
      assert k in next.Keys <==> k in servers.Keys;
    }
  }

  // Ids in use

  function TransIdOf(reqs: Requests, id: int): int {
    if id in reqs then reqs[id].transId else NO_ID
  }

  ghost function IdsOf(reqs: Requests, q: seq<int>): set<int> {
    if |q| == 0 then {} else {TransIdOf(reqs, q[0])} + IdsOf(reqs, q[1..])
  }

  ghost function AllIds(reqs: Requests, lists: seq<seq<int>>): set<int> {
    if |lists| == 0 then {} else IdsOf(reqs, lists[0]) + AllIds(reqs, lists[1..])
  }

  lemma {:induction false} IdsOfAll(reqs: Requests, q: seq<int>)
    ensures |IdsOf(reqs, q)| <= |q| && forall id :: id in q ==> TransIdOf(reqs, id) in IdsOf(reqs, q)
  {
    if |q| > 0 {
      IdsOfAll(reqs, q[1..]);
    }
  }

  lemma {:induction false} AllIdsAll(reqs: Requests, lists: seq<seq<int>>)
    ensures |AllIds(reqs, lists)| <= Total(lists)
    ensures forall i, id :: 0 <= i < |lists| && id in lists[i] ==> TransIdOf(reqs, id) in AllIds(reqs, lists)
  {
    if |lists| > 0 {
      IdsOfAll(reqs, lists[0]);
      AllIdsAll(reqs, lists[1..]);
      forall i, id | 0 <= i < |lists| && id in lists[i]
        ensures TransIdOf(reqs, id) in AllIds(reqs, lists)
      {
        assert i > 0 ==> lists[i] == lists[1..][i - 1];
      }
    }
  }

  lemma {:induction false} Pigeonhole(used: set<int>, n: nat)
    requires forall t :: 0 <= t < n ==> t in used
    ensures |used| >= n
  {
    if n > 0 {
      var rest := used - {n - 1};
      Pigeonhole(rest, n - 1);
      assert used == rest + {n - 1};
    }
  }

  /** No request in flight has this id. */
  predicate FreeId(reqs: Requests, tid: int) {
    0 <= tid < NO_ID && forall x :: x in reqs && reqs[x].ns.Some? ==> reqs[x].transId != tid
  }

  /** With fewer requests in flight than there are ids, some id is free. */
  lemma SomeIdFree(reqs: Requests, lists: seq<seq<int>>, waiting: seq<int>)
    requires PlacesOk(reqs, lists, waiting) && Total(lists) < NO_ID
    ensures exists tid :: FreeId(reqs, tid)
  {
    var used := AllIds(reqs, lists);
    AllIdsAll(reqs, lists);
    if forall t :: 0 <= t < NO_ID ==> t in used {
      Pigeonhole(used, NO_ID);
    }
    var tid :| 0 <= tid < NO_ID && tid !in used;
    forall x | x in reqs && reqs[x].ns.Some?
      ensures reqs[x].transId != tid
    {
      assert x in lists[reqs[x].transId % |lists|];
      assert TransIdOf(reqs, x) in used;
    }
    assert FreeId(reqs, tid);
  }

  // Rehashing

  /**
   * While requests move from the first `m` buckets to the `n` after them, a request in flight is where
   * its id says, among the old buckets or the new.
   */
  ghost predicate Moving(reqs: Requests, all: seq<seq<int>>, m: nat, n: nat) {
    && m > 0 && n > 0 && |all| == m + n
    && (forall p, id :: 0 <= p < m && id in all[p] ==> id in reqs && reqs[id].ns.Some? && Slot(reqs[id], m) == p)
    && (forall p, id :: m <= p < m + n && id in all[p] ==>
                          id in reqs && reqs[id].ns.Some? && Slot(reqs[id], n) == p - m)
    && (forall id :: id in reqs && reqs[id].ns.Some? ==>
                       id in all[Slot(reqs[id], m)] || id in all[m + Slot(reqs[id], n)])
  }

  lemma MovingStarts(reqs: Requests, lists: seq<seq<int>>, waiting: seq<int>, empty: seq<seq<int>>)
    requires PlacesOk(reqs, lists, waiting) && |empty| > 0 && forall i :: 0 <= i < |empty| ==> empty[i] == []
    ensures Moving(reqs, lists + empty, |lists|, |empty|) && Total(lists + empty) == Total(lists)
  {
    TotalConcat(lists, empty);
    TotalEmpty(empty);
    var all := lists + empty;
    forall id | id in reqs && reqs[id].ns.Some?
      ensures id in all[reqs[id].transId % |lists|]
    {
      assert id in lists[reqs[id].transId % |lists|];
    }
  }

  lemma {:induction false} TotalConcat(a: seq<seq<int>>, b: seq<seq<int>>)
    ensures Total(a + b) == Total(a) + Total(b)
  {
    if |a| == 0 {
      assert a + b == b;
    } else {
      TotalConcat(a[1..], b);
      assert (a + b)[1..] == a[1..] + b;
    }
  }

  lemma {:induction false} TotalEmpty(lists: seq<seq<int>>)
    requires forall i :: 0 <= i < |lists| ==> lists[i] == []
    ensures Total(lists) == 0
  {
    if |lists| > 0 {
      TotalEmpty(lists[1..]);
    }
  }

  /** Room for new buckets behind the old. */
  lemma RingsMore(links: Links, heads: seq<Option<int>>, lists: seq<seq<int>>, waitingHead: Option<int>,
      waiting: seq<int>,
                  none: seq<Option<int>>, empty: seq<seq<int>>)
    requires RingsOk(links, heads, lists, waitingHead, waiting) && |none| == |empty|
    requires forall i :: 0 <= i < |empty| ==> none[i] == None && empty[i] == []
    ensures RingsOk(links, heads + none, lists + empty, waitingHead, waiting)
  {
    hide Ring;
    var hs, ls := heads + none, lists + empty;
    forall i | 0 <= i < |ls|
      ensures Ring(links, hs[i], ls[i])
    {
      if i >= |lists| {
        EmptyRing(links);
      }
    }
  }

  lemma EmptyRing(links: Links)
    ensures Ring(links, None, [])
  {
  }

  lemma MovedOne(reqs: Requests, all: seq<seq<int>>, m: nat, n: nat, i: nat, id: int, out: seq<seq<int>>,
      done: seq<seq<int>>)
    requires Moving(reqs, all, m, n) && i < m && id in all[i] && Distinct(all[i])
    requires out == all[i := Without(all[i], id)]
    requires id in reqs && var j := m + Slot(reqs[id], n); j < |out| && done == out[j := out[j] + [id]]
    ensures Moving(reqs, done, m, n)
  {
    hide Without, Distinct, Slot;
    var j := m + Slot(reqs[id], n);
    MovedMembers(all, i, j, id, done);
    forall x | x in reqs && reqs[x].ns.Some?
      ensures x in done[Slot(reqs[x], m)] || x in done[m + Slot(reqs[x], n)]
    {
      assert x in all[Slot(reqs[x], m)] || x in all[m + Slot(reqs[x], n)];
    }
  }

  /** When `id` moves from list `i` to the end of list `j`, nothing else does. */
  lemma MovedMembers(all: seq<seq<int>>, i: nat, j: nat, id: int, done: seq<seq<int>>)
    requires i < j < |all| && Distinct(all[i])
    requires var out := all[i := Without(all[i], id)]; done == out[j := out[j] + [id]]
    ensures |done| == |all|
    ensures forall p, x :: 0 <= p < |all| && x != id ==> (x in done[p] <==> x in all[p])
    ensures id in done[j] && forall p :: 0 <= p < |all| && p != j && id in done[p] ==> id in all[p]
  {
    hide Distinct, Without;
    WithoutIs(all[i], id);
    assert forall x :: x in done[j] <==> x in all[j] || x == id;
    assert forall x :: x in done[i] <==> x in all[i] && x != id;
    assert forall p :: 0 <= p < |all| && p != i && p != j ==> done[p] == all[p];
  }

  /** With the old buckets empty, the new ones have everything. */
  lemma MovingEnds(reqs: Requests, links: Links, heads: seq<Option<int>>, all: seq<seq<int>>, waitingHead: Option<int>,
                   waiting: seq<int>, m: nat, n: nat)
    requires Moving(reqs, all, m, n) && RingsOk(links, heads, all, waitingHead, waiting) && |heads| == |all| == m + n
    requires forall p :: 0 <= p < m ==> all[p] == []
    requires forall id :: id in waiting <==> id in reqs && reqs[id].ns.None?
    ensures PlacesOk(reqs, all[m..], waiting) && RingsOk(links, heads[m..], all[m..], waitingHead, waiting)
    ensures Total(all[m..]) == Total(all)
  {
    hide RingsOk, Moving, PlacesOk;
    MovedPlaces(reqs, all, waiting, m, n);
    RingsSuffix(links, heads, all, waitingHead, waiting, m);
    assert all == all[..m] + all[m..];
    TotalConcat(all[..m], all[m..]);
    TotalEmpty(all[..m]);
  }

  lemma MovedPlaces(reqs: Requests, all: seq<seq<int>>, waiting: seq<int>, m: nat, n: nat)
    requires Moving(reqs, all, m, n) && forall p :: 0 <= p < m ==> all[p] == []
    requires forall id :: id in waiting <==> id in reqs && reqs[id].ns.None?
    ensures m <= |all| && PlacesOk(reqs, all[m..], waiting)
  {
    var lists := all[m..];
    forall i, id | 0 <= i < |lists|
      ensures id in lists[i] <==> id in reqs && reqs[id].ns.Some? && reqs[id].transId % |lists| == i
    {
      assert lists[i] == all[m + i];
    }
  }

  lemma RingsSuffix(links: Links, heads: seq<Option<int>>, all: seq<seq<int>>, waitingHead: Option<int>,
      waiting: seq<int>, m: nat)
    requires RingsOk(links, heads, all, waitingHead, waiting) && m <= |all|
    ensures |heads| == |all| && RingsOk(links, heads[m..], all[m..], waitingHead, waiting)
  {
    hide Ring;
    var lists := all[m..];
    forall i, j, x | 0 <= i < |lists| && 0 <= j < |lists| && x in lists[i] && x in lists[j]
      ensures i == j
    {
      assert lists[i] == all[m + i] && lists[j] == all[m + j];
    }
  }
}
