/** The requests of a resolver: in flight to some nameserver, or waiting for room. */
module DnsResolver {
  import opened Bytes
  import opened DnsRequests
  import opened DnsSuspension
  import opened Lists
  import opened Rings

  /** What comes of trying to send a request. */
  datatype Outcome = Sent | TryLater | ServerFailed

  /** The first server of the ring that is up is number `m`. */
  ghost predicate FirstUp(ring: seq<int>, servers: Servers, m: nat) {
    && m < |ring| && ring[m] in servers && servers[ring[m]].up
    && forall j :: 0 <= j < m ==> ring[j] in servers && !servers[ring[j]].up
  }

  /** The ring was turned by `n` servers. */
  ghost predicate IsTurned(was: seq<int>, ring: seq<int>, n: nat) {
    n <= |was| && ring == was[n..] + was[..n]
  }

  lemma NotTurned(ring: seq<int>)
    ensures IsTurned(ring, ring, 0)
  {
  }

  lemma TurnedOne(was: seq<int>, ring: seq<int>, n: nat)
    requires IsTurned(was, ring, n) && n < |was|
    ensures |ring| == |was| && ring[0] == was[n] && IsTurned(was, ring[1..] + [ring[0]], n + 1)
  {
  }

  lemma TurnedOk(reqs: Requests, servers: Servers, was: seq<int>, ring: seq<int>, n: nat, good: int)
    requires ServersOk(reqs, servers, was, good) && IsTurned(was, ring, n)
    ensures ServersOk(reqs, servers, ring, good)
  {
    hide Using, Up;
    assert was == was[..n] + was[n..];
  }

  /** It is the turn of `k`: it is the first that is up, or the second, if there is one, when all are down. */
  ghost predicate HasTurn(ring: seq<int>, servers: Servers, good: int, k: int) {
    if good > 0 then exists m: nat :: FirstUp(ring, servers, m) && ring[m] == k
    else |ring| > 0 && k == ring[if |ring| > 1 then 1 else 0]
  }

  /** It is the turn of one server only, of one that is up if there is any. */
  lemma OneTurn(ring: seq<int>, servers: Servers, good: int, k: int, l: int)
    requires HasTurn(ring, servers, good, k)
    ensures HasTurn(ring, servers, good, l) <==> k == l
    ensures good > 0 ==> k in servers && servers[k].up
  {
    if good > 0 && HasTurn(ring, servers, good, l) {
      var m: nat :| FirstUp(ring, servers, m) && ring[m] == k;
      var n: nat :| FirstUp(ring, servers, n) && ring[n] == l;
    }
  }

  class Resolver {
    var links: Links
    var reqs: Requests
    var heads: seq<Option<int>>   // of the requests in flight, by transaction id
    var waitingHead: Option<int>
    var servers: Servers
    var ring: seq<int>            // the nameservers in turn, the next one first
    var inflight: int
    var waitingCount: int
    var maxInflight: int
    var good: int                 // how many nameservers are up
    ghost var lists: seq<seq<int>>
    ghost var waiting: seq<int>

    ghost predicate ListsOk()
      reads this`links, this`reqs, this`heads, this`waitingHead, this`inflight, this`waitingCount, this`lists,
          this`waiting
    {
      && RingsOk(links, heads, lists, waitingHead, waiting) && PlacesOk(reqs, lists, waiting)
      && inflight == Total(lists) && waitingCount == |waiting|
    }

    ghost predicate Valid()
      reads this
    {
      ListsOk() && IdsOk(reqs) && ServersOk(reqs, servers, ring, good)
    }

    lemma IsValid()
      requires RingsOk(links, heads, lists, waitingHead, waiting) && PlacesOk(reqs, lists, waiting)
      requires inflight == Total(lists) && waitingCount == |waiting|
      requires IdsOk(reqs) && ServersOk(reqs, servers, ring, good)
      ensures Valid()
    {
      hide RingsOk, PlacesOk, IdsOk, ServersOk, Total;
    }

    constructor (maxInflight: nat)
      ensures Valid() && reqs == map[] && servers == map[] && waiting == []
      ensures this.maxInflight == (if maxInflight < 1 then 1 else maxInflight) && |heads| == (this.maxInflight + 4) / 5
    {
      var max := if maxInflight < 1 then 1 else maxInflight;
      this.maxInflight := max;
      heads := seq((max + 4) / 5, _ => None);
      lists := seq((max + 4) / 5, _ => []);
      links, reqs, waitingHead, servers, ring := map[], map[], None, map[], [];
      inflight, waitingCount, good, waiting := 0, 0, 0, [];
      new;
      NothingKept(heads, lists);
    }

    /** Puts a request where it belongs: in the bucket of its id if it has a nameserver, else among those waiting. */
    method Enter(id: int, r: Request)
      requires Valid() && id !in reqs && (r.ns.Some? ==> r.ns.value in servers && FreeId(reqs, r.transId))
      modifies this`links, this`reqs, this`heads, this`waitingHead, this`servers, this`inflight, this`waitingCount
      modifies this`lists, this`waiting
      ensures Valid() && reqs == old(reqs)[id := r] && servers == Charged(old(servers), r.ns, 1)
      ensures r.ns.Some? ==>
                && waiting == old(waiting) && waitingHead == old(waitingHead) && inflight == old(inflight) + 1
                && |old(lists)| > 0 && var i := r.transId % |old(lists)|;
                   lists == old(lists)[i := old(lists)[i] + [id]]
      ensures r.ns.None? ==>
                && waiting == old(waiting) + [id] && inflight == old(inflight)
                && lists == old(lists) && heads == old(heads)
    {
      hide RingsOk, PlacesOk, IdsOk, ServersOk, Nowhere, Total, FreeId, Charged;
      ghost var was := reqs;
      SomeBuckets(reqs, links, heads, lists, waitingHead, waiting);
      IsNowhere(reqs, lists, waiting, id);
      PlacedIn(reqs, lists, waiting, id, r);
      FreeIdIn(reqs, id, r);
      EnterCharged(was, servers, ring, good, id, r);
      if r.ns.Some? {
        var i := r.transId % |heads|;
        TotalChange(lists, i, lists[i] + [id]);
        links, heads := LinkIn(links, heads, i, id, lists, waitingHead, waiting);
        lists := lists[i := lists[i] + [id]];
        inflight := inflight + 1;
      } else {
        links, waitingHead := WaitIn(links, waitingHead, id, heads, lists, waiting);
        waiting := waiting + [id];
        waitingCount := waitingCount + 1;
      }
      reqs := reqs[id := r];
      servers := Charged(servers, r.ns, 1);
      IsValid();
    }

    /** Takes a request out of wherever it is. */
    method Leave(id: int)
      requires Valid() && id in reqs
      modifies this`links, this`reqs, this`heads, this`waitingHead, this`servers, this`inflight, this`waitingCount
      modifies this`lists, this`waiting
      ensures Valid() && reqs == old(reqs) - {id} && servers == Charged(old(servers), old(reqs)[id].ns, -1)
      ensures old(reqs)[id].ns.Some? ==>
                && waiting == old(waiting) && waitingHead == old(waitingHead) && inflight == old(inflight) - 1
                && |old(lists)| > 0 && var i := old(reqs)[id].transId % |old(lists)|;
                   lists == old(lists)[i := Without(old(lists)[i], id)]
      ensures old(reqs)[id].ns.None? ==>
                && waiting == Without(old(waiting), id) && |waiting| == |old(waiting)| - 1
                && inflight == old(inflight) && lists == old(lists) && heads == old(heads)
    {
      hide RingsOk, PlacesOk, IdsOk, ServersOk, Nowhere, Without, Total, Charged, Distinct;
      SomeBuckets(reqs, links, heads, lists, waitingHead, waiting);
      InPlace(reqs, lists, waiting, id);
      IdsOut(reqs, id);
      LeaveCharged(reqs, servers, ring, good, id);
      AllDistinct(links, heads, lists, waitingHead, waiting);
      if reqs[id].ns.Some? {
        var i := reqs[id].transId % |heads|;
        TotalChange(lists, i, Without(lists[i], id));
        WithoutOne(lists[i], id);
        links, heads := LinkOut(links, heads, i, id, lists, waitingHead, waiting);
        PlacedOut(reqs, lists, waiting, id, lists[i := Without(lists[i], id)], waiting);
        lists := lists[i := Without(lists[i], id)];
        inflight := inflight - 1;
      } else {
        WithoutOne(waiting, id);
        links, waitingHead := WaitOut(links, waitingHead, id, heads, lists, waiting);
        PlacedOut(reqs, lists, waiting, id, lists, Without(waiting, id));
        waiting := Without(waiting, id);
        waitingCount := waitingCount - 1;
      }
      servers := Charged(servers, reqs[id].ns, -1);
      reqs := reqs - {id};
    }

    /** The request in flight with this id, looked for in its bucket only. */
    method FindFromTransId(tid: int) returns (r: Option<int>)
      requires Valid() && tid >= 0
      ensures r.Some? ==> r.value in reqs && reqs[r.value].ns.Some? && reqs[r.value].transId == tid
      ensures r.None? ==> forall id :: id in reqs && reqs[id].ns.Some? ==> reqs[id].transId != tid
    {
      hide RingsOk, PlacesOk, IdsOk, ServersOk;
      SomeBuckets(reqs, links, heads, lists, waitingHead, waiting);
      var i: nat := tid % |heads|;
      ghost var q := lists[i];
      RingAt(links, heads, lists, waitingHead, waiting, i);
      if heads[i].None? {
        NotInBucket(tid);
        return None;
      }
      var startedAt := heads[i].value;
      var req := startedAt;
      ghost var k: nat := 0;
      InBucket(i, 0);
      while true
        invariant k < |q| && req == q[k] && req in reqs && req in links
        invariant forall j :: 0 <= j < k ==> q[j] in reqs && reqs[q[j]].transId != tid
        decreases |q| - k
      {
        LinkedIn(links, heads[i], q, k);
        InBucket(i, k);
        if reqs[req].transId == tid {
          return Some(req);
        }
        SameIndex(q, After(k, |q|), 0);
        req := links[req].next;
        if req == startedAt {
          break;
        }
        k := k + 1;
        InBucket(i, k);
      }
      NotInBucket(tid);
      return None;
    }

    lemma InBucket(i: nat, k: nat)
      requires Valid() && i < |lists| && k < |lists[i]|
      ensures lists[i][k] in reqs && reqs[lists[i][k]].ns.Some? && reqs[lists[i][k]].transId % |lists| == i
      ensures lists[i][k] in links
    {
      var x := lists[i][k];
      assert x in lists[i];
      LinkedIn(links, heads[i], lists[i], k);
    }

    lemma NotInBucket(tid: int)
      requires Valid() && tid >= 0 && |lists| > 0
      requires var q := lists[tid % |lists|]; forall j :: 0 <= j < |q| ==> q[j] in reqs && reqs[q[j]].transId != tid
      ensures forall id :: id in reqs && reqs[id].ns.Some? ==> reqs[id].transId != tid
    {
      forall id | id in reqs && reqs[id].ns.Some?
        ensures reqs[id].transId != tid
      {
        if reqs[id].transId == tid {
          InPlace(reqs, lists, waiting, id);
        }
      }
    }

    /** An id that no request in flight has. The source draws ids at random until it finds one. */
    method TransactionIdPick() returns (tid: int)
      requires Valid() && inflight < NO_ID
      ensures FreeId(reqs, tid)
    {
      SomeIdFree(reqs, lists, waiting);
      tid :| 0 <= tid < NO_ID && FreeId(reqs, tid);
    }

    /** The next nameserver that is up; if none is, just the next. The turn passes to those after it. */
    method NameserverPick() returns (k: Option<int>)
      requires Valid()
      modifies this`ring
      ensures Valid() && (k.None? <==> servers == map[])
      ensures k.None? ==> ring == old(ring)
      ensures k.Some? ==> k.value in servers && (good > 0 ==> servers[k.value].up)
      ensures k.Some? ==> HasTurn(old(ring), servers, good, k.value)
      ensures k.Some? && good > 0 ==> ring[|ring| - 1] == k.value && exists m: nat :: IsTurned(old(ring), ring, m)
      ensures k.Some? && good == 0 ==> ring[0] == k.value && IsTurned(old(ring), ring, 1)
    {
      hide ListsOk, IdsOk, Up, Using;
      if |ring| == 0 {
        NoServers(servers, ring);
        return None;
      }
      SomeServer(servers, ring);
      if good == 0 {
        Rotated(ring);
        ring := ring[1..] + [ring[0]];
        assert ring == old(ring)[1..] + old(ring)[..1];
        return Some(ring[0]);
      }
      ghost var n := TurnToUp();
      k := Some(ring[0]);
      Rotated(ring);
      ring := ring[1..] + [ring[0]];
      assert ring == old(ring)[n + 1..] + old(ring)[..n + 1];
      assert IsTurned(old(ring), ring, n + 1);
    }

    /** Turns the ring, past `n` servers that are down, until one that is up is first. */
    method TurnToUp() returns (ghost n: nat)
      requires Valid() && good > 0 && |ring| > 0
      modifies this`ring
      ensures Valid() && FirstUp(old(ring), servers, n) && IsTurned(old(ring), ring, n)
    {
      hide ListsOk, IdsOk, ServersOk, IsTurned;
      ghost var m := GoodIsUp();
      // Some server is up, so the source's test for having gone round once never holds.
      NotTurned(ring);
      n := 0;
      while !servers[ring[0]].up
        modifies this`ring
        invariant n <= m < |old(ring)| == |ring| && ring[0] == old(ring)[n] && IsTurned(old(ring), ring, n)
        invariant forall j: nat :: j < n ==> old(ring)[j] in servers && !servers[old(ring)[j]].up
        decreases m - n
      {
        TurnedOne(old(ring), ring, n);
        n := n + 1;
        ring := ring[1..] + [ring[0]];
        TurnedOne(old(ring), ring, n);
      }
      TurnedOk(reqs, servers, old(ring), ring, n, good);
    }

    /** Some server is up, if any is counted. */
    lemma GoodIsUp() returns (m: nat)
      requires Valid() && good > 0
      ensures forall k: nat :: k < |ring| ==> ring[k] in servers
      ensures m < |ring| && servers[ring[m]].up
    {
      hide ListsOk, IdsOk, Up, Using;
      m := SomeUp(servers, ring);
    }

    /** Gives a request in flight to another nameserver. */
    method SwapNs(id: int, k: int)
      requires Valid() && id in reqs && reqs[id].ns.Some? && k in servers
      modifies this`reqs, this`servers
      ensures Valid() && reqs == old(reqs)[id := old(reqs)[id].(ns := Some(k))]
      ensures servers.Keys == old(servers).Keys && forall s :: s in servers ==> servers[s].up == old(servers)[s].up
    {
      hide RingsOk, PlacesOk, IdsOk, ServersOk;
      if reqs[id].ns == Some(k) {
        return;
      }
      var was := reqs[id].ns.value;
      var r := reqs[id].(ns := Some(k));
      SwapCharged(reqs, servers, ring, good, id, k);
      StaysPlaced(reqs, lists, waiting, id, r);
      servers := servers[was := servers[was].(inflight := servers[was].inflight - 1)];
      servers := servers[k := servers[k].(inflight := servers[k].inflight + 1)];
      reqs := reqs[id := r];
    }

    method MarkSent(id: int, sent: bool)
      requires Valid() && id in reqs && reqs[id].ns.Some?
      modifies this`reqs
      ensures Valid() && reqs == old(reqs)[id := old(reqs)[id].(sent := sent)]
    {
      hide RingsOk, PlacesOk, IdsOk, ServersOk;
      var r := reqs[id].(sent := sent);
      MarkCharged(reqs, servers, ring, good, id, r);
      StaysPlaced(reqs, lists, waiting, id, r);
      reqs := reqs[id := r];
    }

    /** A nameserver goes down, or comes up. */
    method SetUp(k: int, up: bool)
      requires Valid() && k in servers && servers[k].up != up
      modifies this`servers, this`good
      ensures Valid() && servers == old(servers)[k := old(servers)[k].(up := up)]
      ensures good == old(good) + if up then 1 else -1
    {
      hide RingsOk, PlacesOk, IdsOk, ServersOk;
      UpCounted(reqs, servers, ring, good, k, up);
      good := if up then good + 1 else good - 1;
      servers := servers[k := servers[k].(up := up)];
    }

    ghost predicate Stuck(id: int, k: int)
      reads this`reqs
    {
      id in reqs && reqs[id].ns == Some(k) && !reqs[id].sent
    }

    /**
     * A nameserver has failed. If another is up, all requests that were still to be sent to it are given
     * to servers that are up, and no other request is touched.
     */
    method NameserverFailed(k: int)
      requires Valid() && k in servers
      modifies this`reqs, this`servers, this`ring, this`good
      ensures Valid() && servers.Keys == old(servers).Keys
      ensures forall s :: s in servers ==> servers[s].up == (old(servers)[s].up && s != k)
      ensures good == old(good) - if old(servers)[k].up then 1 else 0
      ensures AllReassigned(old(reqs), reqs, k, servers)
      ensures if old(servers)[k].up && good > 0 then forall id :: !Stuck(id, k) else reqs == old(reqs)
    {
      hide RingsOk, PlacesOk, IdsOk, ServersOk;
      if !servers[k].up {
        return;
      }
      SetUp(k, false);
      GoodIsCount();
      if good == 0 {
        return;
      }
      for i := 0 to |heads|
        invariant Valid() && good > 0 && good == old(good) - 1
        invariant servers.Keys == old(servers).Keys && k in servers
        invariant forall s :: s in servers ==> servers[s].up == (old(servers)[s].up && s != k)
        invariant AllReassigned(old(reqs), reqs, k, servers)
        invariant forall j, id :: 0 <= j < i && id in lists[j] ==> !Stuck(id, k)
      {
        ghost var mid, before := reqs, servers;
        ReassignBucket(i, k);
        AllReassignedTwice(old(reqs), mid, reqs, k, before, servers);
      }
      NoneStuck(k);
    }

    lemma GoodIsCount()
      requires Valid()
      ensures good >= 0 && |heads| == |lists|
    {
    }

    lemma NoneStuck(k: int)
      requires Valid() && forall j, id :: 0 <= j < |lists| && id in lists[j] ==> !Stuck(id, k)
      ensures forall id :: !Stuck(id, k)
    {
      forall id
        ensures !Stuck(id, k)
      {
        if id in reqs && reqs[id].ns.Some? {
          InPlace(reqs, lists, waiting, id);
          assert id in lists[reqs[id].transId % |lists|];
        }
      }
    }

    /** Gives the unsent requests of server `k` in one bucket to other servers, going round by the links. */
    method ReassignBucket(i: nat, k: int)
      requires Valid() && good > 0 && i < |lists| && k in servers && !servers[k].up
      modifies this`reqs, this`servers, this`ring
      ensures Valid() && servers.Keys == old(servers).Keys && !servers[k].up
      ensures forall s :: s in servers ==> servers[s].up == old(servers)[s].up
      ensures AllReassigned(old(reqs), reqs, k, servers)
      ensures forall id :: Stuck(id, k) ==> old(Stuck(id, k))
      ensures forall id :: id in lists[i] ==> !Stuck(id, k)
    {
      hide RingsOk, PlacesOk, IdsOk, ServersOk;
      SomeBuckets(reqs, links, heads, lists, waitingHead, waiting);
      RingAt(links, heads, lists, waitingHead, waiting, i);
      if heads[i].None? {
        return;
      }
      var startedAt := heads[i].value;
      var req := startedAt;
      ghost var q, n: nat := lists[i], 0;
      while true
        invariant Valid() && n < |q| && req == q[n]
        invariant servers.Keys == old(servers).Keys && k in servers && !servers[k].up
        invariant forall s :: s in servers ==> servers[s].up == old(servers)[s].up
        invariant AllReassigned(old(reqs), reqs, k, servers)
        invariant forall id :: Stuck(id, k) ==> old(Stuck(id, k))
        invariant forall j :: 0 <= j < n ==> !Stuck(q[j], k)
        decreases |q| - n
      {
        InBucket(i, n);
        LinkedIn(links, heads[i], q, n);
        RingDistinct(links, heads[i], q);
        if !reqs[req].sent && reqs[req].ns == Some(k) {
          ghost var mid, before := reqs, servers;
          var ns := NameserverPick();
          SwapNs(req, ns.value);
          AllReassignedTwice(old(reqs), mid, reqs, k, before, servers);
        }
        SameIndex(q, After(n, |q|), 0);
        req := links[req].next;
        if req == startedAt {
          break;
        }
        n := n + 1;
      }
      forall id | id in lists[i]
        ensures !Stuck(id, k)
      {
        var j :| 0 <= j < |q| && q[j] == id;
      }
    }

    /**
     * Tries to send a request in flight. If its server fails altogether, that goes down, and the request
     * counts as sent all the same, wherever it then is.
     */
    method Transmit(id: int, outcome: Outcome)
      requires Valid() && id in reqs && reqs[id].ns.Some?
      modifies this`reqs, this`servers, this`ring, this`good
      ensures Valid() && servers.Keys == old(servers).Keys && OnlySent(old(reqs), reqs)
      ensures outcome.Sent? ==> reqs == old(reqs)[id := old(reqs)[id].(sent := true)]
      ensures outcome.TryLater? ==> reqs == old(reqs)
      ensures outcome.ServerFailed? ==>
                && Failed(old(reqs), reqs, id, servers) && reqs[id].sent
                && old(reqs)[id].ns.value in servers && !servers[old(reqs)[id].ns.value].up
      ensures !outcome.ServerFailed? ==> servers == old(servers) && ring == old(ring) && good == old(good)
    {
      hide ListsOk, IdsOk, ServersOk, Reassigned;
      match outcome
      case Sent =>
        MarkSent(id, true);
        OneMarked(old(reqs), id, true);
      case TryLater =>
        NothingSent(reqs);
      case ServerFailed =>
        ServerOf(id);
        var k := reqs[id].ns.value;
        NameserverFailed(k);
        ReassignedSent(old(reqs), reqs, id, k, servers);
        MarkSent(id, true);
    }

    lemma ServerOf(id: int)
      requires Valid() && id in reqs && reqs[id].ns.Some?
      ensures reqs[id].ns.value in servers
    {
    }

    /** Promotes a waiting request. */
    method Promote(id: int, k: int, tid: int)
      requires Valid() && id in reqs && reqs[id].ns.None? && k in servers && FreeId(reqs, tid)
      modifies this`links, this`reqs, this`heads, this`waitingHead, this`servers, this`inflight, this`waitingCount
      modifies this`lists, this`waiting
      ensures Valid() && reqs == old(reqs)[id := Request(tid, Some(k), old(reqs)[id].sent)]
      ensures waiting == Without(old(waiting), id) && |waiting| == |old(waiting)| - 1 && inflight == old(inflight) + 1
      ensures servers.Keys == old(servers).Keys
    {
      hide ListsOk, IdsOk, ServersOk, Without;
      var r := Request(tid, Some(k), reqs[id].sent);
      Leave(id);
      Enter(id, r);
    }

    /**
     * Promotes waiting requests, the first first, while there is room. After that none waits, or there
     * is no room, or no nameserver. It never goes over the limit.
     */
    method PumpWaitingQueue(outcomes: nat -> Outcome)
      requires Valid() && maxInflight <= NO_ID
      modifies this`links, this`reqs, this`heads, this`waitingHead, this`servers, this`ring, this`inflight
      modifies this`waitingCount, this`good, this`lists, this`waiting
      ensures Valid() && reqs.Keys == old(reqs).Keys && servers.Keys == old(servers).Keys
      ensures waitingCount == 0 || inflight >= maxInflight || servers == map[]
      ensures inflight <= maxInflight || inflight == old(inflight)
      ensures |waiting| <= |old(waiting)| && waiting == old(waiting)[|old(waiting)| - |waiting|..]
      ensures inflight == old(inflight) + |old(waiting)| - |waiting|
      ensures Promoted(old(reqs), reqs, waiting)
    {
      hide ListsOk, IdsOk, ServersOk, FreeId, OnlySent, Promoted, Without;
      var n: nat := 0;
      WaitingCounted();
      NonePromoted();
      while inflight < maxInflight && waitingCount > 0
        invariant Valid() && reqs.Keys == old(reqs).Keys && servers.Keys == old(servers).Keys
        invariant n <= |old(waiting)| && waiting == old(waiting)[n..] && waitingCount == |waiting|
        invariant inflight == old(inflight) + n && (inflight <= maxInflight || n == 0)
        invariant Promoted(old(reqs), reqs, waiting)
        decreases |waiting|
      {
        FirstWaiting();
        var id := waitingHead.value;
        var ns := NameserverPick();
        if ns.None? {
          return;
        }
        var tid := TransactionIdPick();
        assert Without(waiting, id) == waiting[1..] by { FirstWithout(waiting); }
        ghost var mid, were := reqs, waiting;
        Promote(id, ns.value, tid);
        n := n + 1;
        ghost var was := reqs;
        Transmit(id, outcomes(n));
        SentKeeps(was, reqs);
        PromotedOne(old(reqs), mid, was, reqs, were, id);
        WaitingCounted();
      }
    }

    lemma NonePromoted()
      requires Valid()
      ensures Promoted(reqs, reqs, waiting)
    {
      WaitersWait();
    }

    lemma WaitingCounted()
      requires Valid()
      ensures waitingCount == |waiting|
    {
    }

    lemma FirstWaiting()
      requires Valid() && waitingCount > 0
      ensures waitingHead == Some(waiting[0]) && waiting[0] in reqs && reqs[waiting[0]].ns.None?
      ensures waiting[0] !in waiting[1..]
    {
      var x := waiting[0];
      assert x in waiting;
    }

    /** A new request: in flight at once if there is room, and a nameserver; else it waits. It goes to
        the server whose turn it is, with an id that is free. */
    method Submit(id: int, outcome: Outcome)
      requires Valid() && maxInflight <= NO_ID && id !in reqs
      modifies this`links, this`reqs, this`heads, this`waitingHead, this`servers, this`ring, this`inflight
      modifies this`waitingCount, this`good, this`lists, this`waiting
      ensures Valid() && reqs.Keys == old(reqs).Keys + {id}
      ensures reqs[id].ns.Some? <==> old(inflight) < maxInflight && servers != map[]
      ensures reqs[id].ns.None? ==>
                waiting == old(waiting) + [id] && inflight == old(inflight) && reqs == old(reqs)[id := reqs[id]]
                && !reqs[id].sent
      ensures reqs[id].ns.Some? ==>
                waiting == old(waiting) && inflight == old(inflight) + 1 && FreeId(old(reqs), reqs[id].transId)
      ensures reqs[id].ns.Some? && !outcome.ServerFailed? ==>
                && HasTurn(old(ring), old(servers), good, reqs[id].ns.value)
                && reqs == old(reqs)[id := reqs[id]] && reqs[id].sent == outcome.Sent?
      ensures reqs[id].ns.Some? && outcome.ServerFailed? ==>
                && reqs[id].sent
                && exists r: Request :: !r.sent && r.ns.Some? && HasTurn(old(ring), old(servers), old(good), r.ns.value)
                                        && Failed(old(reqs)[id := r], reqs, id, servers)
    {
      hide ListsOk, IdsOk, ServersOk, FreeId, OnlySent, HasTurn, Failed;
      var issuingNow := inflight < maxInflight;
      var tid, ns := NO_ID, None;
      if issuingNow {
        tid := TransactionIdPick();
        ns := NameserverPick();
      }
      Enter(id, Request(tid, ns, false));
      if ns.Some? {
        ghost var was := reqs;
        assert was == old(reqs)[id := Request(tid, ns, false)];
        Transmit(id, outcome);
        SentKeeps(was, reqs);
        SomeServersLeft(id);
      }
    }

    lemma SomeServersLeft(id: int)
      requires Valid() && id in reqs && reqs[id].ns.Some?
      ensures servers != map[]
    {
      ServerOf(id);
    }

    /** A request is done with, whether it was answered or is cancelled; others may take its place. */
    method Finish(id: int, outcomes: nat -> Outcome)
      requires Valid() && maxInflight <= NO_ID && id in reqs
      modifies this`links, this`reqs, this`heads, this`waitingHead, this`servers, this`ring, this`inflight
      modifies this`waitingCount, this`good, this`lists, this`waiting
      ensures Valid() && reqs.Keys == old(reqs).Keys - {id}
      ensures waitingCount == 0 || inflight >= maxInflight || servers == map[]
      ensures inflight <= maxInflight || inflight == old(inflight) - if old(reqs)[id].ns.Some? then 1 else 0
      ensures var were := if old(reqs)[id].ns.Some? then old(waiting) else Without(old(waiting), id);
              && |waiting| <= |were| && waiting == were[|were| - |waiting|..]
              && inflight == old(inflight) - (if old(reqs)[id].ns.Some? then 1 else 0) + |were| - |waiting|
      ensures Promoted(old(reqs) - {id}, reqs, waiting)
    {
      hide ListsOk, IdsOk, ServersOk, Without, Promoted;
      Leave(id);
      PumpWaitingQueue(outcomes);
    }

    method NameserverUp(k: int)
      requires Valid() && k in servers
      modifies this`servers, this`good
      ensures Valid() && servers == old(servers)[k := old(servers)[k].(up := true)]
      ensures good == old(good) + if old(servers)[k].up then 0 else 1
    {
      if servers[k].up {
        return;
      }
      SetUp(k, true);
    }

    /** Sends a request again, to another nameserver: 1 if there is no other to choose. */
    method Reissue(id: int) returns (r: int)
      requires Valid() && id in reqs && reqs[id].ns.Some?
      modifies this`reqs, this`servers, this`ring
      ensures Valid() && reqs.Keys == old(reqs).Keys && forall x :: x in reqs && x != id ==> reqs[x] == old(reqs)[x]
      ensures if r == 1 then reqs == old(reqs)
              else r == 0 && reqs[id].ns.Some? && reqs[id].ns != old(reqs)[id].ns
                   && reqs[id].transId == old(reqs)[id].transId && !reqs[id].sent
                   && HasTurn(old(ring), old(servers), good, reqs[id].ns.value)
      ensures r == 1 <==> HasTurn(old(ring), old(servers), good, old(reqs)[id].ns.value)
      ensures good > 0 && old(reqs)[id].ns.value in old(servers) && !old(servers)[old(reqs)[id].ns.value].up ==> r == 0
    {
      hide ListsOk, IdsOk, ServersOk, HasTurn;
      var lastNs := reqs[id].ns;
      SomeServersLeft(id);
      var ns := NameserverPick();
      OneTurn(old(ring), old(servers), good, ns.value, lastNs.value);
      SwapNs(id, ns.value);
      if reqs[id].ns == lastNs {
        return 1;
      }
      MarkSent(id, false);
      return 0;
    }

    /** Adds a nameserver, after the one whose turn is next. */
    method NameserverAdd(k: int)
      requires Valid() && k !in servers
      modifies this`servers, this`ring, this`good
      ensures Valid() && servers == old(servers)[k := Server(true, 0)] && good == old(good) + 1
      ensures ring == if |old(ring)| == 0 then [k] else [old(ring)[0], k] + old(ring)[1..]
    {
      hide RingsOk, PlacesOk, IdsOk;
      ServerAdded(reqs, servers, ring, good, k);
      ring := if |ring| == 0 then [k] else [ring[0], k] + ring[1..];
      servers := servers[k := Server(true, 0)];
      good := good + 1;
    }

    /** Sets how many requests may be in flight, and spreads those that are over as many buckets as suit it. */
    method SetMaxRequestsInflight(max: int)
      requires Valid()
      modifies this`links, this`heads, this`maxInflight, this`lists
      ensures Valid() && maxInflight == (if max < 1 then 1 else max) && |heads| == (maxInflight + 4) / 5
    {
      hide RingsOk, PlacesOk, IdsOk, ServersOk, Moving, Distinct, Total;
      var most := if max < 1 then 1 else max;
      var n: nat := (most + 4) / 5;
      var m := |heads|;
      SomeBuckets(reqs, links, heads, lists, waitingHead, waiting);
      var none := seq(n, _ => None);
      ghost var empty := seq(n, _ => []);
      RingsMore(links, heads, lists, waitingHead, waiting, none, empty);
      MovingStarts(reqs, lists, waiting, empty);
      // The new buckets lie behind the old ones until these are given up.
      var now, all := links, heads + none;
      ghost var ls := lists + empty;
      WaitersWait();
      for i := 0 to m
        modifies {}
        invariant |all| == |ls| == m + n
        invariant RingsOk(now, all, ls, waitingHead, waiting) && Moving(reqs, ls, m, n) && Total(ls) == inflight
        invariant forall p :: 0 <= p < i ==> ls[p] == []
      {
        HeadsMatch(now, all, ls, waitingHead, waiting);
        while all[i].Some?
          modifies {}
          invariant |all| == |ls| == m + n && (all[i].Some? <==> |ls[i]| > 0)
          invariant RingsOk(now, all, ls, waitingHead, waiting) && Moving(reqs, ls, m, n) && Total(ls) == inflight
          invariant forall p :: 0 <= p < i ==> ls[p] == []
          decreases |ls[i]|
        {
          ghost var was := ls;
          now, all, ls := MoveHead(now, all, m, n, i, ls);
          HeadsMatch(now, all, ls, waitingHead, waiting);
        }
      }
      MovingEnds(reqs, now, all, ls, waitingHead, waiting, m, n);
      links, heads, maxInflight, lists := now, all[m..], most, ls[m..];
    }

    lemma WaitersWait()
      requires Valid()
      ensures forall id :: id in waiting <==> id in reqs && reqs[id].ns.None?
    {
    }

    /** Moves the first request of an old bucket to its new one. */
    method MoveHead(links: Links, all: seq<Option<int>>, m: nat, n: nat, i: nat, ghost ls: seq<seq<int>>)
      returns (now: Links, next: seq<Option<int>>, ghost done: seq<seq<int>>)
      requires RingsOk(links, all, ls, waitingHead, waiting) && Moving(reqs, ls, m, n)
      requires |all| == |ls| == m + n && i < m && all[i].Some?
      ensures RingsOk(now, next, done, waitingHead, waiting) && Moving(reqs, done, m, n)
      ensures |next| == |done| == m + n && Total(done) == Total(ls) && |done[i]| < |ls[i]|
      ensures forall p :: 0 <= p < m && p != i ==> done[p] == ls[p]
    {
      hide RingsOk, Nowhere, Without, Distinct;
      HeadIn(links, all, ls, waitingHead, waiting, i);
      AllDistinct(links, all, ls, waitingHead, waiting);
      var req := all[i].value;
      var j := m + Slot(reqs[req], n);
      now, next := LinkOut(links, all, i, req, ls, waitingHead, waiting);
      done := ls[i := Without(ls[i], req)];
      TotalChange(ls, i, Without(ls[i], req));
      TotalChange(done, j, done[j] + [req]);
      MovedOne(reqs, ls, m, n, i, req, done, done[j := done[j] + [req]]);
      now, next := LinkIn(now, next, j, req, done, waitingHead, waiting);
      done := done[j := done[j] + [req]];
      HeadsMatch(now, next, done, waitingHead, waiting);
    }

    /** Gives up all nameservers. What was in flight waits again, before everything else: bucket after
        bucket, each from its end. */
    method ClearNameserversAndSuspend()
      requires Valid()
      modifies this`links, this`reqs, this`heads, this`waitingHead, this`servers, this`ring, this`inflight
      modifies this`waitingCount, this`good, this`lists, this`waiting
      ensures Valid() && servers == map[] && inflight == 0 && |heads| == |old(heads)|
      ensures waiting == Backwards(old(lists)) + old(waiting)
      ensures reqs.Keys == old(reqs).Keys
      ensures forall id :: id in reqs ==>
        reqs[id] == if old(reqs)[id].ns.Some? then Request(0, None, false) else old(reqs)[id]
    {
      hide RingsOk, PlacesOk, IdsOk, ServersOk, Total, Backwards;
      InBackwards();
      if |ring| == 0 {
        NothingInFlight();
        return;
      }
      servers, ring, good := map[], [], 0;
      TakeBack();
    }

    /** What is in flight is in the buckets. */
    lemma InBackwards()
      requires Valid()
      ensures forall id :: id in reqs ==> (id in Backwards(lists) <==> reqs[id].ns.Some?)
    {
      hide RingsOk, IdsOk, ServersOk, Backwards;
      BackwardsIs(lists);
      forall id | id in reqs
        ensures id in Backwards(lists) <==> reqs[id].ns.Some?
      {
        if reqs[id].ns.Some? {
          InPlace(reqs, lists, waiting, id);
        }
      }
    }

    /** Empties all buckets; the nameservers are gone already. */
    method TakeBack()
      requires ListsOk() && servers == map[] && ring == [] && good == 0
      modifies this`links, this`reqs, this`heads, this`waitingHead, this`inflight, this`waitingCount
      modifies this`lists, this`waiting
      ensures Valid() && inflight == 0 && |heads| == |old(heads)|
      ensures waiting == Backwards(old(lists)) + old(waiting) && Suspended(old(reqs), reqs, Backwards(old(lists)))
      ensures forall id :: id in reqs ==> reqs[id].ns.None?
    {
      hide RingsOk, PlacesOk, IdsOk, ServersOk, Suspended, Total, Backwards, Ring;
      SomeBuckets(reqs, links, heads, lists, waitingHead, waiting);
      ghost var was, bucketsWere, wereWaiting := reqs, lists, waiting;
      var n;
      links, reqs, heads, waitingHead, n := SuspendAll(links, reqs, heads, waitingHead, lists, waiting);
      lists, waiting := seq(|lists|, _ => []), Backwards(lists) + waiting;
      AllWait(was, reqs, bucketsWere, wereWaiting, lists);
      BackwardsIs(bucketsWere);
      RingsEmptied(links, heads, waitingHead, waiting, lists);
      waitingCount := waitingCount + n;
      inflight := 0;
      IsValid();
    }

    /** Without nameservers everything waits already. */
    lemma NothingInFlight()
      requires Valid() && |ring| == 0
      ensures servers == map[] && inflight == 0 && Backwards(lists) == [] && Suspended(reqs, reqs, [])
      ensures [] + waiting == waiting && forall id :: id in reqs ==> reqs[id].ns.None?
    {
      hide RingsOk, IdsOk;
      NoServers(servers, ring);
      forall j | 0 <= j < |lists|
        ensures lists[j] == []
      {
        BucketNeedsServer(j);
      }
      TotalEmpty(lists);
      BackwardsIs(lists);
      forall id | id in reqs
        ensures reqs[id].ns.None?
      {
        InPlace(reqs, lists, waiting, id);
      }
    }

    lemma BucketNeedsServer(j: nat)
      requires Valid() && j < |lists|
      ensures |lists[j]| == 0 || servers != map[]
    {
      if |lists[j]| > 0 {
        InBucket(j, 0);
        ServerOf(lists[j][0]);
      }
    }
  }

  lemma FreeIdIn(reqs: Requests, id: int, r: Request)
    requires IdsOk(reqs) && id !in reqs && (r.ns.Some? ==> FreeId(reqs, r.transId))
    ensures IdsOk(reqs[id := r])
    ensures r.ns.Some? ==> 0 <= r.transId < NO_ID
  {
    IdsIn(reqs, id, r);
  }

  lemma HeadsMatch(links: Links, heads: seq<Option<int>>, lists: seq<seq<int>>, waitingHead: Option<int>,
      waiting: seq<int>)
    requires RingsOk(links, heads, lists, waitingHead, waiting)
    ensures |heads| == |lists| && forall i :: 0 <= i < |lists| ==> (heads[i].Some? <==> |lists[i]| > 0)
  {
  }

  lemma HeadIn(links: Links, heads: seq<Option<int>>, lists: seq<seq<int>>, waitingHead: Option<int>,
      waiting: seq<int>, i: nat)
    requires RingsOk(links, heads, lists, waitingHead, waiting) && i < |heads| && heads[i].Some?
    ensures |heads| == |lists| && |lists[i]| > 0 && heads[i].value == lists[i][0] && heads[i].value in lists[i]
  {
  }

  lemma NoneUsing(reqs: Requests, k: int)
    requires forall id :: id in reqs ==> reqs[id].ns != Some(k)
    ensures |Using(reqs, k)| == 0
  {
    var s := Using(reqs, k);
    forall id
      ensures id !in s
    {
    }
    assert s == {};
  }

  lemma ServerAdded(reqs: Requests, servers: Servers, ring: seq<int>, good: int, k: int)
    requires ServersOk(reqs, servers, ring, good) && k !in servers
    ensures var r := if |ring| == 0 then [k] else [ring[0], k] + ring[1..];
            ServersOk(reqs, servers[k := Server(true, 0)], r, good + 1)
  {
    hide Using, Up, Distinct;
    UpAdded(servers, k);
    NoneUsing(reqs, k);
    JoinsRing(ring, k);
  }

  lemma UpAdded(servers: Servers, k: int)
    requires k !in servers
    ensures |Up(servers[k := Server(true, 0)])| == |Up(servers)| + 1
  {
    SizeChange(Up(servers), Up(servers[k := Server(true, 0)]), k);
  }

  lemma JoinsRing(ring: seq<int>, k: int)
    requires Distinct(ring) && k !in ring
    ensures var r := if |ring| == 0 then [k] else [ring[0], k] + ring[1..];
            Distinct(r) && forall x :: x in r <==> x == k || x in ring
  {
    if |ring| > 0 {
      assert ring == [ring[0]] + ring[1..];
    }
  }

  /** Only whether, and to whom, requests in flight were sent differs. */
  ghost predicate OnlySent(was: Requests, now: Requests) {
    && now.Keys == was.Keys
    && forall id :: id in now ==>
      if was[id].ns.Some? then now[id].ns.Some? && now[id].transId == was[id].transId else now[id] == was[id]
  }

  lemma SentKeeps(was: Requests, now: Requests)
    requires OnlySent(was, now)
    ensures now.Keys == was.Keys
    ensures forall id :: id in now ==>
      && id in was
      && if was[id].ns.Some? then now[id].ns.Some? && now[id].transId == was[id].transId else now[id] == was[id]
  {
    forall id | id in now
      ensures id in was
    {
      assert id in now.Keys;
    }
  }

  lemma NothingSent(reqs: Requests)
    ensures OnlySent(reqs, reqs)
  {
  }

  lemma OneMarked(was: Requests, id: int, sent: bool)
    requires id in was && was[id].ns.Some?
    ensures OnlySent(was, was[id := was[id].(sent := sent)])
  {
  }

  /** Of the requests those in `waiting` still wait, as they did, and all others are in flight: under the
      ids they had, if they were before. */
  ghost predicate Promoted(was: Requests, now: Requests, waiting: seq<int>) {
    && now.Keys == was.Keys
    && forall id :: id in now ==>
      if id in waiting then now[id] == was[id] && now[id].ns.None?
      else now[id].ns.Some? && (was[id].ns.Some? ==> now[id].transId == was[id].transId)
  }

  lemma PromotedOne(first: Requests, before: Requests, was: Requests, now: Requests, waiting: seq<int>, id: int)
    requires Promoted(first, before, waiting) && |waiting| > 0 && id == waiting[0] && id in before
    requires id !in waiting[1..] && id in was && was[id].ns.Some? && was == before[id := was[id]]
    requires OnlySent(was, now)
    ensures Promoted(first, now, waiting[1..])
  {
    forall x | x in now
      ensures x in first
      ensures if x in waiting[1..] then now[x] == first[x] && now[x].ns.None?
              else now[x].ns.Some? && (first[x].ns.Some? ==> now[x].transId == first[x].transId)
    {
      assert x in was.Keys && x in before.Keys && x in first.Keys;
      assert waiting == [waiting[0]] + waiting[1..];
    }
  }

  lemma FirstWithout(q: seq<int>)
    requires |q| > 0
    ensures Without(q, q[0]) == q[1..]
  {
  }

  /** The server of `id` has failed: what was still to be sent to it may have another, that is up. */
  ghost predicate Failed(was: Requests, now: Requests, id: int, servers: Servers) {
    && now.Keys == was.Keys && id in was && was[id].ns.Some?
    && forall x :: x in now ==>
      Reassigned(was[x], if x == id then now[x].(sent := was[x].sent) else now[x], was[id].ns.value, servers)
  }

  lemma ReassignedSent(was: Requests, mid: Requests, id: int, k: int, servers: Servers)
    requires AllReassigned(was, mid, k, servers) && id in was && id in mid && was[id].ns == Some(k)
    ensures mid[id].ns.Some?
    ensures var now := mid[id := mid[id].(sent := true)];
            OnlySent(was, now) && Failed(was, now, id, servers)
  {
    var now := mid[id := mid[id].(sent := true)];
    forall x | x in now
      ensures x in was && Reassigned(was[x], if x == id then now[x].(sent := was[x].sent) else now[x], k, servers)
      ensures if was[x].ns.Some? then now[x].ns.Some? && now[x].transId == was[x].transId else now[x] == was[x]
    {
      assert x in mid.Keys && Reassigned(was[x], mid[x], k, servers);
    }
  }

  /** `was` may have become `now`: an unsent request of the failed server `k` goes to one that is up. */
  ghost predicate Reassigned(was: Request, now: Request, k: int, servers: Servers) {
    now == was || (was.ns == Some(k) && !was.sent && now.ns.Some? && now == was.(ns := now.ns)
                   && now.ns.value in servers && servers[now.ns.value].up)
  }

  ghost predicate AllReassigned(was: Requests, now: Requests, k: int, servers: Servers) {
    now.Keys == was.Keys && forall id :: id in now ==> Reassigned(was[id], now[id], k, servers)
  }

  lemma AllReassignedTwice(was: Requests, mid: Requests, now: Requests, k: int, before: Servers, servers: Servers)
    requires AllReassigned(was, mid, k, before) && AllReassigned(mid, now, k, servers)
    requires servers.Keys == before.Keys && forall s :: s in servers ==> servers[s].up == before[s].up
    requires k in servers && !servers[k].up
    ensures AllReassigned(was, now, k, servers)
  {
    forall id | id in now
      ensures Reassigned(was[id], now[id], k, servers)
    {
      assert id in mid.Keys && id in was.Keys;
      assert Reassigned(was[id], mid[id], k, before) && Reassigned(mid[id], now[id], k, servers);
      if mid[id] != was[id] {
        var x := mid[id].ns.value;
        assert x in before.Keys && x in servers.Keys && servers[x].up;
      }
    }
  }

  lemma UpCounted(reqs: Requests, servers: Servers, ring: seq<int>, good: int, k: int, up: bool)
    requires ServersOk(reqs, servers, ring, good) && k in servers && servers[k].up != up
    ensures ServersOk(reqs, servers[k := servers[k].(up := up)], ring, good + if up then 1 else -1)
  {
    SizeChange(Up(servers), Up(servers[k := servers[k].(up := up)]), k);
  }

  lemma NoServers(servers: Servers, ring: seq<int>)
    requires (forall k :: k in ring <==> k in servers) && |ring| == 0
    ensures servers == map[]
  {
    assert forall k :: k !in servers;
  }

  lemma SomeServer(servers: Servers, ring: seq<int>)
    requires (forall k :: k in ring <==> k in servers) && |ring| > 0
    ensures servers != map[] && forall k :: k in ring ==> k in servers
  {
    var k := ring[0];
    assert k in ring;
    assert k in servers;
  }

  lemma Rotated(ring: seq<int>)
    requires Distinct(ring) && |ring| > 0
    ensures var r := ring[1..] + [ring[0]];
            Distinct(r) && |r| == |ring| && forall k :: k in r <==> k in ring
  {
    assert ring == [ring[0]] + ring[1..];
    SnocDistinct(ring[1..], ring[0]);
  }

  lemma SomeUp(servers: Servers, ring: seq<int>) returns (m: nat)
    requires |Up(servers)| > 0 && forall k :: k in ring <==> k in servers
    ensures m < |ring| && ring[m] in servers && servers[ring[m]].up
  {
    var up := Up(servers);
    assert |up| > 0 ==> up != {};
    var k := Member(up);
    m :| 0 <= m < |ring| && ring[m] == k;
  }

  lemma StaysPlaced(reqs: Requests, lists: seq<seq<int>>, waiting: seq<int>, id: int, r: Request)
    requires PlacesOk(reqs, lists, waiting) && IdsOk(reqs)
    requires id in reqs && reqs[id].ns.Some? && r.ns.Some? && r.transId == reqs[id].transId
    ensures PlacesOk(reqs[id := r], lists, waiting) && IdsOk(reqs[id := r])
  {
  }

  lemma SwapCharged(reqs: Requests, servers: Servers, ring: seq<int>, good: int, id: int, k: int)
    requires ServersOk(reqs, servers, ring, good) && id in reqs && reqs[id].ns.Some? && k in servers
        && reqs[id].ns != Some(k)
    ensures var was := reqs[id].ns.value;
            && was in servers
            && var one := servers[was := servers[was].(inflight := servers[was].inflight - 1)];
               ServersOk(reqs[id := reqs[id].(ns := Some(k))], one[k := one[k].(inflight := one[k].inflight + 1)],
                   ring, good)
  {
    var was := reqs[id].ns.value;
    var one := servers[was := servers[was].(inflight := servers[was].inflight - 1)];
    ServersChange(reqs, reqs[id := reqs[id].(ns := Some(k))], servers,
        one[k := one[k].(inflight := one[k].inflight + 1)], ring, good, id);
  }

  lemma MarkCharged(reqs: Requests, servers: Servers, ring: seq<int>, good: int, id: int, r: Request)
    requires ServersOk(reqs, servers, ring, good) && id in reqs && r.ns == reqs[id].ns
    ensures ServersOk(reqs[id := r], servers, ring, good)
  {
    ServersChange(reqs, reqs[id := r], servers, servers, ring, good, id);
  }

  lemma RingAt(links: Links, heads: seq<Option<int>>, lists: seq<seq<int>>, waitingHead: Option<int>,
      waiting: seq<int>, i: nat)
    requires RingsOk(links, heads, lists, waitingHead, waiting) && i < |lists|
    ensures i < |heads| && Ring(links, heads[i], lists[i])
  {
  }

  lemma NothingKept(heads: seq<Option<int>>, lists: seq<seq<int>>)
    requires |heads| == |lists| > 0
    requires forall i :: 0 <= i < |lists| ==> heads[i] == None && lists[i] == []
    ensures RingsOk(map[], heads, lists, None, []) && PlacesOk(map[], lists, []) && IdsOk(map[])
    ensures Total(lists) == 0 && ServersOk(map[], map[], [], 0)
  {
    TotalEmpty(lists);
    assert Up(map[]) == {};
  }

  lemma SomeBuckets(reqs: Requests, links: Links, heads: seq<Option<int>>, lists: seq<seq<int>>,
      waitingHead: Option<int>, waiting: seq<int>)
    requires RingsOk(links, heads, lists, waitingHead, waiting) && PlacesOk(reqs, lists, waiting)
    ensures |heads| == |lists| > 0
  {
  }

  lemma AllDistinct(links: Links, heads: seq<Option<int>>, lists: seq<seq<int>>, waitingHead: Option<int>,
      waiting: seq<int>)
    requires RingsOk(links, heads, lists, waitingHead, waiting)
    ensures Distinct(waiting) && forall i :: 0 <= i < |lists| ==> Distinct(lists[i])
  {
  }

  lemma InPlace(reqs: Requests, lists: seq<seq<int>>, waiting: seq<int>, id: int)
    requires PlacesOk(reqs, lists, waiting) && id in reqs
    ensures if reqs[id].ns.Some? then id in lists[reqs[id].transId % |lists|] else id in waiting
  {
  }

  lemma EnterCharged(reqs: Requests, servers: Servers, ring: seq<int>, good: int, id: int, r: Request)
    requires ServersOk(reqs, servers, ring, good) && id !in reqs && (r.ns.Some? ==> r.ns.value in servers)
    ensures ServersOk(reqs[id := r], Charged(servers, r.ns, 1), ring, good)
  {
    ServersChange(reqs, reqs[id := r], servers, Charged(servers, r.ns, 1), ring, good, id);
  }

  lemma LeaveCharged(reqs: Requests, servers: Servers, ring: seq<int>, good: int, id: int)
    requires ServersOk(reqs, servers, ring, good) && id in reqs
    ensures ServersOk(reqs - {id}, Charged(servers, reqs[id].ns, -1), ring, good)
  {
    ServersChange(reqs, reqs - {id}, servers, Charged(servers, reqs[id].ns, -1), ring, good, id);
  }
}
