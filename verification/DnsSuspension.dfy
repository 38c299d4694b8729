/** Taking all requests back from the buckets of a resolver, to wait before those that wait already. */
module DnsSuspension {
  import opened Bytes
  import opened DnsRequests
  import opened Lists
  import opened Rings

  const SUSPENDED := Request(0, None, false)

  ghost function Reversed(q: seq<int>): seq<int> {
    if |q| == 0 then [] else Reversed(q[1..]) + [q[0]]
  }

  /** What waits, and in which order, once the buckets have been emptied one after another. */
  ghost function Backwards(lists: seq<seq<int>>): seq<int> {
    if |lists| == 0 then [] else Reversed(lists[|lists| - 1]) + Backwards(lists[..|lists| - 1])
  }

  lemma {:induction false} ReversedSnoc(q: seq<int>, x: int)
    ensures Reversed(q + [x]) == [x] + Reversed(q)
  {
    if |q| > 0 {
      assert (q + [x])[1..] == q[1..] + [x];
      ReversedSnoc(q[1..], x);
    }
  }

  lemma {:induction false} ReversedAt(q: seq<int>, k: nat)
    requires k < |q|
    ensures |Reversed(q)| == |q| && Reversed(q)[k] == q[|q| - 1 - k]
  {
    if |q| > 1 {
      ReversedAt(q[1..], if k < |q| - 1 then k else 0);
    }
  }

  /** All requests of the buckets, bucket after bucket. */
  ghost function InOrder(lists: seq<seq<int>>): seq<int> {
    if |lists| == 0 then [] else lists[0] + InOrder(lists[1..])
  }

  lemma {:induction false} InOrderSnoc(lists: seq<seq<int>>, q: seq<int>)
    ensures InOrder(lists + [q]) == InOrder(lists) + q
  {
    if |lists| > 0 {
      assert (lists + [q])[1..] == lists[1..] + [q];
      InOrderSnoc(lists[1..], q);
    } else {
      assert [q][1..] == [] && lists + [q] == [q];
    }
  }

  lemma {:induction false} ReversedConcat(a: seq<int>, b: seq<int>)
    ensures Reversed(a + b) == Reversed(b) + Reversed(a)
  {
    if |a| > 0 {
      assert (a + b)[1..] == a[1..] + b;
      ReversedConcat(a[1..], b);
    } else {
      assert a + b == b;
    }
  }

  /** Those suspended wait in the reverse of the order in which they were in the buckets. */
  lemma {:induction false} BackwardsReversed(lists: seq<seq<int>>)
    ensures Backwards(lists) == Reversed(InOrder(lists))
  {
    if |lists| > 0 {
      var rest, last := lists[..|lists| - 1], lists[|lists| - 1];
      BackwardsReversed(rest);
      assert lists == rest + [last];
      InOrderSnoc(rest, last);
      ReversedConcat(InOrder(rest), last);
    }
  }

  lemma {:induction false} ReversedIs(q: seq<int>)
    ensures |Reversed(q)| == |q| && forall x :: x in Reversed(q) <==> x in q
  {
    if |q| > 0 {
      ReversedIs(q[1..]);
      assert q == [q[0]] + q[1..];
    }
  }

  lemma BackwardsSnoc(lists: seq<seq<int>>, i: nat)
    requires i < |lists|
    ensures Backwards(lists[..i + 1]) == Reversed(lists[i]) + Backwards(lists[..i])
  {
    assert lists[..i + 1][..i] == lists[..i];
  }

  lemma {:induction false} BackwardsIs(lists: seq<seq<int>>)
    ensures |Backwards(lists)| == Total(lists)
    ensures forall x :: x in Backwards(lists) <==> exists i :: 0 <= i < |lists| && x in lists[i]
  {
    if |lists| > 0 {
      var rest, last := lists[..|lists| - 1], lists[|lists| - 1];
      BackwardsIs(rest);
      ReversedIs(last);
      assert lists == rest + [last];
      TotalConcat(rest, [last]);
      assert [last][1..] == [];
      forall x
        ensures x in Backwards(lists) <==> exists i :: 0 <= i < |lists| && x in lists[i]
      {
        if x in Backwards(rest) {
          var i :| 0 <= i < |rest| && x in rest[i];
          assert x in lists[i];
        }
        if i :| 0 <= i < |lists| && x in lists[i] {
          assert i < |rest| ==> x in rest[i];
        }
      }
    }
  }

  /** The requests in `q` have been suspended, and no others. */
  ghost predicate Suspended(was: Requests, now: Requests, q: seq<int>) {
    now.Keys == was.Keys && forall id :: id in was ==> now[id] == if id in q then SUSPENDED else was[id]
  }

  lemma SuspendedNone(reqs: Requests)
    ensures Suspended(reqs, reqs, [])
  {
  }

  lemma SuspendedOne(was: Requests, now: Requests, q: seq<int>, id: int)
    requires Suspended(was, now, q) && id in was
    ensures Suspended(was, now[id := SUSPENDED], [id] + q)
  {
  }

  lemma SuspendedTwice(was: Requests, mid: Requests, now: Requests, p: seq<int>, q: seq<int>)
    requires Suspended(was, mid, p) && Suspended(mid, now, q)
    ensures Suspended(was, now, q + p)
  {
  }

  lemma OnlyThese2(was: Links, mid: Links, now: Links, ids: seq<int>, more: seq<int>, all: seq<int>)
    requires OnlyThese(was, mid, ids) && OnlyThese(mid, now, more)
    requires forall x :: x in ids || x in more ==> x in all
    ensures OnlyThese(was, now, all)
  {
  }

  lemma OnlyNone(links: Links, ids: seq<int>)
    ensures OnlyThese(links, links, ids)
  {
  }

  /** Links in a node as the last of the list, and makes it the first by moving the head back. */
  method InsertFirst(links: Links, head: Option<int>, id: int, ghost q: seq<int>)
    returns (now: Links, newHead: Option<int>)
    requires Ring(links, head, q) && id !in q
    ensures Ring(now, newHead, [id] + q) && OnlyThese(links, now, q + [id])
  {
    hide Ring, OnlyThese;
    now, newHead := Insert(links, head, id, q);
    RingFirst(now, newHead, q + [id]);
    TurnedBack(now, newHead, q + [id]);
    assert (q + [id])[..|q|] == q;
    newHead := Some(now[newHead.value].prev);
  }

  lemma RingFirst(links: Links, head: Option<int>, q: seq<int>)
    requires Ring(links, head, q)
    ensures head.None? <==> |q| == 0
    ensures head.Some? ==> head.value == q[0] && q[0] in links
  {
    if |q| > 0 {
      LinkedIn(links, head, q, 0);
    }
  }

  /** The nodes of `q` from position `k` on are linked as they were. */
  ghost predicate Untouched(links: Links, now: Links, q: seq<int>, k: nat) {
    forall j :: k <= j < |q| ==> q[j] in links && q[j] in now && now[q[j]] == links[q[j]]
  }

  lemma AllThere(links: Links, head: Option<int>, q: seq<int>)
    requires Ring(links, head, q)
    ensures Untouched(links, links, q, 0)
  {
    forall j | 0 <= j < |q|
      ensures q[j] in links
    {
      LinkedIn(links, head, q, j);
    }
  }

  lemma StillThere(links: Links, was: Links, now: Links, q: seq<int>, k: nat, ids: seq<int>)
    requires Untouched(links, was, q, k) && OnlyThese(was, now, ids)
    requires forall j :: k < j < |q| ==> q[j] !in ids
    ensures Untouched(links, now, q, k + 1)
  {
    forall j | k < j < |q|
      ensures q[j] in now && now[q[j]] == links[q[j]]
    {
      var x := q[j];
      assert x in was && x !in ids;
      assert x in now && now[x] == was[x];
    }
  }

  /** The node after the `k`th, found by a link that has not been overwritten yet. */
  lemma NextIs(links: Links, now: Links, head: Option<int>, q: seq<int>, k: nat)
    requires Ring(links, head, q) && Untouched(links, now, q, k) && k < |q|
    ensures q[k] in now && now[q[k]].next == q[After(k, |q|)]
    ensures head == Some(q[0]) && (q[After(k, |q|)] == q[0] <==> k + 1 == |q|)
  {
    LinkedIn(links, head, q, k);
    SameIndex(q, After(k, |q|), 0);
  }

  /** What is moved is not among what is moved later. */
  lemma NotYet(q: seq<int>, k: nat, waiting: seq<int>)
    requires Distinct(q) && k < |q| && forall x :: x in q ==> x !in waiting
    ensures forall j :: k <= j < |q| ==> q[j] !in Reversed(q[..k]) + waiting
    ensures forall j :: k < j < |q| ==> q[j] !in Reversed(q[..k]) + waiting + [q[k]]
  {
    ReversedIs(q[..k]);
  }

  lemma OneMore(q: seq<int>, k: nat, waiting: seq<int>)
    requires k < |q|
    ensures [q[k]] + (Reversed(q[..k]) + waiting) == Reversed(q[..k + 1]) + waiting
    ensures [q[k]] + Reversed(q[..k]) == Reversed(q[..k + 1])
    ensures forall x :: x in Reversed(q[..k]) + waiting + [q[k]] ==> x in q + waiting
  {
    ReversedSnoc(q[..k], q[k]);
    ReversedIs(q[..k]);
    assert q[..k] + [q[k]] == q[..k + 1];
  }

  /**
   * Goes round a bucket by its links while these are overwritten: the next node is read off before the
   * request is put first of those waiting. `n` have been.
   */
  method SuspendRing(links: Links, reqs: Requests, head: Option<int>, waitingHead: Option<int>,
                     ghost q: seq<int>, ghost waiting: seq<int>)
    returns (now: Links, rs: Requests, newHead: Option<int>, n: nat)
    requires Ring(links, head, q) && Ring(links, waitingHead, waiting)
    requires forall x :: x in q ==> x !in waiting && x in reqs
    ensures Ring(now, newHead, Reversed(q) + waiting) && OnlyThese(links, now, q + waiting)
    ensures Suspended(reqs, rs, Reversed(q)) && n == |q|
  {
    hide Ring, OnlyThese, Suspended, Untouched, Distinct;
    now, rs, newHead, n := links, reqs, waitingHead, 0;
    RingFirst(links, head, q);
    RingDistinct(links, head, q);
    AllThere(links, head, q);
    OnlyNone(links, q + waiting);
    SuspendedNone(reqs);
    assert q[..0] == [] && [] + waiting == waiting;
    if head.None? {
      return;
    }
    var startedAt := head.value;
    var req := startedAt;
    while true
      invariant n < |q| && req == q[n]
      invariant Ring(now, newHead, Reversed(q[..n]) + waiting) && OnlyThese(links, now, q + waiting)
      invariant Untouched(links, now, q, n) && Suspended(reqs, rs, Reversed(q[..n]))
      decreases |q| - n
    {
      NextIs(links, now, head, q, n);
      NotYet(q, n, waiting);
      OneMore(q, n, waiting);
      SuspendedOne(reqs, rs, Reversed(q[..n]), req);
      ghost var was, w := now, Reversed(q[..n]) + waiting;
      var next := now[req].next;
      rs := rs[req := SUSPENDED];
      now, newHead := InsertFirst(now, newHead, req, w);
      StillThere(links, was, now, q, n, w + [req]);
      OnlyThese2(links, was, now, q + waiting, w + [req], q + waiting);
      n := n + 1;
      if next == startedAt {
        break;
      }
      req := next;
    }
    assert q[..n] == q;
  }

  /** The buckets from number `i` on are as they were; the others have been emptied. */
  ghost predicate Halfway(now: Links, hs: seq<Option<int>>, heads: seq<Option<int>>, lists: seq<seq<int>>, i: nat) {
    && |hs| == |heads| == |lists| && i <= |lists|
    && (forall j :: 0 <= j < i ==> hs[j] == None)
    && (forall j :: i <= j < |lists| ==> hs[j] == heads[j] && Ring(now, heads[j], lists[j]))
  }

  /** No request of the buckets from number `i` on is among those that wait. */
  lemma LaterElsewhere(lists: seq<seq<int>>, waiting: seq<int>, i: nat)
    requires Apart(lists, waiting) && i < |lists|
    ensures forall j, x :: i <= j < |lists| && x in lists[j] ==> x !in Backwards(lists[..i]) + waiting
    ensures forall j, x :: i < j < |lists| && x in lists[j] ==> x !in lists[i] + (Backwards(lists[..i]) + waiting)
  {
    BackwardsIs(lists[..i]);
    assert forall k :: 0 <= k < i ==> lists[..i][k] == lists[k];
  }

  lemma StillHalfway(was: Links, now: Links, hs: seq<Option<int>>, heads: seq<Option<int>>, lists: seq<seq<int>>,
      i: nat, ids: seq<int>)
    requires Halfway(was, hs, heads, lists, i) && i < |lists| && OnlyThese(was, now, ids)
    requires forall j, x :: i < j < |lists| && x in lists[j] ==> x !in ids
    ensures Halfway(now, hs[i := None], heads, lists, i + 1)
  {
    hide Ring, OnlyThese;
    forall j | i < j < |lists|
      ensures Ring(now, heads[j], lists[j])
    {
      RingElsewhere(was, now, heads[j], lists[j], ids);
    }
  }

  /** Suspends all requests in flight, bucket by bucket. `n` have been. */
  method SuspendAll(links: Links, reqs: Requests, heads: seq<Option<int>>, waitingHead: Option<int>,
                    ghost lists: seq<seq<int>>, ghost waiting: seq<int>)
    returns (now: Links, rs: Requests, hs: seq<Option<int>>, newHead: Option<int>, n: nat)
    requires RingsOk(links, heads, lists, waitingHead, waiting) && PlacesOk(reqs, lists, waiting)
    ensures Ring(now, newHead, Backwards(lists) + waiting) && Suspended(reqs, rs, Backwards(lists))
    ensures |hs| == |heads| && (forall j :: 0 <= j < |hs| ==> hs[j] == None) && n == Total(lists)
  {
    hide Ring, OnlyThese, Suspended, Halfway, PlacesOk;
    now, rs, hs, newHead, n := links, reqs, heads, waitingHead, 0;
    SuspendBegins(links, heads, lists, waitingHead, waiting);
    SuspendedNone(reqs);
    var i := 0;
    while i < |heads|
      invariant i <= |lists| == |heads| && Halfway(now, hs, heads, lists, i)
      invariant Ring(now, newHead, Backwards(lists[..i]) + waiting)
      invariant Suspended(reqs, rs, Backwards(lists[..i])) && n == Total(lists[..i])
    {
      LaterElsewhere(lists, waiting, i);
      NextBucket(now, hs, heads, lists, i);
      InBuckets(reqs, rs, lists, waiting, i);
      BackwardsSnoc(lists, i);
      ghost var was, mid, w := now, rs, Backwards(lists[..i]) + waiting;
      var more;
      now, rs, newHead, more := SuspendRing(now, rs, hs[i], newHead, lists[i], w);
      StillHalfway(was, now, hs, heads, lists, i, lists[i] + w);
      SuspendedTwice(reqs, mid, rs, Backwards(lists[..i]), Reversed(lists[i]));
      TotalSnoc(lists, i);
      assert Reversed(lists[i]) + w == Backwards(lists[..i + 1]) + waiting;
      hs := hs[i := None];
      n := n + more;
      i := i + 1;
    }
    assert lists[..i] == lists;
    HalfwayEnds(now, hs, heads, lists, i);
  }

  lemma SuspendBegins(links: Links, heads: seq<Option<int>>, lists: seq<seq<int>>, waitingHead: Option<int>,
      waiting: seq<int>)
    requires RingsOk(links, heads, lists, waitingHead, waiting)
    ensures Halfway(links, heads, heads, lists, 0) && |heads| == |lists| && Apart(lists, waiting)
    ensures Ring(links, waitingHead, Backwards(lists[..0]) + waiting) && Backwards(lists[..0]) == []
    ensures Total(lists[..0]) == 0
  {
    assert [] + waiting == waiting;
  }

  lemma NextBucket(now: Links, hs: seq<Option<int>>, heads: seq<Option<int>>, lists: seq<seq<int>>, i: nat)
    requires Halfway(now, hs, heads, lists, i) && i < |lists|
    ensures |hs| == |lists| && Ring(now, hs[i], lists[i])
  {
  }

  lemma HalfwayEnds(now: Links, hs: seq<Option<int>>, heads: seq<Option<int>>, lists: seq<seq<int>>, i: nat)
    requires Halfway(now, hs, heads, lists, i) && i == |lists|
    ensures |hs| == |heads| && forall j :: 0 <= j < |hs| ==> hs[j] == None
  {
  }

  lemma InBuckets(reqs: Requests, rs: Requests, lists: seq<seq<int>>, waiting: seq<int>, i: nat)
    requires PlacesOk(reqs, lists, waiting) && i < |lists| && Suspended(reqs, rs, Backwards(lists[..i]))
    ensures forall x :: x in lists[i] ==> x in rs
  {
    forall x | x in lists[i]
      ensures x in rs
    {
      assert x in reqs.Keys;
    }
  }

  lemma TotalSnoc(lists: seq<seq<int>>, i: nat)
    requires i < |lists|
    ensures Total(lists[..i + 1]) == Total(lists[..i]) + |lists[i]|
  {
    assert lists[..i + 1] == lists[..i] + [lists[i]];
    TotalConcat(lists[..i], [lists[i]]);
    assert [lists[i]][1..] == [];
  }

  /** What is taken out of the buckets is what was in flight. */
  lemma BackwardsInFlight(reqs: Requests, lists: seq<seq<int>>, waiting: seq<int>)
    requires PlacesOk(reqs, lists, waiting)
    ensures forall id :: id in Backwards(lists) <==> id in reqs && reqs[id].ns.Some?
  {
    hide Backwards;
    BackwardsIs(lists);
    forall id
      ensures id in Backwards(lists) <==> id in reqs && reqs[id].ns.Some?
    {
      if id in reqs && reqs[id].ns.Some? {
        assert id in lists[reqs[id].transId % |lists|];
      }
    }
  }

  lemma NoneInFlight(reqs: Requests, rs: Requests, lists: seq<seq<int>>, waiting: seq<int>)
    requires PlacesOk(reqs, lists, waiting) && Suspended(reqs, rs, Backwards(lists))
    ensures forall id :: id in rs ==> rs[id].ns.None?
    ensures forall id :: id in Backwards(lists) + waiting <==> id in rs
  {
    hide Backwards;
    BackwardsInFlight(reqs, lists, waiting);
    forall id
      ensures id in Backwards(lists) + waiting <==> id in rs
      ensures id in rs ==> rs[id].ns.None?
    {
      assert id in rs.Keys <==> id in reqs.Keys;
    }
  }

  /** Once all are suspended, everything waits. */
  lemma AllWait(reqs: Requests, rs: Requests, lists: seq<seq<int>>, waiting: seq<int>, empty: seq<seq<int>>)
    requires PlacesOk(reqs, lists, waiting) && Suspended(reqs, rs, Backwards(lists))
    requires |empty| == |lists| && forall j :: 0 <= j < |empty| ==> empty[j] == []
    ensures PlacesOk(rs, empty, Backwards(lists) + waiting) && Total(empty) == 0
    ensures forall id :: id in rs ==> rs[id].ns.None?
    ensures IdsOk(rs) && ServersOk(rs, map[], [], 0)
  {
    hide Backwards, Suspended;
    NoneInFlight(reqs, rs, lists, waiting);
    TotalEmpty(empty);
    assert Up(map[]) == {};
  }

  lemma RingsEmptied(now: Links, hs: seq<Option<int>>, newHead: Option<int>, waiting: seq<int>, empty: seq<seq<int>>)
    requires Ring(now, newHead, waiting) && |hs| == |empty|
    requires forall j :: 0 <= j < |empty| ==> hs[j] == None && empty[j] == []
    ensures RingsOk(now, hs, empty, newHead, waiting)
  {
    EmptyRing(now);
  }
}
