/** Circular doubly linked lists, kept in the nodes themselves. */
module Rings {
  import opened Bytes
  import opened Lists

  datatype Link = Link(next: int, prev: int)

  /** The links of all nodes that are in a list. */
  type Links = map<int, Link>

  function After(k: nat, n: nat): (r: nat)
    ensures k < n ==> r < n
  {
    if k + 1 < n then k + 1 else 0
  }

  function Before(k: nat, n: nat): (r: nat)
    requires n > 0
    ensures k < n ==> r < n
  {
    if k > 0 then k - 1 else n - 1
  }

  /** The node at position `k` is linked to those around it. */
  ghost predicate LinkedAt(links: Links, q: seq<int>, k: nat)
    requires k < |q|
  {
    q[k] in links && links[q[k]] == Link(q[After(k, |q|)], q[Before(k, |q|)])
  }

  /** From `head` on the links go round through `q`, both ways. */
  ghost predicate Ring(links: Links, head: Option<int>, q: seq<int>) {
    && Distinct(q)
    && head == (if |q| == 0 then None else Some(q[0]))
    && forall k: nat :: k < |q| ==> LinkedAt(links, q, k)
  }

  lemma LinkedIn(links: Links, head: Option<int>, q: seq<int>, k: nat)
    requires Ring(links, head, q) && k < |q|
    ensures q[k] in links && links[q[k]] == Link(q[After(k, |q|)], q[Before(k, |q|)])
    ensures q[k] in q && q[After(k, |q|)] in q && q[Before(k, |q|)] in q
    ensures q[After(k, |q|)] in links && q[Before(k, |q|)] in links
  {
    assert LinkedAt(links, q, k);
    assert LinkedAt(links, q, After(k, |q|)) && LinkedAt(links, q, Before(k, |q|));
  }

  lemma SameIndex(q: seq<int>, i: nat, j: nat)
    requires Distinct(q) && i < |q| && j < |q|
    ensures q[i] == q[j] <==> i == j
  {
  }

  /** Nothing changed but the links of `ids`. */
  ghost predicate OnlyThese(was: Links, now: Links, ids: seq<int>) {
    && (forall x :: x in now && x !in ids ==> x in was && now[x] == was[x])
    && (forall x :: x in was && x !in ids ==> x in now)
  }

  /** A ring of other nodes stays as it is. */
  lemma RingElsewhere(was: Links, now: Links, head: Option<int>, q: seq<int>, ids: seq<int>)
    requires Ring(was, head, q) && OnlyThese(was, now, ids) && forall x :: x in q ==> x !in ids
    ensures Ring(now, head, q)
  {
    hide Distinct, After, Before;
    forall k: nat | k < |q|
      ensures LinkedAt(now, q, k)
    {
      LinkedIn(was, head, q, k);
      var x := q[k];
      assert x in q;
      assert x !in ids;
      assert q[k] in now && now[q[k]] == was[q[k]];
    }
  }

  function SetNext(links: Links, x: int, next: int): (r: Links)
    requires x in links
    ensures r.Keys == links.Keys
  {
    links[x := links[x].(next := next)]
  }

  function SetPrev(links: Links, x: int, prev: int): (r: Links)
    requires x in links
    ensures r.Keys == links.Keys
  {
    links[x := links[x].(prev := prev)]
  }

  /** One `next` and one `prev` are set, in nodes that may be the same. */
  ghost predicate BothSet(was: Links, now: Links, x: int, next: int, y: int, prev: int) {
    && now.Keys == was.Keys
    && forall z :: z in was ==>
      now[z] == Link(if z == x then next else was[z].next, if z == y then prev else was[z].prev)
  }

  lemma SetBoth(links: Links, x: int, next: int, y: int, prev: int)
    requires x in links && y in links
    ensures BothSet(links, SetPrev(SetNext(links, x, next), y, prev), x, next, y, prev)
    ensures BothSet(links, SetNext(SetPrev(links, y, prev), x, next), x, next, y, prev)
  {
  }

  lemma SetOnly(was: Links, now: Links, x: int, next: int, y: int, prev: int, ids: seq<int>)
    requires BothSet(was, now, x, next, y, prev) && x in ids && y in ids
    ensures OnlyThese(was, now, ids)
  {
  }

  lemma AddedOnly(links: Links, now: Links, id: int, link: Link, ids: seq<int>)
    requires OnlyThese(links[id := link], now, ids) && id in ids
    ensures OnlyThese(links, now, ids)
  {
  }

  /** Links in `id` as the last of the list. */
  method Insert(links: Links, head: Option<int>, id: int, ghost q: seq<int>) returns (now: Links, newHead: Option<int>)
    requires Ring(links, head, q) && id !in q
    ensures Ring(now, newHead, q + [id]) && OnlyThese(links, now, q + [id]) && now.Keys == links.Keys + {id}
  {
    hide Distinct, SetNext, SetPrev, BothSet, After, Before;
    SnocDistinct(q, id);
    if head.None? {
      return links[id := Link(id, id)], Some(id);
    }
    LinkedIn(links, head, q, 0);
    LinkedIn(links, head, q, |q| - 1);
    LastIsBefore(q);
    var h := head.value;
    var last := links[h].prev;
    var one := links[id := Link(h, last)];
    now := SetNext(one, last, id);
    now := SetPrev(now, h, id);
    newHead := head;
    SetBoth(one, last, id, h, id);
    SetOnly(one, now, last, id, h, id, q + [id]);
    AddedOnly(links, now, id, Link(h, last), q + [id]);
    forall k: nat | k < |q + [id]|
      ensures LinkedAt(now, q + [id], k)
    {
      InsertedAt(links, now, q, id, k);
    }
  }

  lemma LastIsBefore(q: seq<int>)
    requires |q| > 0
    ensures Before(0, |q|) == |q| - 1
  {
  }

  lemma InsertedAt(links: Links, now: Links, q: seq<int>, id: int, k: nat)
    requires |q| > 0 && Ring(links, Some(q[0]), q) && id !in q && k <= |q|
    requires BothSet(links[id := Link(q[0], q[|q| - 1])], now, q[|q| - 1], id, q[0], id)
    ensures LinkedAt(now, q + [id], k)
  {
    if k < |q| {
      LinkedIn(links, Some(q[0]), q, k);
      SameIndex(q, k, |q| - 1);
      SameIndex(q, k, 0);
    }
  }

  /** Unlinks `id`; if it was the head, the next one is. */
  method Remove(links: Links, head: Option<int>, id: int, ghost q: seq<int>) returns (now: Links, newHead: Option<int>)
    requires Ring(links, head, q) && id in q
    ensures Ring(now, newHead, Without(q, id)) && OnlyThese(links, now, q) && now.Keys == links.Keys - {id}
  {
    hide Without, Distinct, SetNext, SetPrev, BothSet, After, Before;
    ghost var k :| 0 <= k < |q| && q[k] == id;
    WithoutAt(q, k);
    WithoutIs(q, id);
    LinkedIn(links, head, q, k);
    var link := links[id];
    if link.next == id {
      AloneIn(links, head, q, k);
      return links - {id}, None;
    }
    newHead := if head == Some(id) then Some(link.next) else head;
    SetBoth(links, link.prev, link.next, link.next, link.prev);
    now := SetPrev(links, link.next, link.prev);
    now := SetNext(now, link.prev, link.next);
    SetOnly(links, now, link.prev, link.next, link.next, link.prev, q);
    ghost var two := now;
    now := now - {id};
    TakenOnly(links, two, id, q);
    RemovedRing(links, head, two, q, k);
  }

  lemma TakenOnly(links: Links, two: Links, id: int, ids: seq<int>)
    requires OnlyThese(links, two, ids) && id in ids && two.Keys == links.Keys
    ensures OnlyThese(links, two - {id}, ids) && (two - {id}).Keys == links.Keys - {id}
  {
  }

  lemma AloneIn(links: Links, head: Option<int>, q: seq<int>, k: nat)
    requires Ring(links, head, q) && k < |q| && q[After(k, |q|)] == q[k]
    ensures |q| == 1 && k == 0 && q == [q[0]] && q[..k] + q[k + 1..] == []
  {
    SameIndex(q, After(k, |q|), k);
  }

  /** Where position `j` of a list without position `k` was. */
  function Skip(j: nat, k: nat): nat {
    if j < k then j else j + 1
  }

  /** What comes next, and before, when position `k` is left out. */
  lemma SkipAround(j: nat, k: nat, n: nat)
    requires 1 < n && k < n && j < n - 1
    ensures var i := Skip(j, k);
            && i < n && i != k
            && Skip(After(j, n - 1), k) == (if i == Before(k, n) then After(k, n) else After(i, n))
            && Skip(Before(j, n - 1), k) == (if i == After(k, n) then Before(k, n) else Before(i, n))
  {
  }

  lemma SkipIs(q: seq<int>, k: nat, j: nat)
    requires k < |q| && j < |q| - 1
    ensures (q[..k] + q[k + 1..])[j] == q[Skip(j, k)]
  {
  }

  lemma RemovedRing(links: Links, head: Option<int>, two: Links, q: seq<int>, k: nat)
    requires Ring(links, head, q) && k < |q| && q[After(k, |q|)] != q[k]
    requires var next, prev := q[After(k, |q|)], q[Before(k, |q|)];
             BothSet(links, two, prev, next, next, prev)
    ensures Ring(two - {q[k]}, if head == Some(q[k]) then Some(q[After(k, |q|)]) else head, q[..k] + q[k + 1..])
  {
    hide Distinct, Without, After, Before, BothSet;
    NotAlone(q, k);
    var r := q[..k] + q[k + 1..];
    WithoutAt(q, k);
    WithoutIs(q, q[k]);
    forall j: nat | j < |r|
      ensures LinkedAt(two - {q[k]}, r, j)
    {
      RemovedAt(links, head, two, q, k, j);
    }
    RemovedHead(q, k);
  }

  lemma NotAlone(q: seq<int>, k: nat)
    requires k < |q| && q[After(k, |q|)] != q[k]
    ensures |q| > 1
  {
  }

  lemma RemovedHead(q: seq<int>, k: nat)
    requires Distinct(q) && k < |q| && 1 < |q|
    ensures (q[..k] + q[k + 1..])[0] == if q[0] == q[k] then q[After(k, |q|)] else q[0]
  {
    SameIndex(q, 0, k);
  }

  lemma RemovedAt(links: Links, head: Option<int>, two: Links, q: seq<int>, k: nat, j: nat)
    requires Ring(links, head, q) && k < |q| && j < |q| - 1
    requires var next, prev := q[After(k, |q|)], q[Before(k, |q|)];
             BothSet(links, two, prev, next, next, prev)
    ensures var r := q[..k] + q[k + 1..];
            r[j] != q[k] && LinkedAt(two, r, j) && LinkedAt(two - {q[k]}, r, j)
  {
    hide Distinct, After, Before, Skip, Ring;
    var n := |q|;
    SkipAround(j, k, n);
    var i := Skip(j, k);
    SkipIs(q, k, j);
    SkipIs(q, k, After(j, n - 1));
    SkipIs(q, k, Before(j, n - 1));
    LinkedIn(links, head, q, i);
    RingDistinct(links, head, q);
    SameIndex(q, i, k);
    SameIndex(q, i, After(k, n));
    SameIndex(q, i, Before(k, n));
  }

  lemma RingDistinct(links: Links, head: Option<int>, q: seq<int>)
    requires Ring(links, head, q)
    ensures Distinct(q)
  {
  }

  /** Going back one step from the head, the last node is the first of the same ring. */
  lemma TurnedBack(links: Links, head: Option<int>, q: seq<int>)
    requires Ring(links, head, q) && |q| > 0
    ensures var n := |q|;
            && links.Keys >= {q[0]} && links[q[0]].prev == q[n - 1]
            && Ring(links, Some(q[n - 1]), [q[n - 1]] + q[..n - 1])
  {
    hide After, Before;
    var n := |q|;
    var r := [q[n - 1]] + q[..n - 1];
    LinkedIn(links, head, q, 0);
    LastIsBefore(q);
    forall i, j | 0 <= i < j < n
      ensures r[i] != r[j]
    {
      SameIndex(q, if i == 0 then n - 1 else i - 1, j - 1);
    }
    forall k: nat | k < n
      ensures LinkedAt(links, r, k)
    {
      TurnedAt(links, head, q, k);
    }
  }

  lemma TurnedAt(links: Links, head: Option<int>, q: seq<int>, k: nat)
    requires Ring(links, head, q) && k < |q|
    ensures LinkedAt(links, [q[|q| - 1]] + q[..|q| - 1], k)
  {
    LinkedIn(links, head, q, if k == 0 then |q| - 1 else k - 1);
  }
}
