/** What the queues of an event base say about its callbacks, and how that is counted. */
module EventQueues {
  import opened Bytes
  import opened Lists

  /** Why an event is active. */
  datatype Reason = TIMEOUT | READ | WRITE | SIGNAL | CLOSED

  /**
   * An event, or a bare callback: its priority, what kind it is, and which lists it is on. `common` is
   * the common timeout it last waited for, if any; `res` is what it was activated for.
   */
  datatype Event = Event(
    pri: nat, internal: bool, isEvent: bool, watched: bool, persist: bool, selfCb: bool,
    inserted: bool, timeout: bool, active: bool, later: bool,
    deadline: nat, common: Option<nat>, res: set<Reason>)

  const BLANK := Event(0, false, false, false, false, false, false, false, false, false, 0, None, {})

  type Events = map<nat, Event>

  function At(evs: Events, id: nat): Event {
    if id in evs then evs[id] else BLANK
  }

  /** The events that all wait equally long, in the order of their deadlines, and the timer for the first. */
  datatype Common = Common(duration: nat, events: seq<nat>, proxy: nat)

  /** Every callback is in the queue that its flags and priority say, and in no other. */
  ghost predicate ActiveOk(evs: Events, queues: seq<seq<nat>>, later: seq<nat>) {
    && (forall p :: 0 <= p < |queues| ==> Distinct(queues[p]))
    && (forall p, id :: 0 <= p < |queues| ==> (id in queues[p] <==> At(evs, id).active && At(evs, id).pri == p))
    && Distinct(later)
    && (forall id :: id in later <==> At(evs, id).later)
    && (forall id :: id in evs ==> evs[id].pri < |queues| && !(evs[id].active && evs[id].later))
  }

  ghost predicate Sorted(evs: Events, q: seq<nat>) {
    forall j, k :: 0 <= j < k < |q| ==> At(evs, q[j]).deadline <= At(evs, q[k]).deadline
  }

  /** What waits for a time is in the heap, or in the queue of its common timeout. */
  ghost predicate TimersOk(evs: Events, heap: set<nat>, commons: seq<Common>) {
    && (forall id :: id in heap <==> At(evs, id).timeout && At(evs, id).common.None?)
    && (forall i, id :: 0 <= i < |commons| ==>
          (id in commons[i].events <==> At(evs, id).timeout && At(evs, id).common == Some(i)))
    && (forall id :: At(evs, id).timeout && At(evs, id).common.Some? ==> At(evs, id).common.value < |commons|)
    && (forall i :: 0 <= i < |commons| ==> Distinct(commons[i].events) && Sorted(evs, commons[i].events))
  }

  /** What the timer of a common timeout is like. */
  ghost predicate ProxyShape(evs: Events, c: Common) {
    && c.proxy in evs
    && var p := evs[c.proxy];
       p.internal && p.isEvent && !p.watched && !p.persist && !p.inserted && !p.later && p.common.None? && p.pri == 0
  }

  /** The timer of a common timeout will be noticed no later than the first event in its queue should be. */
  ghost predicate Wakes(evs: Events, c: Common) {
    var p := At(evs, c.proxy);
    |c.events| > 0 ==> p.active || (p.timeout && p.deadline <= At(evs, c.events[0]).deadline)
  }

  ghost predicate ShapesOk(evs: Events, commons: seq<Common>) {
    && (forall i :: 0 <= i < |commons| ==> ProxyShape(evs, commons[i]))
    && (forall i, j :: 0 <= i < j < |commons| ==> commons[i].proxy != commons[j].proxy)
  }

  ghost predicate ProxiesOk(evs: Events, commons: seq<Common>) {
    ShapesOk(evs, commons) && forall i :: 0 <= i < |commons| ==> Wakes(evs, commons[i])
  }

  /** `id` is the timer of a common timeout. */
  ghost predicate IsProxy(commons: seq<Common>, id: nat) {
    exists i :: 0 <= i < |commons| && commons[i].proxy == id
  }

  /** The first event of a common timeout, if there is one, is not due before the first one was. */
  ghost predicate HeadKept(was: Events, before: Common, after: Common) {
    && after.proxy == before.proxy
    && (|after.events| > 0 ==>
          |before.events| > 0 && At(was, before.events[0]).deadline <= At(was, after.events[0]).deadline)
  }

  /** `id` is now the first event of a common timeout. */
  ghost predicate NewHead(before: Common, after: Common, id: nat) {
    after.proxy == before.proxy && |after.events| > 0 && after.events[0] == id
  }

  ghost predicate HeadsKept(was: Events, before: seq<Common>, after: seq<Common>) {
    |after| == |before| && forall j :: 0 <= j < |before| ==> HeadKept(was, before[j], after[j])
  }

  /** `id` was put in the queue of `common`, if any. */
  ghost predicate HeadsPut(before: seq<Common>, after: seq<Common>, id: nat, common: Option<nat>) {
    && |after| == |before|
    && forall j :: 0 <= j < |before| ==>
      || after[j] == before[j]
      || (common == Some(j) && (NewHead(before[j], after[j], id) || SameHead(before[j], after[j])))
  }

  /** `id` may have left one queue, and may be the new first of that of `common`. */
  ghost predicate HeadsMoved(was: Events, before: seq<Common>, after: seq<Common>, id: nat, common: Option<nat>) {
    && |after| == |before|
    && forall j :: 0 <= j < |before| ==>
      HeadKept(was, before[j], after[j]) || (common == Some(j) && NewHead(before[j], after[j], id))
  }

  lemma HeadsCombine(was: Events, before: seq<Common>, mid: seq<Common>, after: seq<Common>, id: nat,
      common: Option<nat>)
    requires HeadsKept(was, before, mid) && HeadsPut(mid, after, id, common)
    ensures HeadsMoved(was, before, after, id, common)
    ensures common.None? ==> after == mid
  {
  }

  lemma HeadsSame(was: Events, commons: seq<Common>)
    ensures HeadsKept(was, commons, commons)
  {
  }

  ghost predicate SameHead(before: Common, after: Common) {
    after.proxy == before.proxy && |before.events| > 0 && |after.events| > 0 && after.events[0] == before.events[0]
  }

  // Counting

  /** How many lists a callback is on that keep the loop running. */
  function Weight(e: Event): nat {
    if e.internal then 0 else One(e.inserted) + One(e.timeout) + One(e.active) + One(e.later)
  }

  ghost function Inserted(evs: Events): set<nat> {
    set id | id in evs && !evs[id].internal && evs[id].inserted
  }

  ghost function Waiting(evs: Events): set<nat> {
    set id | id in evs && !evs[id].internal && evs[id].timeout
  }

  ghost function Active(evs: Events): set<nat> {
    set id | id in evs && !evs[id].internal && evs[id].active
  }

  ghost function Later(evs: Events): set<nat> {
    set id | id in evs && !evs[id].internal && evs[id].later
  }

  /** The list memberships of all callbacks that are not internal. */
  ghost function Memberships(evs: Events): nat {
    |Inserted(evs)| + |Waiting(evs)| + |Active(evs)| + |Later(evs)|
  }

  /** Changing one callback changes the count by what it is worth. */
  lemma CountChange(evs: Events, id: nat, ev: Event)
    requires id in evs && evs[id].internal == ev.internal
    ensures Memberships(evs[id := ev]) + Weight(evs[id]) == Memberships(evs) + Weight(ev)
  {
    hide Inserted, Waiting, Active, Later, One;
    InsertedChange(evs, id, ev);
    WaitingChange(evs, id, ev);
    ActiveChange(evs, id, ev);
    LaterChange(evs, id, ev);
  }

  lemma InsertedChange(evs: Events, id: nat, ev: Event)
    requires id in evs && evs[id].internal == ev.internal
    ensures if ev.internal then |Inserted(evs[id := ev])| == |Inserted(evs)|
            else |Inserted(evs[id := ev])| == |Inserted(evs)| - One(evs[id].inserted) + One(ev.inserted)
  {
    SizeChange(Inserted(evs), Inserted(evs[id := ev]), id);
  }

  lemma WaitingChange(evs: Events, id: nat, ev: Event)
    requires id in evs && evs[id].internal == ev.internal
    ensures if ev.internal then |Waiting(evs[id := ev])| == |Waiting(evs)|
            else |Waiting(evs[id := ev])| == |Waiting(evs)| - One(evs[id].timeout) + One(ev.timeout)
  {
    SizeChange(Waiting(evs), Waiting(evs[id := ev]), id);
  }

  lemma ActiveChange(evs: Events, id: nat, ev: Event)
    requires id in evs && evs[id].internal == ev.internal
    ensures if ev.internal then |Active(evs[id := ev])| == |Active(evs)|
            else |Active(evs[id := ev])| == |Active(evs)| - One(evs[id].active) + One(ev.active)
  {
    SizeChange(Active(evs), Active(evs[id := ev]), id);
  }

  lemma LaterChange(evs: Events, id: nat, ev: Event)
    requires id in evs && evs[id].internal == ev.internal
    ensures if ev.internal then |Later(evs[id := ev])| == |Later(evs)|
            else |Later(evs[id := ev])| == |Later(evs)| - One(evs[id].later) + One(ev.later)
  {
    SizeChange(Later(evs), Later(evs[id := ev]), id);
  }

  /** The count is zero, and the loop has nothing to wait for, just when no callback but internal ones is on
      any list. */
  lemma NothingLeft(evs: Events)
    ensures Memberships(evs) == 0 <==> forall id :: id in evs && !evs[id].internal ==>
              !evs[id].inserted && !evs[id].timeout && !evs[id].active && !evs[id].later
  {
    if Memberships(evs) == 0 {
      forall id | id in evs && !evs[id].internal
        ensures OffLists(evs[id])
      {
        CountChange(evs, id, evs[id].(inserted := false, timeout := false, active := false, later := false));
      }
    }
    if forall id :: id in evs && !evs[id].internal ==> OffLists(evs[id]) {
      NoneCounted(evs);
    }
  }

  lemma NoneCounted(evs: Events)
    requires forall id :: id in evs && !evs[id].internal ==> OffLists(evs[id])
    ensures Memberships(evs) == 0
  {
    assert Inserted(evs) == {} && Waiting(evs) == {} && Active(evs) == {} && Later(evs) == {};
  }

  // Lists

  lemma {:induction false} WithoutSorted(evs: Events, q: seq<nat>, id: nat)
    requires Sorted(evs, q)
    ensures Sorted(evs, Without(q, id))
    ensures |Without(q, id)| > 0 ==> |q| > 0 && At(evs, q[0]).deadline <= At(evs, Without(q, id)[0]).deadline
  {
    if |q| > 0 && q[0] != id {
      WithoutSorted(evs, q[1..], id);
      WithoutIn(q[1..], id);
      var r := Without(q, id);
      forall j, k | 0 <= j < k < |r|
        ensures At(evs, r[j]).deadline <= At(evs, r[k]).deadline
      {
        if j == 0 {
          assert r[k] in Without(q[1..], id);
          assert r[k] in q[1..];
        }
      }
    }
  }

  // One callback changes

  lemma ChangedTwice(evs: Events, id: nat, x: Event, y: Event)
    ensures evs[id := x][id := y] == evs[id := y]
  {
  }

  lemma Unchanged(evs: Events, id: nat)
    requires id in evs
    ensures evs == evs[id := evs[id]]
  {
  }

  lemma OneChanged(evs: Events, next: Events, id: nat, ev: Event)
    requires id in evs && next == evs[id := ev]
    ensures At(evs, id) == evs[id] && At(next, id) == ev
    ensures forall x :: x != id ==> At(next, x) == At(evs, x)
  {
  }

  /** Nothing that the active queues depend on changes. */
  lemma ActiveOther(evs: Events, id: nat, ev: Event, queues: seq<seq<nat>>, later: seq<nat>)
    requires ActiveOk(evs, queues, later) && id in evs
    requires ev.active == evs[id].active && ev.later == evs[id].later && ev.pri == evs[id].pri
    ensures ActiveOk(evs[id := ev], queues, later)
  {
    var next := evs[id := ev];
    OneChanged(evs, next, id, next[id]);
  }

  lemma ActivePut(evs: Events, id: nat, queues: seq<seq<nat>>, later: seq<nat>)
    requires ActiveOk(evs, queues, later) && id in evs && !evs[id].active && !evs[id].later
    ensures var p := evs[id].pri;
            p < |queues| && ActiveOk(evs[id := evs[id].(active := true)], queues[p := queues[p] + [id]], later)
  {
    var p := evs[id].pri;
    var next := evs[id := evs[id].(active := true)];
    OneChanged(evs, next, id, next[id]);
    SnocDistinct(queues[p], id);
  }

  lemma ActiveTaken(evs: Events, id: nat, queues: seq<seq<nat>>, later: seq<nat>)
    requires ActiveOk(evs, queues, later) && id in evs && evs[id].active
    ensures var p := evs[id].pri;
            && p < |queues| && |Without(queues[p], id)| == |queues[p]| - 1
            && ActiveOk(evs[id := evs[id].(active := false)], queues[p := Without(queues[p], id)], later)
  {
    hide Without;
    var p := evs[id].pri;
    var next := evs[id := evs[id].(active := false)];
    OneChanged(evs, next, id, next[id]);
    WithoutIs(queues[p], id);
  }

  lemma LaterPut(evs: Events, id: nat, queues: seq<seq<nat>>, later: seq<nat>)
    requires ActiveOk(evs, queues, later) && id in evs && !evs[id].active && !evs[id].later
    ensures ActiveOk(evs[id := evs[id].(later := true)], queues, later + [id])
  {
    var next := evs[id := evs[id].(later := true)];
    OneChanged(evs, next, id, next[id]);
    SnocDistinct(later, id);
  }

  lemma LaterTaken(evs: Events, id: nat, queues: seq<seq<nat>>, later: seq<nat>)
    requires ActiveOk(evs, queues, later) && id in evs && evs[id].later
    ensures ActiveOk(evs[id := evs[id].(later := false)], queues, Without(later, id))
    ensures |Without(later, id)| == |later| - 1
  {
    hide Without;
    var next := evs[id := evs[id].(later := false)];
    OneChanged(evs, next, id, next[id]);
    WithoutIs(later, id);
  }

  lemma SameDeadlines(evs: Events, next: Events, q: seq<nat>)
    requires Sorted(evs, q) && forall x :: x in q ==> At(next, x).deadline == At(evs, x).deadline
    ensures Sorted(next, q)
  {
  }

  /** Nothing that the timers depend on changes. */
  lemma TimersOther(evs: Events, id: nat, ev: Event, heap: set<nat>, commons: seq<Common>)
    requires TimersOk(evs, heap, commons) && id in evs && ev.timeout == evs[id].timeout
    requires ev.timeout ==> ev.common == evs[id].common && ev.deadline == evs[id].deadline
    ensures TimersOk(evs[id := ev], heap, commons)
  {
    hide Sorted, Distinct;
    var next := evs[id := ev];
    OneChanged(evs, next, id, next[id]);
    forall i | 0 <= i < |commons|
      ensures Sorted(next, commons[i].events)
    {
      SameDeadlines(evs, next, commons[i].events);
    }
  }

  lemma HeapPut(evs: Events, id: nat, ev: Event, heap: set<nat>, commons: seq<Common>)
    requires TimersOk(evs, heap, commons) && id in evs && !evs[id].timeout && ev.timeout && ev.common.None?
    ensures TimersOk(evs[id := ev], heap + {id}, commons)
  {
    hide Sorted, Distinct;
    var next := evs[id := ev];
    OneChanged(evs, next, id, next[id]);
    forall i | 0 <= i < |commons|
      ensures Sorted(next, commons[i].events)
    {
      SameDeadlines(evs, next, commons[i].events);
    }
  }

  lemma HeapTaken(evs: Events, id: nat, heap: set<nat>, commons: seq<Common>)
    requires TimersOk(evs, heap, commons) && id in heap
    ensures id in evs && TimersOk(evs[id := evs[id].(timeout := false)], heap - {id}, commons)
  {
    hide Sorted, Distinct;
    assert At(evs, id).timeout;
    var next := evs[id := evs[id].(timeout := false)];
    OneChanged(evs, next, id, next[id]);
    forall i | 0 <= i < |commons|
      ensures Sorted(next, commons[i].events)
    {
      SameDeadlines(evs, next, commons[i].events);
    }
  }

  /** The queue `q` with `id` put in before its first event that is due later. */
  ghost predicate PutInOrder(evs: Events, q: seq<nat>, id: nat, deadline: nat, k: nat) {
    && k <= |q|
    && (k > 0 ==> At(evs, q[k - 1]).deadline <= deadline)
    && (forall j :: k <= j < |q| ==> deadline < At(evs, q[j]).deadline)
  }

  lemma CommonPut(evs: Events, id: nat, ev: Event, heap: set<nat>, commons: seq<Common>, i: nat, k: nat)
    requires TimersOk(evs, heap, commons) && id in evs && !evs[id].timeout && ev.timeout && ev.common == Some(i)
    requires i < |commons| && PutInOrder(evs, commons[i].events, id, ev.deadline, k)
    ensures var q := commons[i].events;
            TimersOk(evs[id := ev], heap, commons[i := commons[i].(events := q[..k] + [id] + q[k..])])
  {
    hide Sorted, Distinct;
    var next := evs[id := ev];
    var q := commons[i].events;
    var r := q[..k] + [id] + q[k..];
    OneChanged(evs, next, id, next[id]);
    PutSorted(evs, next, q, id, k);
    forall j | 0 <= j < |commons| && j != i
      ensures Sorted(next, commons[j].events)
    {
      SameDeadlines(evs, next, commons[j].events);
    }
    PutMembers(q, id, k);
  }

  lemma PutMembers(q: seq<nat>, id: nat, k: nat)
    requires k <= |q|
    ensures forall x :: x in q[..k] + [id] + q[k..] <==> x in q || x == id
  {
    assert q == q[..k] + q[k..];
  }

  lemma PutSorted(evs: Events, next: Events, q: seq<nat>, id: nat, k: nat)
    requires Sorted(evs, q) && Distinct(q) && id !in q && PutInOrder(evs, q, id, At(next, id).deadline, k)
    requires forall x :: x != id ==> At(next, x) == At(evs, x)
    ensures Sorted(next, q[..k] + [id] + q[k..]) && Distinct(q[..k] + [id] + q[k..])
  {
    hide At;
    var r := q[..k] + [id] + q[k..];
    forall j, l | 0 <= j < l < |r|
      ensures At(next, r[j]).deadline <= At(next, r[l]).deadline && r[j] != r[l]
    {
      var a, b := if j < k then j else j - 1, if l < k then l else l - 1;
      if j < k {
        assert r[j] == q[j] && (j < k - 1 ==> At(evs, q[j]).deadline <= At(evs, q[k - 1]).deadline);
      }
      if l > k {
        assert r[l] == q[l - 1];
      }
      if j > k {
        assert r[j] == q[j - 1];
      }
      if l < k {
        assert r[l] == q[l];
      }
    }
  }

  lemma CommonTaken(evs: Events, id: nat, heap: set<nat>, commons: seq<Common>)
    requires TimersOk(evs, heap, commons) && id in evs && evs[id].timeout && evs[id].common.Some?
    ensures var i := evs[id].common.value;
            && i < |commons|
            && TimersOk(evs[id := evs[id].(timeout := false)], heap,
                        commons[i := commons[i].(events := Without(commons[i].events, id))])
  {
    hide Sorted, Distinct, Without;
    var i := evs[id].common.value;
    assert At(evs, id) == evs[id];
    var next := evs[id := evs[id].(timeout := false)];
    OneChanged(evs, next, id, next[id]);
    WithoutIs(commons[i].events, id);
    TakenSorted(evs, id, i, heap, commons);
    var after := commons[i := commons[i].(events := Without(commons[i].events, id))];
    forall j, x | 0 <= j < |commons|
      ensures x in after[j].events <==> At(next, x).timeout && At(next, x).common == Some(j)
    {
      assert x in commons[j].events <==> At(evs, x).timeout && At(evs, x).common == Some(j);
    }
  }

  lemma TakenSorted(evs: Events, id: nat, i: nat, heap: set<nat>, commons: seq<Common>)
    requires TimersOk(evs, heap, commons) && id in evs && i < |commons|
    ensures var next := evs[id := evs[id].(timeout := false)];
            var after := commons[i := commons[i].(events := Without(commons[i].events, id))];
            forall j :: 0 <= j < |commons| ==> Distinct(after[j].events) && Sorted(next, after[j].events)
  {
    hide Sorted, Distinct, Without;
    var next := evs[id := evs[id].(timeout := false)];
    WithoutIs(commons[i].events, id);
    WithoutSorted(evs, commons[i].events, id);
    SameDeadlines(evs, next, Without(commons[i].events, id));
    forall j | 0 <= j < |commons| && j != i
      ensures Sorted(next, commons[j].events)
    {
      SameDeadlines(evs, next, commons[j].events);
    }
  }

  /** A timer that was early enough for the first event of its queue still is. */
  lemma WakesKept(was: Events, evs: Events, id: nat, before: Common, after: Common)
    requires Wakes(was, before) && HeadKept(was, before, after)
    requires forall x :: x != id ==> At(evs, x) == At(was, x)
    requires id != before.proxy
    requires |after.events| > 0 ==> after.events[0] != id || At(evs, id).deadline == At(was, id).deadline
    ensures Wakes(evs, after)
  {
  }

  lemma ShapesKept(was: Events, evs: Events, id: nat, before: seq<Common>, after: seq<Common>)
    requires ShapesOk(was, before) && |after| == |before| && forall j :: 0 <= j < |before| ==>
        after[j].proxy == before[j].proxy
    requires id in was && id in evs && evs == was[id := evs[id]]
    requires !IsProxy(before, id) || evs[id] == was[id].(timeout := evs[id].timeout, deadline := evs[id].deadline,
                                                        active := evs[id].active, res := evs[id].res)
    ensures ShapesOk(evs, after)
  {
    forall j | 0 <= j < |after|
      ensures ProxyShape(evs, after[j])
    {
      assert ProxyShape(was, before[j]);
      assert before[j].proxy == id ==> IsProxy(before, id);
    }
  }

  /** The common timeouts when `id` no longer times out. */
  function RemovedFrom(commons: seq<Common>, ev: Event, id: nat): (r: seq<Common>)
    ensures |r| == |commons|
  {
    if ev.timeout && ev.common.Some? && ev.common.value < |commons| then
      var i := ev.common.value;
      commons[i := commons[i].(events := Without(commons[i].events, id))]
    else commons
  }

  lemma RemovedNone(commons: seq<Common>, ev: Event, id: nat)
    ensures ev.common.None? || !ev.timeout ==> RemovedFrom(commons, ev, id) == commons
  {
  }

  lemma MembersOf(evs: Events, heap: set<nat>, commons: seq<Common>, j: nat)
    requires TimersOk(evs, heap, commons) && j < |commons| && |commons[j].events| > 0
    ensures var h := commons[j].events[0];
            h in evs && evs[h].timeout && evs[h].common == Some(j)
  {
    assert commons[j].events[0] in commons[j].events;
  }

  /** `id` changed, and only it: the timers are early enough for all queues it is not the first of. */
  lemma ProxiesAfter(was: Events, evs: Events, id: nat, heap: set<nat>, before: seq<Common>, after: seq<Common>)
    requires ProxiesOk(was, before) && id in was && id in evs && evs == was[id := evs[id]] && !IsProxy(before, id)
    requires TimersOk(evs, heap, after) && HeadsMoved(was, before, after, id, evs[id].common)
    ensures ShapesOk(evs, after) && !IsProxy(after, id)
    ensures forall j :: 0 <= j < |before| ==> after[j].proxy == before[j].proxy
    ensures forall j :: 0 <= j < |after| ==>
      Wakes(evs, after[j]) || (evs[id].timeout && evs[id].common == Some(j) && |after[j].events| > 0
          && after[j].events[0] == id)
  {
    hide TimersOk, ProxyShape, Wakes;
    OneChanged(was, evs, id, evs[id]);
    ShapesKept(was, evs, id, before, after);
    forall j | 0 <= j < |after|
      ensures Wakes(evs, after[j]) || (evs[id].timeout && evs[id].common == Some(j) && |after[j].events| > 0
          && after[j].events[0] == id)
    {
      if |after[j].events| > 0 && after[j].events[0] == id {
        MembersOf(evs, heap, after, j);
      } else {
        assert before[j].proxy != id;
        WakesKept(was, evs, id, before[j], after[j]);
      }
    }
  }

  /** Changes that leave an event in the queues where it is leave the timers right. */
  lemma ProxiesOther(evs: Events, id: nat, ev: Event, commons: seq<Common>)
    requires ProxiesOk(evs, commons) && id in evs && !IsProxy(commons, id) && ev.deadline == evs[id].deadline
    ensures ProxiesOk(evs[id := ev], commons)
  {
    hide ProxyShape, Wakes;
    var next := evs[id := ev];
    OneChanged(evs, next, id, ev);
    ShapesKept(evs, next, id, commons, commons);
    forall j | 0 <= j < |commons|
      ensures Wakes(next, commons[j])
    {
      WakesKept(evs, next, id, commons[j], commons[j]);
    }
  }

  /** The timer of queue `i` is set for its first event. */
  lemma ProxyScheduled(was: Events, evs: Events, heap: set<nat>, commons: seq<Common>, i: nat)
    requires i < |commons| && ShapesOk(was, commons) && TimersOk(evs, heap, commons) && |commons[i].events| > 0
    requires forall j :: 0 <= j < |commons| && j != i ==> Wakes(was, commons[j])
    requires var p := commons[i].proxy;
             && p in was && p in evs && evs == was[p := evs[p]] && evs[p].timeout && evs[p].common.None?
             && evs[p].deadline == At(was, commons[i].events[0]).deadline
             && evs[p] == was[p].(timeout := true, deadline := evs[p].deadline, active := evs[p].active)
    ensures ProxiesOk(evs, commons)
  {
    hide TimersOk, ProxyShape;
    var p := commons[i].proxy;
    OneChanged(was, evs, p, evs[p]);
    ShapesKept(was, evs, p, commons, commons);
    forall j | 0 <= j < |commons|
      ensures Wakes(evs, commons[j])
    {
      if |commons[j].events| > 0 {
        MembersOf(evs, heap, commons, j);
      }
    }
  }

  // Timing out

  /** An event that has timed out: taken off all lists, then made active. */
  function Fired(ev: Event): Event {
    ev.(timeout := false, inserted := false, active := true, later := false, res := {TIMEOUT})
  }

  /** An event off all lists. */
  function Idle(ev: Event): Event {
    ev.(timeout := false, inserted := false, active := false, later := false)
  }

  /** An event made active, for one more reason if it was already. */
  function Activated(ev: Event, res: set<Reason>): Event {
    ev.(active := true, later := false,
        res := if ev.active || ev.later then ev.res + res else res)
  }

  /** Firing any event, a timer of a common timeout or not, makes no timer late. */
  lemma ProxiesFired(was: Events, evs: Events, id: nat, before: seq<Common>, after: seq<Common>, j: nat)
    requires ShapesOk(was, before) && id in was && evs == was[id := Fired(was[id])]
    requires HeadsKept(was, before, after)
    ensures ShapesOk(evs, after)
    ensures j < |before| && Wakes(was, before[j]) ==> Wakes(evs, after[j])
  {
    hide ProxyShape;
    OneChanged(was, evs, id, evs[id]);
    ShapesFired(was, evs, id, before, after);
  }

  lemma ShapesFired(was: Events, evs: Events, id: nat, before: seq<Common>, after: seq<Common>)
    requires ShapesOk(was, before) && id in was && evs == was[id := Fired(was[id])]
    requires |after| == |before| && forall k :: 0 <= k < |before| ==> after[k].proxy == before[k].proxy
    ensures ShapesOk(evs, after)
  {
    forall j | 0 <= j < |after|
      ensures ProxyShape(evs, after[j])
    {
      assert ProxyShape(was, before[j]);
    }
  }

  /** None of `heap` is due before `top`. */
  predicate Soonest(evs: Events, heap: set<nat>, top: nat) {
    top in heap && forall id :: id in heap ==> At(evs, top).deadline <= At(evs, id).deadline
  }

  lemma {:induction false} SoonestExists(evs: Events, heap: set<nat>)
    requires heap != {}
    ensures exists top :: Soonest(evs, heap, top)
    decreases |heap|
  {
    hide At;
    var x :| x in heap;
    var rest := heap - {x};
    if rest == {} {
      assert heap == {x};
      assert Soonest(evs, heap, x);
    } else {
      SoonestExists(evs, rest);
      var top :| Soonest(evs, rest, top);
      SoonestOfTwo(evs, heap, x, top);
    }
  }

  lemma SoonestOfTwo(evs: Events, heap: set<nat>, x: nat, top: nat)
    requires x in heap && Soonest(evs, heap - {x}, top)
    ensures Soonest(evs, heap, x) || Soonest(evs, heap, top)
  {
    hide At;
    assert forall id :: id in heap ==> id == x || id in heap - {x};
  }

  // Deferred callbacks

  /** The queues when a callback is active no more. */
  function QueuesWithout(queues: seq<seq<nat>>, active: bool, pri: nat, id: nat): (r: seq<seq<nat>>)
    ensures |r| == |queues|
  {
    if active && pri < |queues| then queues[pri := Without(queues[pri], id)] else queues
  }

  /** The first of those put off joins the end of its queue. */
  lemma LaterMoved(evs: Events, queues: seq<seq<nat>>, later: seq<nat>)
    requires ActiveOk(evs, queues, later) && |later| > 0
    ensures var id := later[0];
            && id in evs && evs[id].later && !evs[id].active && evs[id].pri < |queues|
            && ActiveOk(evs[id := evs[id].(later := false, active := true)],
                        queues[evs[id].pri := queues[evs[id].pri] + [id]], later[1..])
  {
    hide ActiveOk;
    var id := later[0];
    FirstIsLater(evs, queues, later);
    LaterTaken(evs, id, queues, later);
    var mid := evs[id := evs[id].(later := false)];
    ActivePut(mid, id, queues, Without(later, id));
    ChangedTwice(evs, id, mid[id], evs[id].(later := false, active := true));
  }

  lemma FirstIsLater(evs: Events, queues: seq<seq<nat>>, later: seq<nat>)
    requires ActiveOk(evs, queues, later) && |later| > 0
    ensures later[0] in evs && evs[later[0]].later && !evs[later[0]].active
  {
    assert later[0] in later;
    assert At(evs, later[0]).later;
  }

  lemma LaterIsNoProxy(evs: Events, commons: seq<Common>, id: nat)
    requires ShapesOk(evs, commons) && id in evs && evs[id].later
    ensures !IsProxy(commons, id)
  {
    forall i | 0 <= i < |commons|
      ensures commons[i].proxy != id
    {
      assert ProxyShape(evs, commons[i]);
    }
  }

  /** How many of the callbacks are deferred ones. */
  ghost function SelfCbs(evs: Events, q: seq<nat>): nat {
    if |q| == 0 then 0 else One(At(evs, q[0]).selfCb) + SelfCbs(evs, q[1..])
  }

  // Setting up

  /** A callback on no list. */
  ghost predicate OffLists(ev: Event) {
    !ev.inserted && !ev.timeout && !ev.active && !ev.later
  }

  /** A callback on no list may be new, or change its priority: the queues stay as they are. */
  lemma QueuesOff(evs: Events, id: nat, ev: Event, queues: seq<seq<nat>>, later: seq<nat>, heap: set<nat>,
      commons: seq<Common>)
    requires ActiveOk(evs, queues, later) && TimersOk(evs, heap, commons)
    requires id !in evs && OffLists(ev) && ev.pri < |queues|
    ensures ActiveOk(evs[id := ev], queues, later) && TimersOk(evs[id := ev], heap, commons)
    ensures Memberships(evs[id := ev]) == Memberships(evs)
  {
    hide Distinct, Sorted;
    var next := evs[id := ev];
    assert forall x :: x != id ==> At(next, x) == At(evs, x);
    assert At(next, id) == ev && At(evs, id) == BLANK;
    forall i | 0 <= i < |commons|
      ensures Sorted(next, commons[i].events)
    {
      SameDeadlines(evs, next, commons[i].events);
    }
    assert Inserted(next) == Inserted(evs) && Waiting(next) == Waiting(evs);
    assert Active(next) == Active(evs) && Later(next) == Later(evs);
  }

  lemma ProxiesNew(evs: Events, id: nat, ev: Event, heap: set<nat>, commons: seq<Common>)
    requires ProxiesOk(evs, commons) && TimersOk(evs, heap, commons) && id !in evs
    ensures ProxiesOk(evs[id := ev], commons) && !IsProxy(commons, id)
  {
    hide TimersOk;
    var next := evs[id := ev];
    assert forall x :: x != id ==> At(next, x) == At(evs, x);
    forall i | 0 <= i < |commons|
      ensures ProxyShape(next, commons[i]) && Wakes(next, commons[i]) && commons[i].proxy != id
    {
      assert ProxyShape(evs, commons[i]) && Wakes(evs, commons[i]);
      if |commons[i].events| > 0 {
        MembersOf(evs, heap, commons, i);
      }
    }
  }

  lemma PriorityOther(evs: Events, id: nat, pri: nat, queues: seq<seq<nat>>, later: seq<nat>)
    requires ActiveOk(evs, queues, later) && id in evs && !evs[id].active && pri < |queues|
    ensures ActiveOk(evs[id := evs[id].(pri := pri)], queues, later)
  {
    var next := evs[id := evs[id].(pri := pri)];
    OneChanged(evs, next, id, next[id]);
  }

  /** A common timeout without events. */
  lemma CommonNew(evs: Events, heap: set<nat>, commons: seq<Common>, c: Common)
    requires TimersOk(evs, heap, commons) && ProxiesOk(evs, commons) && |c.events| == 0
    requires ProxyShape(evs, c) && !IsProxy(commons, c.proxy)
    ensures TimersOk(evs, heap, commons + [c]) && ProxiesOk(evs, commons + [c])
  {
    hide ProxyShape, Sorted, Distinct;
    var next := commons + [c];
    SortedNone(evs);
    forall i, id | 0 <= i < |next|
      ensures id in next[i].events <==> At(evs, id).timeout && At(evs, id).common == Some(i)
    {
    }
    forall i, j | 0 <= i < j < |next|
      ensures next[i].proxy != next[j].proxy
    {
      assert i < |commons| && (commons[i].proxy == c.proxy ==> IsProxy(commons, c.proxy));
    }
  }

  lemma SortedNone(evs: Events)
    ensures Sorted(evs, []) && Distinct<nat>([])
  {
  }
}
