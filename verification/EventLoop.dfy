/** The timers and the active queues of an event base. */
module EventLoop {
  import opened Bytes
  import opened EventQueues
  import opened Lists

  const MAX_DEFERREDS_QUEUED: nat := 32
  const MAX_COMMON_TIMEOUTS: nat := 256
  const INT_MAX: nat := 0x7fff_ffff

  /** When to time out; `common` names the common timeout that the interval is of, if any. */
  datatype When = When(usec: nat, common: Option<nat>)

  /** `id` was taken out of the queue of its priority if it was active, and put at its end. */
  ghost predicate Requeued(was: seq<seq<nat>>, queues: seq<seq<nat>>, active: bool, pri: nat, id: nat) {
    JoinedQueue(QueuesWithout(was, active, pri, id), queues, id, false, pri)
  }

  /** Only `id` has changed, and the timer `proxy`, which is set for the same time. */
  ghost predicate SetFor(was: Events, evs: Events, id: nat, proxy: nat) {
    && evs.Keys == was.Keys && id in evs && proxy in evs && proxy != id
    && evs[proxy] == was[proxy].(timeout := true, deadline := evs[id].deadline, common := None,
                                 active := was[proxy].active && TIMEOUT !in was[proxy].res)
    && forall x :: x in evs && x != id && x != proxy ==> evs[x] == was[x]
  }

  /** If it was not active, `id` was put at the end of the queue of its priority. */
  ghost predicate JoinedQueue(was: seq<seq<nat>>, queues: seq<seq<nat>>, id: nat, active: bool, pri: nat) {
    if active then queues == was else pri < |was| && queues == was[pri := was[pri] + [id]]
  }

  class Base {
    var evs: Events
    var queues: seq<seq<nat>>   // by priority
    var later: seq<nat>
    var heap: set<nat>
    var commons: seq<Common>
    var eventCount: int
    var eventCountActive: int
    var deferredsQueued: nat
    var runningPriority: int   // -1 when no callback runs
    var eventBreak: bool
    var eventContinue: bool

    ghost predicate CountsOk()
      reads this`evs, this`queues, this`later, this`eventCount, this`eventCountActive
    {
      eventCount == Memberships(evs) && eventCountActive == Total(queues) + |later|
    }

    /** All but what is said about the timers of the common timeouts. */
    ghost predicate Core()
      reads this`evs, this`queues, this`later, this`heap, this`commons, this`eventCount, this`eventCountActive
    {
      ActiveOk(evs, queues, later) && TimersOk(evs, heap, commons) && CountsOk()
    }

    ghost predicate Valid()
      reads this`evs, this`queues, this`later, this`heap, this`commons, this`eventCount, this`eventCountActive
    {
      Core() && ProxiesOk(evs, commons)
    }

    constructor (priorities: nat)
      requires priorities > 0
      ensures Valid() && DeferOk() && NoProxyActive() && evs == map[] && commons == [] && heap == {} && later == []
      ensures |queues| == priorities && forall p :: 0 <= p < priorities ==> queues[p] == []
      ensures eventCount == 0 == eventCountActive && deferredsQueued == 0 && runningPriority == -1
      ensures !eventBreak && !eventContinue
    {
      evs, later, heap, commons, eventCount, eventCountActive, deferredsQueued := map[], [], {}, [], 0, 0, 0;
      queues := seq(priorities, _ => []);
      runningPriority, eventBreak, eventContinue := -1, false, false;
      new;
      NoneQueued(queues);
    }

    // Setting up

    method NewCallback(id: nat, ev: Event)
      requires Valid() && id !in evs && OffLists(ev) && ev.pri < |queues|
      modifies this`evs
      ensures Valid() && evs == old(evs)[id := ev] && !IsProxy(commons, id)
    {
      hide ActiveOk, TimersOk, ProxiesOk, Memberships;
      QueuesOff(evs, id, ev, queues, later, heap, commons);
      ProxiesNew(evs, id, ev, heap, commons);
      evs := evs[id := ev];
    }

    /** Sets up an event, in the middle of the priorities. */
    method Assign(id: nat, watched: bool, persist: bool)
      requires Valid() && id !in evs && |queues| > 0
      modifies this`evs
      ensures Valid() && id in evs && OffLists(evs[id]) && evs == old(evs)[id := evs[id]] && !IsProxy(commons, id)
      ensures evs[id] == Event(pri := |queues| / 2, internal := false, isEvent := true, watched := watched,
                               persist := persist, selfCb := false, inserted := false, timeout := false,
                               active := false, later := false, deadline := 0, common := None, res := {})
    {
      NewCallback(id, BLANK.(pri := |queues| / 2, isEvent := true, watched := watched, persist := persist));
    }

    /** Sets up a deferred callback. */
    method DeferredInit(id: nat, priority: nat)
      requires Valid() && id !in evs && priority < |queues|
      modifies this`evs
      ensures Valid() && id in evs && OffLists(evs[id]) && evs == old(evs)[id := evs[id]] && !IsProxy(commons, id)
      ensures evs[id] == Event(pri := priority, internal := false, isEvent := false, watched := false,
                               persist := false, selfCb := true, inserted := false, timeout := false,
                               active := false, later := false, deadline := 0, common := None, res := {})
    {
      NewCallback(id, BLANK.(pri := priority, selfCb := true));
    }

    /** Gives an event another priority, unless it is active. */
    method PrioritySet(id: nat, pri: int) returns (r: int)
      requires Valid() && id in evs && !IsProxy(commons, id)
      modifies this`evs
      ensures Valid()
      ensures r == if old(evs)[id].active || pri < 0 || pri >= |queues| then -1 else 0
      ensures evs == if r == 0 then old(evs)[id := old(evs)[id].(pri := pri)] else old(evs)
    {
      hide ActiveOk, TimersOk, ProxiesOk, Memberships;
      if evs[id].active || pri < 0 || pri >= |queues| {
        return -1;
      }
      var next := evs[id].(pri := pri);
      PriorityOther(evs, id, pri, queues, later);
      TimersOther(evs, id, next, heap, commons);
      ProxiesOther(evs, id, next, commons);
      CountChange(evs, id, next);
      evs := evs[id := next];
      return 0;
    }

    /** The common timeout for a duration, which is made if there is none yet; none if there are too many. */
    method InitCommonTimeout(duration: nat, proxy: nat) returns (r: Option<nat>)
      requires Valid() && proxy !in evs && |queues| > 0
      modifies this`evs, this`commons
      ensures Valid()
      ensures r.Some? ==> r.value < |commons| && commons[r.value].duration == duration
      ensures r.None? <==> |old(commons)| == MAX_COMMON_TIMEOUTS && forall i :: 0 <= i < |commons| ==>
          commons[i].duration != duration
      ensures if r.Some? && r.value == |old(commons)| then
                commons == old(commons) + [Common(duration, [], proxy)] && evs.Keys == old(evs).Keys + {proxy}
              else commons == old(commons) && evs == old(evs)
      ensures forall id :: id in old(evs) ==> evs[id] == old(evs)[id]
    {
      hide ActiveOk, TimersOk, ProxiesOk, Memberships;
      for i := 0 to |commons|
        modifies {}
        invariant forall k :: 0 <= k < i ==> commons[k].duration != duration
      {
        if commons[i].duration == duration {
          return Some(i);
        }
      }
      if |commons| == MAX_COMMON_TIMEOUTS {
        return None;
      }
      NewCallback(proxy, BLANK.(isEvent := true, internal := true));
      CommonNew(evs, heap, commons, Common(duration, [], proxy));
      commons := commons + [Common(duration, [], proxy)];
      return Some(|commons| - 1);
    }

    // The queues

    method InsertActive(id: nat)
      requires Core() && id in evs && !evs[id].active && !evs[id].later
      modifies this`evs, this`queues, this`eventCount, this`eventCountActive
      ensures Core() && evs == old(evs)[id := old(evs)[id].(active := true)]
      ensures old(evs)[id].pri < |old(queues)| && Total(queues) == Total(old(queues)) + 1
      ensures queues == old(queues)[old(evs)[id].pri := old(queues)[old(evs)[id].pri] + [id]]
    {
      hide ActiveOk, TimersOk, Memberships;
      var ev := evs[id];
      var next := ev.(active := true);
      ActivePut(evs, id, queues, later);
      TimersOther(evs, id, next, heap, commons);
      CountChange(evs, id, next);
      TotalChange(queues, ev.pri, queues[ev.pri] + [id]);
      eventCount := eventCount + One(!ev.internal);
      evs := evs[id := next];
      eventCountActive := eventCountActive + 1;
      queues := queues[ev.pri := queues[ev.pri] + [id]];
    }

    method RemoveActive(id: nat)
      requires Core() && id in evs && evs[id].active
      modifies this`evs, this`queues, this`eventCount, this`eventCountActive
      ensures Core() && evs == old(evs)[id := old(evs)[id].(active := false)]
      ensures old(evs)[id].pri < |old(queues)| && Total(queues) + 1 == Total(old(queues))
      ensures queues == old(queues)[old(evs)[id].pri := Without(old(queues)[old(evs)[id].pri], id)]
    {
      hide ActiveOk, TimersOk, Memberships, Without;
      var ev := evs[id];
      var next := ev.(active := false);
      ActiveTaken(evs, id, queues, later);
      TimersOther(evs, id, next, heap, commons);
      CountChange(evs, id, next);
      TotalChange(queues, ev.pri, Without(queues[ev.pri], id));
      eventCount := eventCount - One(!ev.internal);
      evs := evs[id := next];
      eventCountActive := eventCountActive - 1;
      queues := queues[ev.pri := Without(queues[ev.pri], id)];
    }

    method InsertLater(id: nat)
      requires Core() && id in evs && !evs[id].active && !evs[id].later
      modifies this`evs, this`later, this`eventCount, this`eventCountActive
      ensures Core() && evs == old(evs)[id := old(evs)[id].(later := true)] && later == old(later) + [id]
    {
      hide ActiveOk, TimersOk, Memberships;
      var ev := evs[id];
      var next := ev.(later := true);
      LaterPut(evs, id, queues, later);
      TimersOther(evs, id, next, heap, commons);
      CountChange(evs, id, next);
      eventCount := eventCount + One(!ev.internal);
      evs := evs[id := next];
      eventCountActive := eventCountActive + 1;
      later := later + [id];
    }

    method RemoveLater(id: nat)
      requires Core() && id in evs && evs[id].later
      modifies this`evs, this`later, this`eventCount, this`eventCountActive
      ensures Core() && evs == old(evs)[id := old(evs)[id].(later := false)] && later == Without(old(later), id)
    {
      hide ActiveOk, TimersOk, Memberships, Without;
      var ev := evs[id];
      var next := ev.(later := false);
      LaterTaken(evs, id, queues, later);
      TimersOther(evs, id, next, heap, commons);
      CountChange(evs, id, next);
      eventCount := eventCount - One(!ev.internal);
      evs := evs[id := next];
      eventCountActive := eventCountActive - 1;
      later := Without(later, id);
    }

    method InsertInserted(id: nat)
      requires Core() && id in evs && !evs[id].inserted
      modifies this`evs, this`eventCount
      ensures Core() && evs == old(evs)[id := old(evs)[id].(inserted := true)]
    {
      hide ActiveOk, TimersOk, Memberships;
      var next := evs[id].(inserted := true);
      ActiveOther(evs, id, next, queues, later);
      TimersOther(evs, id, next, heap, commons);
      CountChange(evs, id, next);
      eventCount := eventCount + One(!next.internal);
      evs := evs[id := next];
    }

    method RemoveInserted(id: nat)
      requires Core() && id in evs && evs[id].inserted
      modifies this`evs, this`eventCount
      ensures Core() && evs == old(evs)[id := old(evs)[id].(inserted := false)]
    {
      hide ActiveOk, TimersOk, Memberships;
      var next := evs[id].(inserted := false);
      ActiveOther(evs, id, next, queues, later);
      TimersOther(evs, id, next, heap, commons);
      CountChange(evs, id, next);
      eventCount := eventCount - One(!next.internal);
      evs := evs[id := next];
    }

    /** Changes what activated a callback. */
    method SetReason(id: nat, res: set<Reason>)
      requires Core() && id in evs
      modifies this`evs
      ensures Core() && evs == old(evs)[id := old(evs)[id].(res := res)]
    {
      hide ActiveOk, TimersOk, Memberships;
      var next := evs[id].(res := res);
      ActiveOther(evs, id, next, queues, later);
      TimersOther(evs, id, next, heap, commons);
      CountChange(evs, id, next);
      evs := evs[id := next];
    }

    method RemoveTimeout(id: nat)
      requires Core() && id in evs && evs[id].timeout
      modifies this`evs, this`heap, this`commons, this`eventCount
      ensures Core() && evs == old(evs)[id := old(evs)[id].(timeout := false)]
      ensures HeadsKept(old(evs), old(commons), commons)
      ensures commons == RemovedFrom(old(commons), old(evs)[id], id)
      ensures match old(evs)[id].common
              case None => heap == old(heap) - {id} && commons == old(commons)
              case Some(i) =>
                && heap == old(heap) && i < |old(commons)|
                && commons == old(commons)[i := old(commons)[i].(events := Without(old(commons)[i].events, id))]
    {
      hide ActiveOk, TimersOk, Memberships, Without;
      var ev := evs[id];
      var next := ev.(timeout := false);
      ActiveOther(evs, id, next, queues, later);
      CountChange(evs, id, next);
      eventCount := eventCount - One(!ev.internal);
      if ev.common.Some? {
        var i := ev.common.value;
        CommonTaken(evs, id, heap, commons);
        HeadTaken(evs, heap, commons, i, id);
        commons := commons[i := commons[i].(events := Without(commons[i].events, id))];
      } else {
        InHeap(evs, heap, commons, id);
        HeapTaken(evs, id, heap, commons);
        heap := heap - {id};
      }
      evs := evs[id := next];
    }

    /** Puts `id` in the queue `i` at the right place `k`, looked for from the end. */
    method InsertInOrder(i: nat, id: nat, deadline: nat) returns (k: nat)
      requires i < |commons|
      modifies this`commons
      ensures PutInOrder(evs, old(commons)[i].events, id, deadline, k) && k <= |old(commons)[i].events|
      ensures var q := old(commons)[i].events;
              commons == old(commons)[i := old(commons)[i].(events := q[..k] + [id] + q[k..])]
    {
      var q := commons[i].events;
      k := |q|;
      while k > 0 && deadline < At(evs, q[k - 1]).deadline
        modifies {}
        invariant k <= |q| && forall j: nat :: k <= j < |q| ==> deadline < At(evs, q[j]).deadline
      {
        k := k - 1;
      }
      commons := commons[i := commons[i].(events := q[..k] + [id] + q[k..])];
    }

    /** Lets `id` time out at `deadline`, in the heap or in the queue of its common timeout. */
    method InsertTimeout(id: nat, deadline: nat, common: Option<nat>)
      requires Core() && id in evs && !evs[id].timeout && (common.Some? ==> common.value < |commons|)
      modifies this`evs, this`heap, this`commons, this`eventCount
      ensures Core()
      ensures evs == old(evs)[id := old(evs)[id].(timeout := true, deadline := deadline, common := common)]
      ensures HeadsPut(old(commons), commons, id, common)
      ensures match common
              case None => heap == old(heap) + {id} && commons == old(commons)
              case Some(i) =>
                var q := old(commons)[i].events;
                && heap == old(heap)
                && exists k: nat :: PutInOrder(old(evs), q, id, deadline, k) && k <= |q|
                                    && commons == old(commons)[i := old(commons)[i].(events := q[..k] + [id] + q[k..])]
    {
      hide ActiveOk, Memberships, Sorted, Distinct, PutInOrder;
      var ev := evs[id];
      var next := ev.(timeout := true, deadline := deadline, common := common);
      ActiveOther(evs, id, next, queues, later);
      CountChange(evs, id, next);
      eventCount := eventCount + One(!ev.internal);
      if common.Some? {
        var i := common.value;
        ghost var q := commons[i].events;
        ghost var before := commons;
        var k := InsertInOrder(i, id, deadline);
        CommonPut(evs, id, next, heap, before, i, k);
        PutHead(q, id, k);
      } else {
        HeapPut(evs, id, next, heap, commons);
        heap := heap + {id};
      }
      evs := evs[id := next];
    }

    /** The part of adding an event that is about its timeout. */
    method AddTimer(id: nat, when: When, absolute: bool, now: nat)
      requires Core() && id in evs && (when.common.Some? ==> when.common.value < |commons|)
      modifies this`evs, this`queues, this`heap, this`commons, this`eventCount, this`eventCountActive
      ensures Core() && |queues| == |old(queues)|
      ensures evs == old(evs)[id := Timed(old(evs)[id], when, absolute, now)]
      ensures HeadsMoved(old(evs), old(commons), commons, id, when.common)
      ensures old(evs)[id].common.None? && when.common.None? ==> commons == old(commons)
      ensures var ev := old(evs)[id];
              queues == QueuesWithout(old(queues), ev.active && TIMEOUT in ev.res, ev.pri, id)
    {
      hide Core, HeadsKept, HeadsPut, HeadsMoved, RemovedFrom, Timed, QueuesWithout;
      ghost var was, before, ev := evs, commons, evs[id];
      RemovedNone(commons, ev, id);
      Withdraw(id);
      ghost var mid := commons;
      ghost var free := evs;
      var deadline := if absolute then when.usec else now + when.usec;
      Withdrawn(was, free, id);
      InsertTimeout(id, deadline, when.common);
      TimedAgain(was, free, evs, id, when, absolute, now);
      HeadsCombine(was, before, mid, commons, id, when.common);
    }

    /** Takes back a timeout, and what it has led to but is not done yet. */
    method Withdraw(id: nat)
      requires Core() && id in evs
      modifies this`evs, this`queues, this`heap, this`commons, this`eventCount, this`eventCountActive
      ensures Core() && |queues| == |old(queues)| && |commons| == |old(commons)|
      ensures var ev := old(evs)[id];
              && evs == old(evs)[id := ev.(timeout := false, active := ev.active && TIMEOUT !in ev.res)]
              && queues == QueuesWithout(old(queues), ev.active && TIMEOUT in ev.res, ev.pri, id)
      ensures HeadsKept(old(evs), old(commons), commons)
      ensures commons == RemovedFrom(old(commons), old(evs)[id], id)
    {
      hide Core, HeadsKept, RemovedFrom;
      ghost var was, ev := evs, evs[id];
      DropTimeout(id);
      ChangedTwice(was, id, ev.(timeout := false), ev.(timeout := false, active := false));
      if evs[id].active && TIMEOUT in evs[id].res {
        RemoveActive(id);
      }
    }

    /** Sets the timer of a common timeout for the first event in its queue. */
    method Schedule(i: nat)
      requires Core() && ShapesOk(evs, commons) && i < |commons| && |commons[i].events| > 0
      requires forall j :: 0 <= j < |commons| && j != i ==> Wakes(evs, commons[j])
      modifies this`evs, this`queues, this`heap, this`commons, this`eventCount, this`eventCountActive
      ensures Valid() && commons == old(commons) && |queues| == |old(queues)|
      ensures var p := commons[i].proxy;
              && p in old(evs)
              && var was := old(evs)[p];
                 && evs == old(evs)[p := Timed(was, When(At(old(evs), commons[i].events[0]).deadline, None), true, 0)]
                 && queues == QueuesWithout(old(queues), was.active && TIMEOUT in was.res, was.pri, p)
      ensures forall id :: id in heap ==> id == commons[i].proxy || id in old(heap)
    {
      hide ActiveOk, TimersOk, CountsOk, Wakes, HeadKept, NewHead, QueuesWithout;
      var when := When(At(evs, commons[i].events[0]).deadline, None);
      ghost var was, h := evs, heap;
      assert ProxyShape(evs, commons[i]);
      AddTimer(commons[i].proxy, when, true, 0);
      ProxyScheduled(was, evs, heap, commons, i);
      HeapMore(was, h, evs, heap, commons, commons[i].proxy);
    }

    /**
     * Adds an event: what it watches, unless it is on some list already, and its timeout. `mapRes` is
     * what the map of file descriptors says to it. If that is -1 nothing at all is changed.
     */
    method EventAdd(id: nat, tv: Option<When>, absolute: bool, mapRes: int, now: nat) returns (res: int)
      requires Valid() && id in evs && evs[id].isEvent && !IsProxy(commons, id) && -1 <= mapRes <= 1
      requires tv.Some? && tv.value.common.Some? ==> tv.value.common.value < |commons|
      modifies this`evs, this`queues, this`heap, this`commons, this`eventCount, this`eventCountActive
      ensures Valid() && |queues| == |old(queues)|
      ensures evs.Keys == old(evs).Keys && |commons| == |old(commons)|
      ensures var was := old(evs)[id];
              var insert := was.watched && !was.inserted && !was.active && !was.later;
              && res == (if mapRes == -1 && insert then -1 else 0)
              && (res == 0 && tv.None? ==> evs[id] == was.(inserted := was.inserted || insert))
              && (res == 0 && tv.Some? ==>
                    evs[id] == was.(inserted := was.inserted || insert, timeout := true,
                                    deadline := if absolute then tv.value.usec else now + tv.value.usec,
                                    common := tv.value.common, active := was.active && TIMEOUT !in was.res))
      ensures res == -1 ==> unchanged(this)
      ensures res == 0 && tv.Some? && tv.value.common.Some? ==> |commons[tv.value.common.value].events| > 0
      ensures if res == 0 && tv.Some? && tv.value.common.Some? && commons[tv.value.common.value].events[0] == id
              then SetFor(old(evs), evs, id, commons[tv.value.common.value].proxy)
              else
                && (forall x :: x in evs && x != id ==> evs[x] == old(evs)[x])
                && var was := old(evs)[id];
                   queues == QueuesWithout(old(queues), res == 0 && tv.Some? && was.active && TIMEOUT in was.res,
                                           was.pri, id)
    {
      hide ActiveOk, TimersOk, CountsOk, Wakes, HeadKept, NewHead, ShapesOk;
      res := 0;
      if evs[id].watched && !evs[id].inserted && !evs[id].active && !evs[id].later {
        res := mapRes;
        if res == -1 {
          return;
        }
        ProxiesOther(evs, id, evs[id].(inserted := true), commons);
        InsertInserted(id);
        res := 0;
      }
      if tv.Some? {
        AddEventTimer(id, tv.value, absolute, now);
      }
    }

    method AddEventTimer(id: nat, when: When, absolute: bool, now: nat)
      requires Valid() && id in evs && !IsProxy(commons, id)
      requires when.common.Some? ==> when.common.value < |commons|
      modifies this`evs, this`queues, this`heap, this`commons, this`eventCount, this`eventCountActive
      ensures Valid() && |queues| == |old(queues)| && |commons| == |old(commons)|
      ensures evs.Keys == old(evs).Keys && evs[id] == Timed(old(evs)[id], when, absolute, now)
      ensures when.common.Some? ==> |commons[when.common.value].events| > 0
      ensures if when.common.Some? && commons[when.common.value].events[0] == id
              then SetFor(old(evs), evs, id, commons[when.common.value].proxy)
              else
                && (forall x :: x in evs && x != id ==> evs[x] == old(evs)[x])
                && var was := old(evs)[id];
                   queues == QueuesWithout(old(queues), was.active && TIMEOUT in was.res, was.pri, id)
    {
      hide ActiveOk, TimersOk, CountsOk, Wakes, HeadKept, NewHead, ShapesOk;
      ghost var was, before := evs, commons;
      AddTimer(id, when, absolute, now);
      ProxiesAfter(was, evs, id, heap, before, commons);
      if when.common.Some? {
        var i := when.common.value;
        IsQueued(id, i);
        if |commons[i].events| > 0 && commons[i].events[0] == id {
          ProxyNot(before, commons, i, id);
          Schedule(i);
        }
      }
    }

    lemma IsQueued(id: nat, i: nat)
      requires Core() && i < |commons| && id in evs && evs[id].timeout && evs[id].common == Some(i)
      ensures id in commons[i].events
    {
      assert At(evs, id) == evs[id];
    }

    lemma NeverBoth(id: nat)
      requires Core() && id in evs
      ensures !(evs[id].active && evs[id].later)
    {
    }

    /** Takes a callback off all lists. */
    method TakeOff(id: nat)
      requires Core() && id in evs
      modifies this`evs, this`queues, this`later, this`heap, this`commons, this`eventCount, this`eventCountActive
      ensures Core() && |queues| == |old(queues)| && |commons| == |old(commons)|
      ensures evs == old(evs)[id := Idle(old(evs)[id])]
      ensures HeadsKept(old(evs), old(commons), commons)
      ensures commons == RemovedFrom(old(commons), old(evs)[id], id)
      ensures queues == QueuesWithout(old(queues), old(evs)[id].active, old(evs)[id].pri, id)
      ensures Total(queues) + One(old(evs)[id].active) == Total(old(queues))
      ensures later == if old(evs)[id].later then Without(old(later), id) else old(later)
    {
      hide Core, HeadsKept, QueuesWithout, Total, RemovedFrom, Idle;
      ghost var was := evs;
      DropTimeout(id);
      ghost var untimed := evs;
      TakeOffQueues(id);
      ghost var unqueued := evs;
      DropInserted(id);
      IdleAgain(was, untimed, unqueued, evs, id);
    }

    method DropTimeout(id: nat)
      requires Core() && id in evs
      modifies this`evs, this`heap, this`commons, this`eventCount
      ensures Core() && evs == old(evs)[id := old(evs)[id].(timeout := false)] && |commons| == |old(commons)|
      ensures HeadsKept(old(evs), old(commons), commons)
      ensures commons == RemovedFrom(old(commons), old(evs)[id], id)
    {
      hide Core, HeadsKept, RemovedFrom;
      HeadsSame(evs, commons);
      RemovedNone(commons, evs[id], id);
      Unchanged(evs, id);
      if evs[id].timeout {
        RemoveTimeout(id);
      }
    }

    method DropInserted(id: nat)
      requires Core() && id in evs
      modifies this`evs, this`eventCount
      ensures Core() && evs == old(evs)[id := old(evs)[id].(inserted := false)]
    {
      hide Core;
      Unchanged(evs, id);
      if evs[id].inserted {
        RemoveInserted(id);
      }
    }

    method TakeOffQueues(id: nat)
      requires Core() && id in evs
      modifies this`evs, this`queues, this`later, this`eventCount, this`eventCountActive
      ensures Core() && |queues| == |old(queues)|
      ensures evs == old(evs)[id := old(evs)[id].(active := false, later := false)]
      ensures queues == QueuesWithout(old(queues), old(evs)[id].active, old(evs)[id].pri, id)
      ensures Total(queues) + One(old(evs)[id].active) == Total(old(queues))
      ensures later == if old(evs)[id].later then Without(old(later), id) else old(later)
    {
      hide Core, Total, Without;
      NeverBoth(id);
      Unchanged(evs, id);
      if evs[id].active {
        RemoveActive(id);
      } else if evs[id].later {
        RemoveLater(id);
      }
    }

    /** Deletes an event. */
    method EventDel(id: nat)
      requires Valid() && id in evs && !IsProxy(commons, id)
      modifies this`evs, this`queues, this`later, this`heap, this`commons, this`eventCount, this`eventCountActive
      ensures Valid() && |queues| == |old(queues)| && |commons| == |old(commons)|
      ensures evs == old(evs)[id := old(evs)[id].(timeout := false, inserted := false, active := false, later := false)]
      ensures var was := old(evs)[id];
              if was.active then
                was.pri < |old(queues)| && queues == old(queues)[was.pri := Without(old(queues)[was.pri], id)]
              else queues == old(queues)
      ensures queues == QueuesWithout(old(queues), old(evs)[id].active, old(evs)[id].pri, id)
      ensures Total(queues) + One(old(evs)[id].active) == Total(old(queues))
      ensures later == if old(evs)[id].later then Without(old(later), id) else old(later)
      ensures forall j :: 0 <= j < |commons| ==> commons[j].proxy == old(commons)[j].proxy
    {
      hide ActiveOk, CountsOk, Wakes, HeadKept, NewHead, ShapesOk, TimersOk;
      ghost var was, before := evs, commons;
      TakeOff(id);
      ProxiesAfter(was, evs, id, heap, before, commons);
    }

    /** Makes a callback active, once, at the end of its queue; it may be waiting to become so. 1 if it is new. */
    method ActivateCallback(id: nat) returns (r: int)
      requires Core() && id in evs
      modifies this`evs, this`queues, this`later, this`eventCount, this`eventCountActive
      ensures Core() && |queues| == |old(queues)|
      ensures r == if old(evs)[id].active || old(evs)[id].later then 0 else 1
      ensures evs == old(evs)[id := old(evs)[id].(active := true, later := false)]
      ensures later == if old(evs)[id].later then Without(old(later), id) else old(later)
      ensures JoinedQueue(old(queues), queues, id, old(evs)[id].active, old(evs)[id].pri)
      ensures Total(queues) == Total(old(queues)) + One(!old(evs)[id].active)
    {
      hide Core, Without;
      NeverBoth(id);
      Unchanged(evs, id);
      ghost var was, ev := evs, evs[id];
      ChangedTwice(was, id, ev.(later := false), ev.(active := true, later := false));
      r := 1;
      if evs[id].later {
        RemoveLater(id);
        r := 0;
      } else if evs[id].active {
        return 0;
      }
      InsertActive(id);
    }

    /** Makes an event active, for one more reason if it was already. */
    method Activate(id: nat, res: set<Reason>)
      requires Core() && id in evs
      modifies this`evs, this`queues, this`later, this`eventCount, this`eventCountActive
      ensures Core() && |queues| == |old(queues)|
      ensures evs == old(evs)[id := Activated(old(evs)[id], res)]
      ensures later == if old(evs)[id].later then Without(old(later), id) else old(later)
      ensures JoinedQueue(old(queues), queues, id, old(evs)[id].active, old(evs)[id].pri)
    {
      hide Core, Without, JoinedQueue;
      ghost var was, ev := evs, evs[id];
      ChangedTwice(was, id, ev.(res := Activated(ev, res).res), Activated(ev, res));
      SetReason(id, if evs[id].active || evs[id].later then evs[id].res + res else res);
      var r := ActivateCallback(id);
    }

    /** Makes an event active, for one more reason if it was already; one that comes before what runs now
        stops the pass. */
    method EventActive(id: nat, res: set<Reason>)
      requires Valid() && id in evs && !IsProxy(commons, id)
      modifies this`evs, this`queues, this`later, this`eventCount, this`eventCountActive, this`eventContinue
      ensures eventContinue <==>
                old(eventContinue) || (!old(evs)[id].active && old(evs)[id].pri < runningPriority)
      ensures Valid() && |queues| == |old(queues)|
      ensures var on := old(evs)[id].active || old(evs)[id].later;
              evs == old(evs)[id := old(evs)[id].(active := true, later := false,
                                                  res := if on then old(evs)[id].res + res else res)]
      ensures later == if old(evs)[id].later then Without(old(later), id) else old(later)
      ensures JoinedQueue(old(queues), queues, id, old(evs)[id].active, old(evs)[id].pri)
    {
      hide ActiveOk, TimersOk, CountsOk, Wakes, ShapesOk, Without, JoinedQueue;
      ProxiesOther(evs, id, Activated(evs[id], res), commons);
      if !evs[id].active && evs[id].pri < runningPriority {
        eventContinue := true;
      }
      Activate(id, res);
    }

    /** Puts a callback off until the next turn of the loop. */
    method ActivateLater(id: nat) returns (r: int)
      requires Valid() && id in evs && !IsProxy(commons, id)
      modifies this`evs, this`later, this`eventCount, this`eventCountActive
      ensures Valid()
      ensures r == if old(evs)[id].active || old(evs)[id].later then 0 else 1
      ensures if r == 0 then evs == old(evs) && later == old(later)
              else evs == old(evs)[id := old(evs)[id].(later := true)] && later == old(later) + [id]
    {
      hide ActiveOk, TimersOk, CountsOk, Wakes, ShapesOk;
      if evs[id].active || evs[id].later {
        return 0;
      }
      ProxiesOther(evs, id, evs[id].(later := true), commons);
      InsertLater(id);
      return 1;
    }

    /** An event times out: it is deleted, and made active. */
    method Fire(id: nat)
      requires Core() && ShapesOk(evs, commons) && id in evs
      modifies this`evs, this`queues, this`later, this`heap, this`commons, this`eventCount, this`eventCountActive
      ensures Core() && ShapesOk(evs, commons) && |queues| == |old(queues)| && |commons| == |old(commons)|
      ensures evs == old(evs)[id := Fired(old(evs)[id])]
      ensures HeadsKept(old(evs), old(commons), commons)
      ensures forall j :: 0 <= j < |commons| && Wakes(old(evs), old(commons)[j]) ==> Wakes(evs, commons[j])
      ensures commons == RemovedFrom(old(commons), old(evs)[id], id)
      ensures Requeued(old(queues), queues, old(evs)[id].active, old(evs)[id].pri, id)
    {
      hide ActiveOk, TimersOk, CountsOk, Wakes, ShapesOk, HeadKept;
      ghost var was, before := evs, commons;
      TakeOff(id);
      Activate(id, {TIMEOUT});
      ProxiesFired(was, evs, id, before, commons, 0);
      forall j | 0 <= j < |commons| && Wakes(was, before[j])
        ensures Wakes(evs, commons[j])
      {
        ProxiesFired(was, evs, id, before, commons, j);
      }
    }

    /** What is due first in the heap. */
    method HeapTop() returns (top: Option<nat>)
      ensures top.None? <==> heap == {}
      ensures top.Some? ==> Soonest(evs, heap, top.value)
    {
      if heap == {} {
        return None;
      }
      SoonestExists(evs, heap);
      var t :| t in heap && Soonest(evs, heap, t);
      return Some(t);
    }

    /** No event waits for a time that is earlier than any in the heap, unless some callback is active. */
    lemma HeapIsEnough(id: nat)
      requires Valid() && eventCountActive == 0 && id in evs && evs[id].timeout
      ensures exists top :: top in heap && At(evs, top).deadline <= evs[id].deadline
    {
      if evs[id].common.None? {
        InHeap(evs, heap, commons, id);
        assert At(evs, id).deadline <= evs[id].deadline;
      } else {
        ProxyInHeap(id, evs[id].common.value);
      }
    }

    lemma ProxyInHeap(id: nat, i: nat)
      requires Valid() && eventCountActive == 0 && id in evs && evs[id].timeout && evs[id].common == Some(i)
      ensures i < |commons| && commons[i].proxy in heap && At(evs, commons[i].proxy).deadline <= evs[id].deadline
    {
      assert At(evs, id) == evs[id];
      var q, p := commons[i].events, commons[i].proxy;
      var k :| 0 <= k < |q| && q[k] == id;
      assert k > 0 ==> At(evs, q[0]).deadline <= At(evs, q[k]).deadline;
      assert Wakes(evs, commons[i]) && ProxyShape(evs, commons[i]);
      NoneActive(p);
      InHeap(evs, heap, commons, p);
    }

    lemma NoneActive(id: nat)
      requires Core() && eventCountActive == 0 && id in evs
      ensures !evs[id].active && !evs[id].later
    {
      var p := evs[id].pri;
      assert At(evs, id) == evs[id];
      TotalZero(queues, p);
      assert id in queues[p] <==> evs[id].active;
    }

    /** How long to sleep: for ever if there is nothing in the heap, and else until the first is due. */
    method TimeoutNext(now: nat) returns (wait: Option<nat>)
      requires Valid()
      ensures wait.None? <==> heap == {}
      ensures wait.Some? ==> exists id ::
        && id in heap && (forall x :: x in heap ==> At(evs, id).deadline <= At(evs, x).deadline)
        && wait.value == if At(evs, id).deadline <= now then 0 else At(evs, id).deadline - now
      ensures eventCountActive == 0 ==>
        if wait.None? then forall id :: id in evs ==> !evs[id].timeout
        else forall id :: id in evs && evs[id].timeout ==> now + wait.value <= if evs[id].deadline < now
            then now else evs[id].deadline
    {
      hide Core, ProxiesOk, Soonest;
      var top := HeapTop();
      if top.None? {
        if eventCountActive == 0 {
          forall id | id in evs
            ensures !evs[id].timeout
          {
            if evs[id].timeout {
              HeapIsEnough(id);
            }
          }
        }
        return None;
      }
      SoonestIs(evs, heap, top.value);
      var deadline := At(evs, top.value).deadline;
      wait := Some(if deadline <= now then 0 else deadline - now);
      if eventCountActive == 0 {
        forall id | id in evs && evs[id].timeout
          ensures now + wait.value <= if evs[id].deadline < now then now else evs[id].deadline
        {
          HeapIsEnough(id);
        }
      }
    }

    method FireTop(id: nat)
      requires Valid() && id in heap
      modifies this`evs, this`queues, this`later, this`heap, this`commons, this`eventCount, this`eventCountActive
      ensures Valid() && |queues| == |old(queues)| && commons == old(commons)
      ensures id in old(evs) && evs == old(evs)[id := Fired(old(evs)[id])]
      ensures heap == old(heap) - {id} && old(evs)[id].timeout && old(evs)[id].common.None?
      ensures Requeued(old(queues), queues, old(evs)[id].active, old(evs)[id].pri, id)
    {
      hide ActiveOk, CountsOk, Wakes, ShapesOk, HeadKept;
      ghost var was, h, c := evs, heap, commons;
      assert At(evs, id).timeout;
      Fire(id);
      OneChanged(was, evs, id, Fired(was[id]));
      assert forall x :: x in heap <==> x in h && x != id;
    }

    /** Activates what is due in the heap, and nothing else: it joins the ends of the queues in the order of
        its times. */
    method TimeoutProcess(now: nat)
      requires Valid()
      modifies this`evs, this`queues, this`later, this`heap, this`commons, this`eventCount, this`eventCountActive
      ensures Valid() && |queues| == |old(queues)| && |commons| == |old(commons)|
      ensures forall id :: id in heap ==> At(evs, id).deadline > now
      ensures evs.Keys == old(evs).Keys
      ensures forall id :: id in evs && id !in old(heap) ==> evs[id] == old(evs)[id]
      ensures forall id :: id in old(heap) ==>
        && id in evs
        && evs[id] == (if old(evs)[id].deadline > now then old(evs)[id] else
                         old(evs)[id].(timeout := false, inserted := false, active := true, later := false,
                                       res := {TIMEOUT}))
        && (evs[id].active ==> evs[id].pri < |queues| && id in queues[evs[id].pri])
      ensures forall id :: id in evs ==> evs[id] == if Due(old(evs)[id], None, now) then Fired(old(evs)[id])
          else old(evs)[id]
      ensures forall q :: q in queues ==> DueLast(old(evs), q, None, now)
      ensures commons == old(commons)
    {
      hide Valid, FiredSoFar, Lined, Ahead, Requeued;
      FiredNone(evs, None, now);
      NoneGone(evs, queues, None);
      HeapIsTimers();
      var top := HeapTop();
      while top.Some? && At(evs, top.value).deadline <= now
        invariant Valid() && |queues| == |old(queues)| && commons == old(commons)
        invariant top.None? <==> heap == {}
        invariant top.Some? ==> Soonest(evs, heap, top.value)
        invariant FiredSoFar(old(evs), evs, None, now)
        invariant Lined(old(evs), evs, queues, None) && Ahead(old(evs), evs, None)
        decreases |heap|
      {
        ghost var before, were, off := evs, queues, later;
        SoonestIs(evs, heap, top.value);
        QueuesOk();
        HeapIsTimers();
        FireTop(top.value);
        FiredOne(old(evs), before, evs, None, now, top.value);
        FiredInTurn(old(evs), before, evs, were, queues, off, None, now, top.value);
        top := HeapTop();
      }
      if top.Some? {
        SoonestIs(evs, heap, top.value);
      }
      NoneDue(now);
      FiredAll(old(evs), evs, None, now);
      LinedUp(old(evs), evs, queues, None, now);
      ActiveQueued();
    }

    lemma QueuesOk()
      requires Valid()
      ensures ActiveOk(evs, queues, later)
    {
    }

    lemma HeapIsTimers()
      requires Valid()
      ensures forall x :: x in heap <==> At(evs, x).timeout && At(evs, x).common.None?
      ensures forall x :: x in heap <==> x in evs && evs[x].timeout && evs[x].common.None?
    {
      forall x
        ensures x in heap <==> x in evs && evs[x].timeout && evs[x].common.None?
      {
        assert x in heap <==> At(evs, x).timeout && At(evs, x).common.None?;
      }
    }

    lemma ActiveQueued()
      requires Valid()
      ensures forall id :: id in evs && evs[id].active ==> evs[id].pri < |queues| && id in queues[evs[id].pri]
    {
      forall id | id in evs && evs[id].active
        ensures evs[id].pri < |queues| && id in queues[evs[id].pri]
      {
        assert At(evs, id) == evs[id];
      }
    }

    lemma NoneDue(now: nat)
      requires Valid() && forall id :: id in heap ==> At(evs, id).deadline > now
      ensures forall id :: id in evs ==> !Due(evs[id], None, now)
    {
      forall id | id in evs
        ensures !Due(evs[id], None, now)
      {
        if Due(evs[id], None, now) {
          InHeap(evs, heap, commons, id);
        }
      }
    }

    /** The first event of a common timeout is due. */
    method FireHead(i: nat, now: nat)
      requires Core() && ShapesOk(evs, commons) && i < |commons| && |commons[i].events| > 0
      requires At(evs, commons[i].events[0]).deadline <= now
      modifies this`evs, this`queues, this`later, this`heap, this`commons, this`eventCount, this`eventCountActive
      ensures Core() && ShapesOk(evs, commons) && |queues| == |old(queues)|
      ensures var id := old(commons)[i].events[0];
              id in old(evs) && Due(old(evs)[id], Some(i), now) && evs == old(evs)[id := Fired(old(evs)[id])]
      ensures commons == old(commons)[i := old(commons)[i].(events := old(commons)[i].events[1..])]
      ensures forall j :: 0 <= j < |commons| && Wakes(old(evs), old(commons)[j]) ==> Wakes(evs, commons[j])
      ensures heap == old(heap)
      ensures var ev := At(old(evs), old(commons)[i].events[0]);
              Requeued(old(queues), queues, ev.active, ev.pri, old(commons)[i].events[0])
    {
      hide ActiveOk, CountsOk, Wakes, ShapesOk, HeadKept;
      MembersOf(evs, heap, commons, i);
      var id := commons[i].events[0];
      ghost var was, h := evs, heap;
      Fire(id);
      OneChanged(was, evs, id, Fired(was[id]));
      assert forall x :: x in heap <==> x in h;
    }

    lemma NoneDueIn(i: nat, now: nat)
      requires Core() && i < |commons|
      requires |commons[i].events| > 0 ==> At(evs, commons[i].events[0]).deadline > now
      ensures forall id :: id in evs ==> !Due(evs[id], Some(i), now)
    {
      var q := commons[i].events;
      forall k | 0 <= k < |q|
        ensures At(evs, q[k]).deadline > now
      {
        assert k > 0 ==> At(evs, q[0]).deadline <= At(evs, q[k]).deadline;
      }
      forall id | id in evs
        ensures !Due(evs[id], Some(i), now)
      {
        assert At(evs, id) == evs[id];
        assert id in q ==> exists k :: 0 <= k < |q| && q[k] == id;
      }
    }

    /** The timer of a common timeout has gone off: what is due is activated, in order, and it is set again
        for what is left. */
    method CommonTimeoutCallback(i: nat, now: nat)
      requires Core() && ShapesOk(evs, commons) && i < |commons|
      requires forall j :: 0 <= j < |commons| && j != i ==> Wakes(evs, commons[j])
      modifies this`evs, this`queues, this`later, this`heap, this`commons, this`eventCount, this`eventCountActive
      ensures Valid() && |queues| == |old(queues)| && |commons| == |old(commons)|
      ensures forall j :: 0 <= j < |commons| ==> commons[j].proxy == old(commons)[j].proxy
      ensures forall j :: 0 <= j < |commons| && j != i ==> commons[j] == old(commons)[j]
      ensures evs.Keys == old(evs).Keys
      ensures forall id :: id in old(commons)[i].events ==>
        && id in evs
        && evs[id] == (if old(evs)[id].deadline > now then old(evs)[id] else
                         old(evs)[id].(timeout := false, inserted := false, active := true, later := false,
                                       res := {TIMEOUT}))
        && (evs[id].active ==> evs[id].pri < |queues| && id in queues[evs[id].pri])
      ensures forall id :: id in evs && id != commons[i].proxy && id !in old(commons)[i].events ==>
        evs[id] == old(evs)[id]
      ensures forall id :: id in evs && id != commons[i].proxy ==>
        evs[id] == if Due(old(evs)[id], Some(i), now) then Fired(old(evs)[id]) else old(evs)[id]
      ensures ProxyReset(old(evs), evs, commons[i])
      ensures forall q :: q in queues ==> DueLast(old(evs), q, Some(i), now)
      ensures (forall id :: id in old(heap) ==> At(old(evs), id).deadline > now) ==>
        forall id :: id in heap ==> At(evs, id).deadline > now
    {
      hide Core, ShapesOk, Wakes, DueLast, FewerQueued;
      EventsOf(i);
      FireAllDue(i, now);
      EventsOf(i);
      AllDistinct();
      ghost var were := queues;
      assert |commons[i].events| > 0 ==> commons[i].events[0] in commons[i].events;
      ResetProxy(i);
      DueLastWithout(old(evs), were, queues, commons[i].proxy, Some(i), now);
      ActiveQueued();
    }

    /** Activates what is due in the queue of a common timeout. */
    method FireAllDue(i: nat, now: nat)
      requires Core() && ShapesOk(evs, commons) && i < |commons|
      requires forall j :: 0 <= j < |commons| && j != i ==> Wakes(evs, commons[j])
      modifies this`evs, this`queues, this`later, this`heap, this`commons, this`eventCount, this`eventCountActive
      ensures Core() && ShapesOk(evs, commons) && |queues| == |old(queues)| && |commons| == |old(commons)|
      ensures forall j :: 0 <= j < |commons| && j != i ==> commons[j] == old(commons)[j] && Wakes(evs, commons[j])
      ensures commons[i].proxy == old(commons)[i].proxy && heap == old(heap)
      ensures |commons[i].events| > 0 ==> At(evs, commons[i].events[0]).deadline > now
      ensures evs.Keys == old(evs).Keys && forall id :: At(evs, id).deadline == At(old(evs), id).deadline
      ensures forall id :: id in evs ==>
        evs[id] == if Due(old(evs)[id], Some(i), now) then Fired(old(evs)[id]) else old(evs)[id]
      ensures forall q :: q in queues ==> DueLast(old(evs), q, Some(i), now)
    {
      hide Core, FiredSoFar, ShapesOk, Wakes, Lined, Ahead, Requeued, DueLast;
      FiredNone(evs, Some(i), now);
      NoneGone(evs, queues, Some(i));
      while |commons[i].events| > 0 && At(evs, commons[i].events[0]).deadline <= now
        invariant Core() && ShapesOk(evs, commons) && |queues| == |old(queues)| && |commons| == |old(commons)|
        invariant forall j :: 0 <= j < |commons| && j != i ==> commons[j] == old(commons)[j] && Wakes(evs, commons[j])
        invariant commons[i].proxy == old(commons)[i].proxy && heap == old(heap)
        invariant FiredSoFar(old(evs), evs, Some(i), now)
        invariant Lined(old(evs), evs, queues, Some(i)) && Ahead(old(evs), evs, Some(i))
        decreases |commons[i].events|
      {
        ghost var before, were, off, id := evs, queues, later, commons[i].events[0];
        HeadIsSoonest(i);
        FireHead(i, now);
        FiredOne(old(evs), before, evs, Some(i), now, id);
        FiredInTurn(old(evs), before, evs, were, queues, off, Some(i), now, id);
      }
      NoneDueIn(i, now);
      FiredAll(old(evs), evs, Some(i), now);
      LinedUp(old(evs), evs, queues, Some(i), now);
    }

    /** Sets the timer of a common timeout for the first event that is left, if any. */
    method ResetProxy(i: nat)
      requires Core() && ShapesOk(evs, commons) && i < |commons|
      requires forall j :: 0 <= j < |commons| && j != i ==> Wakes(evs, commons[j])
      modifies this`evs, this`queues, this`heap, this`commons, this`eventCount, this`eventCountActive
      ensures Valid() && commons == old(commons) && |queues| == |old(queues)|
      ensures ProxyReset(old(evs), evs, commons[i]) && evs == old(evs)[commons[i].proxy := evs[commons[i].proxy]]
      ensures forall id :: id in heap ==> id in old(heap) || (id == commons[i].proxy && |commons[i].events| > 0)
      ensures FewerQueued(old(queues), queues, commons[i].proxy)
    {
      hide ActiveOk, CountsOk, Wakes;
      assert ProxyShape(evs, commons[i]);
      Unchanged(evs, commons[i].proxy);
      SameQueued(queues, commons[i].proxy);
      if |commons[i].events| > 0 {
        MembersOf(evs, heap, commons, i);
        ghost var p := evs[commons[i].proxy];
        LessQueued(queues, p.active && TIMEOUT in p.res, p.pri, commons[i].proxy);
        Schedule(i);
      } else {
        EmptyWakes(evs, commons, i);
      }
    }

    lemma AllDistinct()
      requires Core()
      ensures forall q :: q in queues ==> Distinct(q)
    {
    }

    lemma EventsOf(i: nat)
      requires Core() && ShapesOk(evs, commons) && i < |commons|
      ensures forall id :: id in commons[i].events <==> id in evs && evs[id].timeout && evs[id].common == Some(i)
      ensures commons[i].proxy in evs && evs[commons[i].proxy].common.None?
    {
      assert ProxyShape(evs, commons[i]);
      forall id
        ensures id in commons[i].events <==> id in evs && evs[id].timeout && evs[id].common == Some(i)
      {
        assert id in commons[i].events <==> At(evs, id).timeout && At(evs, id).common == Some(i);
      }
    }

    lemma HeadIsSoonest(i: nat)
      requires Core() && i < |commons| && |commons[i].events| > 0
      ensures ActiveOk(evs, queues, later)
      ensures var h := commons[i].events[0];
              && h in evs && evs[h].timeout && evs[h].common == Some(i)
              && forall y :: At(evs, y).timeout && At(evs, y).common == Some(i) ==>
                evs[h].deadline <= At(evs, y).deadline
    {
      hide ActiveOk;
      var q := commons[i].events;
      MembersOf(evs, heap, commons, i);
      forall y | At(evs, y).timeout && At(evs, y).common == Some(i)
        ensures At(evs, q[0]).deadline <= At(evs, y).deadline
      {
        var k :| 0 <= k < |q| && q[k] == y;
      }
    }

    /** Runs the active timer of a common timeout. */
    method RunProxy(i: nat, now: nat)
      requires Valid() && i < |commons| && At(evs, commons[i].proxy).active
      modifies this`evs, this`queues, this`later, this`heap, this`commons, this`eventCount, this`eventCountActive
      ensures Valid() && |queues| == |old(queues)| && |commons| == |old(commons)|
      ensures forall j :: 0 <= j < |commons| ==> commons[j].proxy == old(commons)[j].proxy
      ensures forall j :: 0 <= j < |commons| && j != i ==> commons[j] == old(commons)[j]
      ensures evs.Keys == old(evs).Keys
      ensures forall id :: id in evs && id != commons[i].proxy ==>
        evs[id] == if Due(old(evs)[id], Some(i), now) then Fired(old(evs)[id]) else old(evs)[id]
      ensures (forall id :: id in old(heap) ==> At(old(evs), id).deadline > now) ==>
        forall id :: id in heap ==> At(evs, id).deadline > now
      ensures !At(evs, commons[i].proxy).active
    {
      hide ActiveOk, TimersOk, CountsOk, Wakes, HeadKept, Due;
      ghost var was, h := evs, heap;
      assert ProxyShape(evs, commons[i]);
      TakeOff(commons[i].proxy);
      ProxyTaken(was, evs, h, heap, commons, i);
      CommonTimeoutCallback(i, now);
    }

    /**
     * One turn: what is due in the heap, and then the common timeouts whose timers have gone off. Every
     * event whose time has come, wherever it waited, is taken off all lists and made active; no other
     * is touched, and nothing that is due waits any more.
     */
    method ProcessTimeouts(now: nat)
      requires Valid()
      modifies this`evs, this`queues, this`later, this`heap, this`commons, this`eventCount, this`eventCountActive
      ensures Valid() && |queues| == |old(queues)|
      ensures evs.Keys == old(evs).Keys && forall id :: IsProxy(commons, id) <==> IsProxy(old(commons), id)
      ensures forall id :: id in evs && !IsProxy(commons, id) ==>
        evs[id] == if old(evs)[id].timeout && old(evs)[id].deadline <= now
                   then old(evs)[id].(timeout := false, inserted := false, active := true, later := false,
                                      res := {TIMEOUT})
                   else old(evs)[id]
      ensures forall id :: id in evs && evs[id].active ==> evs[id].pri < |queues| && id in queues[evs[id].pri]
      ensures forall id :: id in evs && evs[id].timeout ==> evs[id].deadline > now
      ensures NoProxyActive()
    {
      hide Valid, Soonest, TurnedTo;
      ghost var was, before := evs, commons;
      CommonsBound();
      TimeoutProcess(now);
      TurnBegins(was, evs, before, now);
      for i := 0 to |commons|
        invariant Valid() && |queues| == |old(queues)| && |commons| == |before|
        invariant forall j :: 0 <= j < |commons| ==> commons[j].proxy == before[j].proxy
        invariant forall id :: id in heap ==> At(evs, id).deadline > now
        invariant TurnedTo(was, evs, before, i, now)
        invariant forall j :: 0 <= j < i ==> !At(evs, commons[j].proxy).active
      {
        ghost var mid := evs;
        TurnOfCommon(i, now);
        TurnGoesOn(was, mid, evs, before, i, now);
      }
      SameProxies(before, commons);
      TurnEnds(was, evs, before, now);
      AllLate(was, now);
      ActiveQueued();
    }

    /** The turn of one common timeout, whether or not its timer has gone off. */
    method TurnOfCommon(i: nat, now: nat)
      requires Valid() && i < |commons| && forall id :: id in heap ==> At(evs, id).deadline > now
      modifies this`evs, this`queues, this`later, this`heap, this`commons, this`eventCount, this`eventCountActive
      ensures Valid() && |queues| == |old(queues)| && |commons| == |old(commons)| && evs.Keys == old(evs).Keys
      ensures forall j :: 0 <= j < |commons| ==> commons[j].proxy == old(commons)[j].proxy
      ensures forall id :: id in evs && id != commons[i].proxy ==>
        evs[id] == if Due(old(evs)[id], Some(i), now) then Fired(old(evs)[id]) else old(evs)[id]
      ensures forall id :: id in heap ==> At(evs, id).deadline > now
      ensures forall j :: 0 <= j <= i && (j < i ==> !At(old(evs), commons[j].proxy).active) ==>
        !At(evs, commons[j].proxy).active
    {
      hide Valid;
      ProxiesApart();
      if At(evs, commons[i].proxy).active {
        RunProxy(i, now);
      } else {
        NothingDue(i, now);
      }
    }

    /** The timers of common timeouts are different, and wait for none themselves. */
    lemma ProxiesApart()
      requires Valid()
      ensures forall j :: 0 <= j < |commons| ==> At(evs, commons[j].proxy).common.None?
      ensures forall i, j :: 0 <= i < j < |commons| ==> commons[i].proxy != commons[j].proxy
    {
      forall j | 0 <= j < |commons|
        ensures At(evs, commons[j].proxy).common.None?
      {
        assert ProxyShape(evs, commons[j]);
      }
    }

    /** Nothing waits for what has been, if nothing in the heap does, and no other event. */
    lemma AllLate(was: Events, now: nat)
      requires Valid() && forall id :: id in heap ==> At(evs, id).deadline > now
      requires forall id :: id in evs && !IsProxy(commons, id) && evs[id].timeout ==> evs[id].deadline > now
      ensures forall id :: id in evs && evs[id].timeout ==> evs[id].deadline > now
    {
      ProxiesApart();
      forall id | id in evs && evs[id].timeout
        ensures evs[id].deadline > now
      {
        if IsProxy(commons, id) {
          InHeap(evs, heap, commons, id);
        }
      }
    }

    lemma CommonsBound()
      requires Valid()
      ensures forall id :: id in evs && evs[id].timeout && evs[id].common.Some? ==> evs[id].common.value < |commons|
    {
      forall id | id in evs && evs[id].timeout && evs[id].common.Some?
        ensures evs[id].common.value < |commons|
      {
        assert At(evs, id) == evs[id];
      }
    }

    /** If the timer of a common timeout has not gone off, none of its events is due. */
    lemma NothingDue(i: nat, now: nat)
      requires Valid() && i < |commons| && !At(evs, commons[i].proxy).active
      requires forall id :: id in heap ==> At(evs, id).deadline > now
      ensures forall id :: id in evs ==> !Due(evs[id], Some(i), now)
    {
      var p := commons[i].proxy;
      assert Wakes(evs, commons[i]) && ProxyShape(evs, commons[i]);
      if |commons[i].events| > 0 {
        InHeap(evs, heap, commons, p);
        assert At(evs, p).deadline > now;
      }
      NoneDueIn(i, now);
    }

    /** Makes active what was put off: it joins the ends of the queues in order. The deferred callbacks among
        it count as queued. */
    method MakeLaterActive()
      requires Valid()
      modifies this`evs, this`queues, this`later, this`deferredsQueued
      ensures Valid() && later == [] && |queues| == |old(queues)|
      ensures evs.Keys == old(evs).Keys
      ensures forall id :: id in evs ==> evs[id] == old(evs)[id].(later := false, active := old(evs)[id].active
          || old(evs)[id].later)
      ensures deferredsQueued == old(deferredsQueued + SelfCbs(evs, later))
      ensures forall p :: 0 <= p < |queues| ==> queues[p] == old(queues)[p] + OfPriority(old(evs), old(later), p)
    {
      hide Valid, SelfCbs, MovedSoFar, OfPriority;
      SelfCbsNone(evs);
      MovedNone(evs);
      OfPriorityNone(evs);
      while |later| > 0
        invariant Valid() && |queues| == |old(queues)| && MovedSoFar(old(evs), evs)
        invariant deferredsQueued + SelfCbs(old(evs), later) == old(deferredsQueued + SelfCbs(evs, later))
        invariant forall p :: 0 <= p < |queues| ==>
          queues[p] + OfPriority(old(evs), later, p) == old(queues)[p] + OfPriority(old(evs), old(later), p)
        decreases |later|
      {
        SelfCbsFirst(old(evs), later);
        ghost var before, id, were, was := evs, later[0], queues, later;
        MoveFirstLater();
        MovedOne(old(evs), before, evs, id);
        OfPriorityFirst(old(evs), was, were, queues);
      }
      NoneLater();
      MovedAll(old(evs), evs);
    }

    lemma NoneLater()
      requires Valid() && later == []
      ensures forall id :: id in evs ==> !evs[id].later
    {
      forall id | id in evs
        ensures !evs[id].later
      {
        assert At(evs, id) == evs[id] && id !in later;
      }
    }

    method MoveFirstLater()
      requires Valid() && |later| > 0
      modifies this`evs, this`queues, this`later, this`deferredsQueued
      ensures Valid() && later == old(later)[1..] && |queues| == |old(queues)|
      ensures var id := old(later)[0];
              && id in old(evs) && old(evs)[id].later && !old(evs)[id].active
              && evs == old(evs)[id := old(evs)[id].(later := false, active := true)]
              && deferredsQueued == old(deferredsQueued) + One(old(evs)[id].selfCb)
              && old(evs)[id].pri < |queues|
              && queues == old(queues)[old(evs)[id].pri := old(queues)[old(evs)[id].pri] + [id]]
    {
      hide ActiveOk, TimersOk, Memberships, Wakes, ShapesOk;
      LaterMoved(evs, queues, later);
      var id := later[0];
      var ev := evs[id];
      var next := ev.(later := false, active := true);
      LaterIsNoProxy(evs, commons, id);
      ProxiesOther(evs, id, next, commons);
      TimersOther(evs, id, next, heap, commons);
      CountChange(evs, id, next);
      TotalChange(queues, ev.pri, queues[ev.pri] + [id]);
      later := later[1..];
      evs := evs[id := next];
      queues := queues[ev.pri := queues[ev.pri] + [id]];
      deferredsQueued := deferredsQueued + One(ev.selfCb);
    }

    /** Callbacks are put off only once more than 32 deferred ones have been queued. */
    ghost predicate DeferOk()
      reads this`later, this`deferredsQueued
    {
      deferredsQueued <= MAX_DEFERREDS_QUEUED ==> later == []
    }

    /** How many callbacks may still be run before everything new is put off. */
    ghost function Budget(): nat
      reads this`queues, this`deferredsQueued
    {
      Total(queues) + if deferredsQueued > MAX_DEFERREDS_QUEUED then 0 else MAX_DEFERREDS_QUEUED + 1 - deferredsQueued
    }

    lemma BudgetIs()
      ensures Budget() == Total(queues) + if deferredsQueued > 32 then 0 else 33 - deferredsQueued
    {
    }

    /** No timer of a common timeout is among the active callbacks. */
    ghost predicate NoProxyActive()
      reads this`evs, this`commons
    {
      NoProxyIn(evs, commons)
    }

    /** Schedules a deferred callback, unless it is: now, at the end of its queue, or for the next turn if
        there were too many. */
    method DeferredSchedule(id: nat) returns (r: int)
      requires Valid() && DeferOk() && id in evs && !IsProxy(commons, id)
      modifies this`evs, this`queues, this`later, this`eventCount, this`eventCountActive, this`deferredsQueued
      ensures Valid() && DeferOk() && |queues| == |old(queues)| && (old(NoProxyActive()) ==> NoProxyActive())
      ensures Budget() <= old(Budget())
      ensures var was := old(evs)[id];
              var on := was.active || was.later;
              var full := old(deferredsQueued) > MAX_DEFERREDS_QUEUED;
              && r == (if on then 0 else 1)
              && evs == old(evs)[id := was.(active := was.active || (!on && !full),
                                            later := was.later || (!on && full))]
              && later == (if !on && full then old(later) + [id] else old(later))
              && JoinedQueue(old(queues), queues, id, on || full, was.pri)
              && deferredsQueued == old(deferredsQueued) + if !on && !full then 1 else 0
      ensures forall p :: 0 <= p < |queues| ==> old(queues)[p] <= queues[p]
    {
      hide Valid, Total, NoProxyIn, IsProxy;
      ghost var was := evs;
      Unchanged(evs, id);
      if deferredsQueued > MAX_DEFERREDS_QUEUED {
        r := ActivateLater(id);
      } else {
        NotLater(id);
        r := ActivateNow(id);
        if r != 0 {
          deferredsQueued := deferredsQueued + 1;
        }
      }
      StaysIdle(was, evs, id, commons);
    }

    lemma NotLater(id: nat)
      requires Valid() && later == [] && id in evs
      ensures !evs[id].later
    {
      hide TimersOk, CountsOk, Wakes, ShapesOk, ProxiesOk;
      assert At(evs, id) == evs[id] && id !in later;
    }

    /** Schedules deferred callbacks one after another. */
    method ScheduleAll(ids: seq<nat>)
      requires Valid() && DeferOk() && forall c :: c in ids ==> c in evs && !IsProxy(commons, c)
      modifies this`evs, this`queues, this`later, this`eventCount, this`eventCountActive, this`deferredsQueued
      ensures Valid() && DeferOk() && |queues| == |old(queues)| && (old(NoProxyActive()) ==> NoProxyActive())
      ensures Budget() <= old(Budget()) && SameKinds(old(evs), evs, commons, commons)
      ensures Scheduled(old(evs), evs, ids)
      ensures forall p :: 0 <= p < |queues| ==> old(queues)[p] <= queues[p]
    {
      hide Valid, DeferOk, NoProxyIn, Budget, SameKinds, Scheduled, JoinedQueue;
      KindsStay(evs, commons);
      NoneScheduled(evs);
      for i := 0 to |ids|
        invariant Valid() && DeferOk() && |queues| == |old(queues)| && (old(NoProxyActive()) ==> NoProxyActive())
        invariant Budget() <= old(Budget()) && SameKinds(old(evs), evs, commons, commons)
        invariant Scheduled(old(evs), evs, ids[..i])
        invariant forall p :: 0 <= p < |queues| ==> old(queues)[p] <= queues[p]
      {
        assert ids[i] in ids;
        ghost var mid, full := evs, deferredsQueued > MAX_DEFERREDS_QUEUED;
        KindsKeys(old(evs), evs, commons, commons);
        var r := DeferredSchedule(ids[i]);
        KindsOfOne(mid, evs, ids[i], commons);
        KindsTwice(old(evs), mid, evs, commons, commons, commons, 0);
        ScheduledOne(old(evs), mid, evs, ids, i, full);
      }
      assert ids[..|ids|] == ids;
    }

    method ActivateNow(id: nat) returns (r: int)
      requires Valid() && id in evs && !IsProxy(commons, id)
      modifies this`evs, this`queues, this`later, this`eventCount, this`eventCountActive
      ensures Valid() && |queues| == |old(queues)|
      ensures r == if old(evs)[id].active || old(evs)[id].later then 0 else 1
      ensures evs == old(evs)[id := old(evs)[id].(active := true, later := false)]
      ensures later == if old(evs)[id].later then Without(old(later), id) else old(later)
      ensures JoinedQueue(old(queues), queues, id, old(evs)[id].active, old(evs)[id].pri)
      ensures Total(queues) == Total(old(queues)) + One(!old(evs)[id].active)
    {
      hide ActiveOk, TimersOk, CountsOk, Wakes, ShapesOk, Total;
      ProxiesOther(evs, id, evs[id].(active := true, later := false), commons);
      r := ActivateCallback(id);
    }

    /** Takes the first callback of a queue, to run it: an event that does not persist is deleted. */
    method TakeFirst(p: nat) returns (id: nat)
      requires Valid() && NoProxyActive() && p < |queues| && |queues[p]| > 0
      modifies this`evs, this`queues, this`later, this`heap, this`commons, this`eventCount, this`eventCountActive
      ensures Valid() && NoProxyActive() && id == old(queues)[p][0] && id in old(evs) && later == old(later)
      ensures queues == old(queues)[p := old(queues)[p][1..]] && Total(queues) + 1 == Total(old(queues))
      ensures evs == old(evs)[id := if old(evs)[id].isEvent && !old(evs)[id].persist then Idle(old(evs)[id])
                                    else old(evs)[id].(active := false)]
      ensures SameKinds(old(evs), evs, old(commons), commons)
    {
      hide TimersOk, CountsOk, Wakes, ShapesOk, Total, IsProxy;
      id := queues[p][0];
      FirstIsActive(p);
      if evs[id].isEvent && !evs[id].persist {
        EventDel(id);
      } else {
        ProxiesOther(evs, id, evs[id].(active := false), commons);
        RemoveActive(id);
      }
      SameProxies(old(commons), commons);
    }

    lemma FirstIsActive(p: nat)
      requires Valid() && p < |queues| && |queues[p]| > 0
      ensures var id := queues[p][0];
              && id in evs && evs[id].active && !evs[id].later && evs[id].pri == p
              && QueuesWithout(queues, true, p, id) == queues[p := queues[p][1..]]
    {
      var id := queues[p][0];
      assert id in queues[p];
      assert At(evs, id).active;
    }

    /**
     * Runs the callbacks of one queue, until it is empty, `most` that are not internal have run, time is
     * up or a callback asks to stop. The `k`th to run in the pass, counted from `from`, does `acts(k)`.
     * However they schedule each other, it comes to an end: what is scheduled too often is put off.
     */
    method ProcessQueue(p: nat, acts: nat -> Act, from: nat, most: nat, timed: bool)
      returns (c: int, ran: seq<nat>)
      requires Valid() && DeferOk() && NoProxyActive() && p < |queues| && |queues[p]| > 0 && ActsOk(acts, evs, commons)
      modifies this`evs, this`queues, this`later, this`heap, this`commons, this`eventCount, this`eventCountActive
      modifies this`deferredsQueued, this`eventBreak, this`eventContinue
      ensures Valid() && DeferOk() && NoProxyActive() && |queues| == |old(queues)|
      ensures SameKinds(old(evs), evs, old(commons), commons)
      ensures |ran| > 0 && |ran| + Budget() <= old(Budget())
      ensures old(queues)[p] <= ran + queues[p]
      ensures forall q :: 0 <= q < |queues| && q != p ==> old(queues)[q] <= queues[q]
      ensures c == -1 <==> eventBreak
      ensures c >= 0 ==> c == Real(old(evs), ran)
      ensures c >= 0 ==>
                queues[p] == [] || c >= most || eventContinue || (timed && acts(from + |ran| - 1).late && c > 0)
      ensures most > 0 ==> c <= most
      ensures GoneOn(acts, old(evs), from, ran, |ran| - 1, most, timed)
      ensures |ran| > 1 ==> !old(eventBreak) && !old(eventContinue)
      ensures eventBreak <==> old(eventBreak) || acts(from + |ran| - 1).stop
      ensures eventContinue <==> old(eventContinue) || acts(from + |ran| - 1).restart
      ensures Passed(old(evs), evs, acts, from, ran)
    {
      hide Valid, DeferOk, NoProxyActive, Budget, SameKinds, Real, ActsOk, Passed, GoneOn, Ran;
      c, ran := 0, [];
      RealNone(evs);
      NonePassed(evs, acts, from);
      NoneGoneOn(acts, evs, from, most, timed);
      KindsStay(evs, commons);
      assert [] + queues[p] == queues[p];
      while |queues[p]| > 0
        invariant Valid() && DeferOk() && NoProxyActive() && |queues| == |old(queues)|
        invariant SameKinds(old(evs), evs, old(commons), commons) && ActsOk(acts, evs, commons)
        invariant old(queues)[p] <= ran + queues[p]
        invariant forall q :: 0 <= q < |queues| && q != p ==> old(queues)[q] <= queues[q]
        invariant c == Real(old(evs), ran) && |ran| + Budget() <= old(Budget())
        invariant |queues[p]| == 0 ==> |ran| > 0
        invariant if |ran| == 0 then eventBreak == old(eventBreak) && eventContinue == old(eventContinue)
                  else !eventBreak && !eventContinue && !old(eventBreak) && !old(eventContinue)
                       && !acts(from + |ran| - 1).stop && !acts(from + |ran| - 1).restart
        invariant most > 0 ==> c < most
        invariant GoneOn(acts, old(evs), from, ran, |ran|, most, timed)
        invariant Passed(old(evs), evs, acts, from, ran)
        decreases Budget()
      {
        ghost var before, mid, commonsMid := queues[p], evs, commons;
        var act := acts(from + |ran|);
        var internal := IsInternal(queues[p][0]);
        ActOk(acts, from + |ran|, evs, commons);
        var id := RunFirst(p, act);
        ActsStay(acts, mid, evs, commonsMid, commons);
        KindsTwice(old(evs), mid, evs, old(commons), commonsMid, commons, id);
        RealOne(old(evs), ran, id);
        Advance(old(queues)[p], ran, before, queues[p]);
        PassedOne(old(evs), mid, evs, acts, from, ran, id);
        GoneOnMore(acts, old(evs), from, ran, id, most, timed);
        ran := ran + [id];
        assert acts(from + |ran| - 1) == act;
        if !internal {
          c := c + 1;
        }
        if eventBreak {
          return -1, ran;
        }
        if c >= most || (c > 0 && timed && act.late) || eventContinue {
          return;
        }
        GoneOnOne(acts, old(evs), from, ran, most, timed);
      }
      GoneOnLess(acts, old(evs), from, ran, most, timed);
    }

    /**
     * Runs the callbacks of one pass, queue by queue in the order of priority, up to the first queue in
     * which one that is not internal has run: `c` of these have, or -1 when the loop is to stop. Queues
     * before `unlimited` are run without limits. `where` is the last queue looked at, and `early` is how
     * many had run before it.
     */
    method ProcessActive(acts: nat -> Act, unlimited: nat, maxCallbacks: nat, timed: bool)
      returns (c: int, ran: seq<nat>, ghost where: nat, ghost early: nat)
      requires Valid() && DeferOk() && NoProxyActive() && ActsOk(acts, evs, commons) && maxCallbacks > 0
      modifies this`evs, this`queues, this`later, this`heap, this`commons, this`eventCount, this`eventCountActive
      modifies this`deferredsQueued, this`eventBreak, this`eventContinue, this`runningPriority
      ensures Valid() && DeferOk() && NoProxyActive() && |queues| == |old(queues)| && runningPriority == -1
      ensures SameKinds(old(evs), evs, old(commons), commons)
      ensures |ran| + Budget() <= old(Budget())
      ensures |ran| <= Total(old(queues)) + if old(deferredsQueued) > 32 then 0 else 33 - old(deferredsQueued)
      ensures c >= 0 ==> c == Real(old(evs), ran)
      ensures c == -1 ==> eventBreak
      ensures c >= 0 && |ran| > 0 ==> !eventBreak
      ensures c > 0 ==>
                && where < |queues| && (where >= unlimited ==> c <= maxCallbacks)
                && (queues[where] == [] || eventContinue || c >= INT_MAX
                    || (where >= unlimited && (c >= maxCallbacks || (timed && acts(|ran| - 1).late))))
      ensures Passed(old(evs), evs, acts, 0, ran)
      ensures early <= |ran| && forall k :: 0 <= k < early ==> At(old(evs), ran[k]).internal
      ensures where < |queues| ==> old(queues)[where] <= ran[early..] + queues[where]
      ensures !eventContinue ==>
                forall q, x :: 0 <= q < where && q < |queues| && x in old(queues)[q] ==> x in ran[..early]
      ensures c == 0 ==> where == |queues|
    {
      BudgetIs();
      hide Valid, DeferOk, Budget, SameKinds, Real, ActsOk, Passed, GoneOn, NoProxyActive, Total;
      c, ran, where, early := 0, [], 0, 0;
      RealNone(evs);
      NonePassed(evs, acts, 0);
      KindsStay(evs, commons);
      var i := 0;
      while i < |queues|
        invariant i <= |queues| == |old(queues)| && Valid() && DeferOk() && NoProxyActive()
        invariant SameKinds(old(evs), evs, old(commons), commons) && ActsOk(acts, evs, commons)
        invariant |ran| + Budget() <= old(Budget()) && c == 0 == Real(old(evs), ran)
        invariant Passed(old(evs), evs, acts, 0, ran) && (|ran| > 0 ==> !eventBreak)
        invariant forall q :: i <= q < |queues| ==> old(queues)[q] <= queues[q]
        invariant !eventContinue ==> forall q, x :: 0 <= q < i && x in old(queues)[q] ==> x in ran
      {
        if |queues[i]| > 0 {
          runningPriority := i;
          ghost var was, evsMid, commonsMid := queues[i], evs, commons;
          early := |ran|;
          RealZero(old(evs), ran);
          var r;
          var most := if i < unlimited then INT_MAX else maxCallbacks;
          c, r := ProcessQueue(i, acts, |ran|, most, timed && i >= unlimited);
          ActsStay(acts, evsMid, evs, commonsMid, commons);
          RealTwice(old(evs), evsMid, ran, r, old(commons), commonsMid);
          PassedTwice(old(evs), evsMid, evs, acts, 0, ran, r);
          KindsTwice(old(evs), evsMid, evs, old(commons), commonsMid, commons, 0);
          PrefixSplit(old(queues)[i], was, r, queues[i]);
          assert (ran + r)[..early] == ran && (ran + r)[early..] == r;
          ran := ran + r;
          if c != 0 {
            break;
          }
        }
        i := i + 1;
      }
      where := i;
      if c == 0 {
        early := |ran|;
        RealZero(old(evs), ran);
        assert ran[..early] == ran;
      }
      runningPriority := -1;
    }

    function IsInternal(id: nat): bool
      reads this`evs
    {
      At(evs, id).internal
    }

    /** Runs the first callback of a queue, which does `act`. */
    method RunFirst(p: nat, act: Act) returns (id: nat)
      requires Valid() && DeferOk() && NoProxyActive() && p < |queues| && |queues[p]| > 0
      requires forall c :: c in act.schedules ==> c in evs && !IsProxy(commons, c)
      modifies this`evs, this`queues, this`later, this`heap, this`commons, this`eventCount, this`eventCountActive
      modifies this`deferredsQueued, this`eventBreak, this`eventContinue
      ensures Valid() && DeferOk() && NoProxyActive() && |queues| == |old(queues)| && id == old(queues)[p][0]
      ensures Budget() < old(Budget()) && old(queues)[p][1..] <= queues[p]
      ensures SameKinds(old(evs), evs, old(commons), commons)
      ensures forall q :: 0 <= q < |queues| && q != p ==> old(queues)[q] <= queues[q]
      ensures eventBreak == (old(eventBreak) || act.stop) && eventContinue == (old(eventContinue) || act.restart)
      ensures Ran(old(evs), evs, id, act.schedules)
    {
      hide Valid, NoProxyIn, SameKinds, Ran, Budget, DeferOk;
      id := Call(p, act.schedules);
      eventBreak, eventContinue := eventBreak || act.stop, eventContinue || act.restart;
    }

    /** Takes the first callback of a queue, and lets it schedule others. */
    method Call(p: nat, schedules: seq<nat>) returns (id: nat)
      requires Valid() && DeferOk() && NoProxyActive() && p < |queues| && |queues[p]| > 0
      requires forall c :: c in schedules ==> c in evs && !IsProxy(commons, c)
      modifies this`evs, this`queues, this`later, this`heap, this`commons, this`eventCount, this`eventCountActive
      modifies this`deferredsQueued
      ensures Valid() && DeferOk() && NoProxyActive() && |queues| == |old(queues)| && id == old(queues)[p][0]
      ensures Budget() < old(Budget()) && old(queues)[p][1..] <= queues[p]
      ensures SameKinds(old(evs), evs, old(commons), commons)
      ensures forall q :: 0 <= q < |queues| && q != p ==> old(queues)[q] <= queues[q]
      ensures Ran(old(evs), evs, id, schedules)
    {
      hide Valid, NoProxyIn, SameKinds, Scheduled, Ran, IsProxy, Total;
      FirstIsActive(p);
      id := TakeFirst(p);
      KindsKeys(old(evs), evs, old(commons), commons);
      ghost var mid := evs;
      ScheduleAll(schedules);
      KindsTwice(old(evs), mid, evs, old(commons), commons, commons, 0);
      RanIs(old(evs), mid, evs, id, schedules);
    }
  }

  /** What a callback does: it schedules deferred callbacks, and may ask the loop to stop, or to start
      over; `late` says that afterwards time is up. */
  datatype Act = Act(schedules: seq<nat>, stop: bool, restart: bool, late: bool)

  /** Callbacks stay what they are. */
  ghost predicate SameKinds(was: Events, evs: Events, before: seq<Common>, commons: seq<Common>) {
    && evs.Keys == was.Keys
    && (forall c :: c in evs ==> evs[c].internal == was[c].internal)
    && (forall c :: IsProxy(commons, c) <==> IsProxy(before, c))
  }

  lemma KindsStay(evs: Events, commons: seq<Common>)
    ensures SameKinds(evs, evs, commons, commons)
  {
  }

  /** No timer of a common timeout is active. */
  ghost predicate NoProxyIn(evs: Events, commons: seq<Common>) {
    forall id :: id in evs && evs[id].active ==> !IsProxy(commons, id)
  }

  lemma StaysIdle(was: Events, evs: Events, id: nat, commons: seq<Common>)
    requires id in was && id in evs && !IsProxy(commons, id) && evs == was[id := evs[id]]
    ensures NoProxyIn(was, commons) ==> NoProxyIn(evs, commons)
  {
  }

  lemma KindsKeys(was: Events, evs: Events, before: seq<Common>, commons: seq<Common>)
    requires SameKinds(was, evs, before, commons)
    ensures evs.Keys == was.Keys && forall c :: IsProxy(commons, c) <==> IsProxy(before, c)
  {
  }

  lemma KindsOfOne(was: Events, evs: Events, id: nat, commons: seq<Common>)
    requires id in was && id in evs
    requires evs == was[id := was[id].(active := evs[id].active, later := evs[id].later)]
    ensures SameKinds(was, evs, commons, commons)
  {
  }

  lemma KindsTwice(was: Events, mid: Events, evs: Events, before: seq<Common>, between: seq<Common>,
      commons: seq<Common>, id: nat)
    requires SameKinds(was, mid, before, between) && SameKinds(mid, evs, between, commons)
    ensures SameKinds(was, evs, before, commons)
    ensures At(mid, id).internal == At(was, id).internal
  {
  }

  /** What the callbacks of a pass schedule are callbacks, and no timers of common timeouts. */
  ghost predicate ActsOk(acts: nat -> Act, evs: Events, commons: seq<Common>) {
    forall k: nat, c :: c in acts(k).schedules ==> c in evs && !IsProxy(commons, c)
  }

  lemma ActOk(acts: nat -> Act, k: nat, evs: Events, commons: seq<Common>)
    requires ActsOk(acts, evs, commons)
    ensures forall c :: c in acts(k).schedules ==> c in evs && !IsProxy(commons, c)
  {
  }

  lemma ActsStay(acts: nat -> Act, was: Events, evs: Events, before: seq<Common>, commons: seq<Common>)
    requires ActsOk(acts, was, before) && SameKinds(was, evs, before, commons)
    ensures ActsOk(acts, evs, commons)
  {
  }

  /** How many of the callbacks are not internal. */
  ghost function Real(evs: Events, ran: seq<nat>): nat {
    if |ran| == 0 then 0 else Real(evs, ran[..|ran| - 1]) + One(!At(evs, ran[|ran| - 1]).internal)
  }

  /** A callback that may have been scheduled: then it is active or put off, as it stays if it was already. */
  ghost predicate ScheduledIf(was: Event, ev: Event, asked: bool) {
    if asked && !was.active && !was.later then
      (ev.active || ev.later) && ev == was.(active := ev.active, later := ev.later)
    else ev == was
  }

  /** What was scheduled is active or put off, once; all else is as it was. */
  ghost predicate Scheduled(was: Events, evs: Events, ids: seq<nat>) {
    evs.Keys == was.Keys && forall x :: x in evs ==> ScheduledIf(was[x], evs[x], x in ids)
  }

  lemma NoneScheduled(evs: Events)
    ensures Scheduled(evs, evs, [])
  {
  }

  lemma ScheduledOne(was: Events, mid: Events, evs: Events, ids: seq<nat>, i: nat, full: bool)
    requires i < |ids| && Scheduled(was, mid, ids[..i]) && ids[i] in mid
    requires evs == mid[ids[i] := ScheduledNow(mid[ids[i]], full)]
    ensures Scheduled(was, evs, ids[..i + 1])
  {
    hide ScheduledIf, ScheduledNow;
    var id := ids[i];
    assert ids[..i + 1] == ids[..i] + [id];
    forall x | x in evs
      ensures x in was && ScheduledIf(was[x], evs[x], x in ids[..i + 1])
    {
      assert x in mid.Keys && x in was.Keys;
      if x == id {
        NowScheduled(was[x], mid[x], x in ids[..i], full);
      }
    }
  }

  /** A callback that is scheduled, put off if `full`. */
  function ScheduledNow(ev: Event, full: bool): Event {
    var on := ev.active || ev.later;
    ev.(active := ev.active || (!on && !full), later := ev.later || (!on && full))
  }

  lemma NowScheduled(was: Event, mid: Event, asked: bool, full: bool)
    requires ScheduledIf(was, mid, asked)
    ensures ScheduledIf(was, ScheduledNow(mid, full), true)
  {
  }

  /** `id` was run: it is off the queues, and off all lists if it does not persist; then others, or itself,
      were scheduled. */
  ghost predicate Ran(was: Events, evs: Events, id: nat, ids: seq<nat>) {
    && id in was && was[id].active && !was[id].later && (forall x :: x in ids ==> x in was)
    && var ev := was[id].(active := false);
       var next := if ev.isEvent && !ev.persist then ev.(timeout := false, inserted := false) else ev;
       Scheduled(was[id := next], evs, ids)
  }

  /** Callback number `k` scheduled `x`. */
  ghost predicate Schedules(acts: nat -> Act, k: nat, x: nat) {
    x in acts(k).schedules
  }

  /** One of the callbacks from number `from` on and before number `to` scheduled `x`. */
  ghost predicate ScheduledBy(acts: nat -> Act, from: nat, to: nat, x: nat) {
    exists k: nat :: from <= k < to && Schedules(acts, k, x)
  }

  /** What did not run is as it was, but that it may have been scheduled. */
  ghost predicate OthersKept(was: Events, evs: Events, acts: nat -> Act, from: nat, ran: seq<nat>) {
    forall x :: x in was && x in evs && x !in ran ==> Kept(was[x], evs[x], ScheduledBy(acts, from, from + |ran|, x))
  }

  /** What was scheduled is active, or put off, or has run since. */
  ghost predicate NoneLost(evs: Events, acts: nat -> Act, from: nat, ran: seq<nat>) {
    forall k: nat, x :: from <= k < from + |ran| && Schedules(acts, k, x) ==>
      x in evs && (evs[x].active || evs[x].later || x in ran[k - from + 1..])
  }

  /** What has run, and was not scheduled since, is off the queues, and off all lists if it does not persist. */
  ghost predicate AllOff(evs: Events, acts: nat -> Act, from: nat, ran: seq<nat>) {
    forall k :: 0 <= k < |ran| && IsLast(ran, k) && !ScheduledBy(acts, from + k, from + |ran|, ran[k]) ==>
      ran[k] in evs && Off(evs[ran[k]])
  }

  /** What ran as number `k` did not run again. */
  ghost predicate IsLast(ran: seq<nat>, k: nat)
    requires k < |ran|
  {
    ran[k] !in ran[k + 1..]
  }

  lemma IsLastOf(ran: seq<nat>, more: seq<nat>, k: nat)
    requires k < |ran + more| && IsLast(ran + more, k)
    ensures if k < |ran| then IsLast(ran, k) && ran[k] !in more else IsLast(more, k - |ran|)
  {
    if k < |ran| {
      assert (ran + more)[k + 1..] == ran[k + 1..] + more;
    } else {
      assert (ran + more)[k + 1..] == more[k - |ran| + 1..];
    }
  }

  /** What running `ran` has come to. */
  ghost predicate Passed(was: Events, evs: Events, acts: nat -> Act, from: nat, ran: seq<nat>) {
    && evs.Keys == was.Keys
    && OthersKept(was, evs, acts, from, ran) && NoneLost(evs, acts, from, ran) && AllOff(evs, acts, from, ran)
  }

  /** A callback that did not run. */
  ghost predicate Kept(was: Event, ev: Event, scheduled: bool) {
    ev == was || (scheduled && !was.active && !was.later && (ev.active || ev.later)
                  && ev == was.(active := ev.active, later := ev.later))
  }

  /** A callback that has run. */
  ghost predicate Off(ev: Event) {
    !ev.active && !ev.later && (ev.isEvent && !ev.persist ==> !ev.timeout && !ev.inserted)
  }

  lemma NonePassed(evs: Events, acts: nat -> Act, from: nat)
    ensures Passed(evs, evs, acts, from, [])
  {
  }

  lemma PassedOne(was: Events, mid: Events, evs: Events, acts: nat -> Act, from: nat, ran: seq<nat>, id: nat)
    requires Passed(was, mid, acts, from, ran) && Ran(mid, evs, id, acts(from + |ran|).schedules)
    ensures Passed(was, evs, acts, from, ran + [id])
  {
    hide Passed;
    RanAlone(mid, evs, acts, from + |ran|, id);
    PassedTwice(was, mid, evs, acts, from, ran, [id]);
  }

  lemma RanIs(was: Events, mid: Events, evs: Events, id: nat, ids: seq<nat>)
    requires id in was && was[id].active && !was[id].later && forall x :: x in ids ==> x in was
    requires mid == was[id := if was[id].isEvent && !was[id].persist then Idle(was[id]) else was[id].(active := false)]
    requires Scheduled(mid, evs, ids)
    ensures Ran(was, evs, id, ids)
  {
  }

  lemma RanAlone(was: Events, evs: Events, acts: nat -> Act, from: nat, id: nat)
    requires Ran(was, evs, id, acts(from).schedules)
    ensures Passed(was, evs, acts, from, [id])
  {
    forall x
      ensures ScheduledBy(acts, from, from + 1, x) <==> x in acts(from).schedules
    {
      assert Schedules(acts, from, x) <==> x in acts(from).schedules;
    }
    assert forall k :: 0 <= k < 1 ==> [id][k] == id && [id][k + 1..] == [];
  }

  lemma PassedTwice(was: Events, mid: Events, evs: Events, acts: nat -> Act, from: nat, ran: seq<nat>, more: seq<nat>)
    requires Passed(was, mid, acts, from, ran) && Passed(mid, evs, acts, from + |ran|, more)
    ensures Passed(was, evs, acts, from, ran + more)
  {
    hide OthersKept, NoneLost, AllOff;
    OthersKeptTwice(was, mid, evs, acts, from, ran, more);
    NoneLostTwice(mid, evs, acts, from, ran, more);
    AllOffTwice(mid, evs, acts, from, ran, more);
  }

  lemma OthersKeptTwice(was: Events, mid: Events, evs: Events, acts: nat -> Act, from: nat, ran: seq<nat>,
      more: seq<nat>)
    requires OthersKept(was, mid, acts, from, ran) && OthersKept(mid, evs, acts, from + |ran|, more)
    requires evs.Keys == mid.Keys == was.Keys
    ensures OthersKept(was, evs, acts, from, ran + more)
  {
    hide Kept, ScheduledBy;
    var all := ran + more;
    forall x | x in was && x in evs && x !in all
      ensures Kept(was[x], evs[x], ScheduledBy(acts, from, from + |all|, x))
    {
      assert x in mid.Keys;
      KeptTwice(was[x], mid[x], evs[x], acts, from, from + |ran|, from + |all|, x);
    }
  }

  lemma NoneLostTwice(mid: Events, evs: Events, acts: nat -> Act, from: nat, ran: seq<nat>, more: seq<nat>)
    requires NoneLost(mid, acts, from, ran) && NoneLost(evs, acts, from + |ran|, more)
    requires OthersKept(mid, evs, acts, from + |ran|, more) && evs.Keys == mid.Keys
    ensures NoneLost(evs, acts, from, ran + more)
  {
    hide Kept, ScheduledBy, Schedules;
    var all, half := ran + more, from + |ran|;
    forall k: nat, x | from <= k < from + |all| && Schedules(acts, k, x)
      ensures x in evs && (evs[x].active || evs[x].later || x in all[k - from + 1..])
    {
      if k < half {
        assert all[k - from + 1..] == ran[k - from + 1..] + more;
        assert x in mid.Keys;
        if x !in more {
          KeptOn(mid[x], evs[x], ScheduledBy(acts, half, half + |more|, x));
        }
      } else {
        assert all[k - from + 1..] == more[k - half + 1..];
      }
    }
  }

  lemma AllOffTwice(mid: Events, evs: Events, acts: nat -> Act, from: nat, ran: seq<nat>, more: seq<nat>)
    requires AllOff(mid, acts, from, ran) && AllOff(evs, acts, from + |ran|, more)
    requires OthersKept(mid, evs, acts, from + |ran|, more) && evs.Keys == mid.Keys
    ensures AllOff(evs, acts, from, ran + more)
  {
    hide Kept, ScheduledBy, Off, OthersKept, IsLast;
    var all, m := ran + more, |ran|;
    var half, to := from + m, from + |all|;
    forall k | 0 <= k < |all| && IsLast(all, k) && !ScheduledBy(acts, from + k, to, all[k])
      ensures all[k] in evs && Off(evs[all[k]])
    {
      IsLastOf(ran, more, k);
      if k < m {
        assert all[k] == ran[k];
        NotScheduled(acts, from + k, half, to, ran[k]);
        OffStays(mid, evs, acts, half, more, ran[k]);
      } else {
        assert all[k] == more[k - m] && half + (k - m) == from + k && half + |more| == to;
      }
    }
  }

  lemma OffStays(mid: Events, evs: Events, acts: nat -> Act, half: nat, more: seq<nat>, x: nat)
    requires OthersKept(mid, evs, acts, half, more) && evs.Keys == mid.Keys && x in mid && x !in more
    requires Off(mid[x]) && !ScheduledBy(acts, half, half + |more|, x)
    ensures x in evs && Off(evs[x])
  {
    hide Kept, ScheduledBy, Off;
    assert x in evs.Keys;
    StaysOff(mid[x], evs[x]);
  }

  lemma KeptTwice(was: Event, mid: Event, ev: Event, acts: nat -> Act, from: nat, half: nat, to: nat, x: nat)
    requires from <= half <= to
    requires Kept(was, mid, ScheduledBy(acts, from, half, x)) && Kept(mid, ev, ScheduledBy(acts, half, to, x))
    ensures Kept(was, ev, ScheduledBy(acts, from, to, x))
  {
    hide ScheduledBy;
    NotScheduled(acts, from, half, to, x);
  }

  lemma KeptOn(was: Event, ev: Event, scheduled: bool)
    requires Kept(was, ev, scheduled)
    ensures was.active || was.later ==> ev == was
  {
  }

  lemma StaysOff(was: Event, ev: Event)
    requires Kept(was, ev, false) && Off(was)
    ensures Off(ev)
  {
  }

  lemma NotScheduled(acts: nat -> Act, from: nat, half: nat, to: nat, x: nat)
    requires from <= half <= to
    ensures ScheduledBy(acts, from, to, x) <==> ScheduledBy(acts, from, half, x) || ScheduledBy(acts, half, to, x)
  {
  }

  /** After this callback, the `c`th that is not internal, the queue is gone on with. */
  ghost predicate GoesOn(act: Act, c: nat, most: nat, timed: bool) {
    !act.stop && !act.restart && c < most && !(timed && act.late && c > 0)
  }

  ghost predicate GoesOnAt(acts: nat -> Act, evs: Events, from: nat, ran: seq<nat>, k: nat, most: nat, timed: bool)
    requires k < |ran|
  {
    GoesOn(acts(from + k), Real(evs, ran[..k + 1]), most, timed)
  }

  /** The queue was gone on with after each of the first `n` callbacks. */
  ghost predicate GoneOn(acts: nat -> Act, evs: Events, from: nat, ran: seq<nat>, n: int, most: nat, timed: bool) {
    n <= |ran| && forall k :: 0 <= k < n ==> GoesOnAt(acts, evs, from, ran, k, most, timed)
  }

  lemma NoneGoneOn(acts: nat -> Act, evs: Events, from: nat, most: nat, timed: bool)
    ensures GoneOn(acts, evs, from, [], 0, most, timed) && GoneOn(acts, evs, from, [], -1, most, timed)
  {
  }

  lemma GoneOnMore(acts: nat -> Act, evs: Events, from: nat, ran: seq<nat>, id: nat, most: nat, timed: bool)
    requires GoneOn(acts, evs, from, ran, |ran|, most, timed)
    ensures GoneOn(acts, evs, from, ran + [id], |ran|, most, timed)
  {
    forall k | 0 <= k < |ran|
      ensures GoesOnAt(acts, evs, from, ran + [id], k, most, timed)
    {
      assert (ran + [id])[..k + 1] == ran[..k + 1] && GoesOnAt(acts, evs, from, ran, k, most, timed);
    }
  }

  lemma GoneOnOne(acts: nat -> Act, evs: Events, from: nat, ran: seq<nat>, most: nat, timed: bool)
    requires |ran| > 0 && GoneOn(acts, evs, from, ran, |ran| - 1, most, timed)
    requires GoesOn(acts(from + |ran| - 1), Real(evs, ran), most, timed)
    ensures GoneOn(acts, evs, from, ran, |ran|, most, timed)
  {
    assert ran[..|ran|] == ran;
  }

  lemma GoneOnLess(acts: nat -> Act, evs: Events, from: nat, ran: seq<nat>, most: nat, timed: bool)
    requires GoneOn(acts, evs, from, ran, |ran|, most, timed)
    ensures GoneOn(acts, evs, from, ran, |ran| - 1, most, timed)
  {
  }

  lemma RealNone(evs: Events)
    ensures Real(evs, []) == 0
  {
  }

  lemma {:induction false} RealTwice(was: Events, evs: Events, ran: seq<nat>, more: seq<nat>, before: seq<Common>,
      commons: seq<Common>)
    requires SameKinds(was, evs, before, commons)
    ensures Real(was, ran + more) == Real(was, ran) + Real(evs, more)
  {
    if |more| == 0 {
      assert ran + more == ran;
    } else {
      var n := |more| - 1;
      assert (ran + more)[..|ran| + n] == ran + more[..n];
      RealTwice(was, evs, ran, more[..n], before, commons);
    }
  }

  lemma {:induction false} RealZero(evs: Events, ran: seq<nat>)
    requires Real(evs, ran) == 0
    ensures forall k :: 0 <= k < |ran| ==> At(evs, ran[k]).internal
  {
    if |ran| > 0 {
      RealZero(evs, ran[..|ran| - 1]);
    }
  }

  lemma PrefixSplit(q: seq<nat>, was: seq<nat>, ran: seq<nat>, left: seq<nat>)
    requires q <= was <= ran + left
    ensures q <= ran + left && (left == [] ==> forall x :: x in q ==> x in ran)
  {
  }

  lemma RealOne(evs: Events, ran: seq<nat>, id: nat)
    ensures Real(evs, ran + [id]) == Real(evs, ran) + One(!At(evs, id).internal)
  {
    assert (ran + [id])[..|ran|] == ran;
  }

  lemma SameProxies(before: seq<Common>, after: seq<Common>)
    requires |after| == |before| && forall j :: 0 <= j < |before| ==> after[j].proxy == before[j].proxy
    ensures forall c :: IsProxy(after, c) <==> IsProxy(before, c)
  {
    forall c
      ensures IsProxy(after, c) <==> IsProxy(before, c)
    {
      if IsProxy(before, c) {
        var i :| 0 <= i < |before| && before[i].proxy == c;
        assert after[i].proxy == c;
      }
    }
  }

  lemma Advance(first: seq<nat>, ran: seq<nat>, before: seq<nat>, after: seq<nat>)
    requires first <= ran + before && |before| > 0 && before[1..] <= after
    ensures first <= ran + [before[0]] + after
  {
    assert ran + before == ran + [before[0]] + before[1..];
  }

  /** Some of what was put off has become active. */
  ghost predicate MovedSoFar(was: Events, evs: Events) {
    && evs.Keys == was.Keys
    && forall id :: id in evs ==>
      evs[id] == was[id] || (was[id].later && evs[id] == was[id].(later := false, active := true))
  }

  lemma MovedNone(evs: Events)
    ensures MovedSoFar(evs, evs)
  {
  }

  lemma MovedOne(was: Events, before: Events, evs: Events, id: nat)
    requires MovedSoFar(was, before) && id in before && before[id].later
    requires evs == before[id := before[id].(later := false, active := true)]
    ensures MovedSoFar(was, evs) && At(was, id).selfCb == before[id].selfCb && At(was, id).pri == before[id].pri
  {
  }

  lemma MovedAll(was: Events, evs: Events)
    requires MovedSoFar(was, evs) && forall id :: id in evs ==> !evs[id].later
    ensures evs.Keys == was.Keys
    ensures forall id :: id in evs ==> evs[id] == was[id].(later := false, active := was[id].active || was[id].later)
  {
  }

  /** Those of `q` that have priority `p`, in order. */
  ghost function OfPriority(evs: Events, q: seq<nat>, p: int): seq<nat> {
    if |q| == 0 then [] else (if At(evs, q[0]).pri == p then [q[0]] else []) + OfPriority(evs, q[1..], p)
  }

  lemma OfPriorityNone(evs: Events)
    ensures forall p :: OfPriority(evs, [], p) == []
  {
  }

  lemma OfPriorityStep(evs: Events, q: seq<nat>, p: int)
    requires |q| > 0
    ensures OfPriority(evs, q, p) ==
            if At(evs, q[0]).pri == p then [q[0]] + OfPriority(evs, q[1..], p) else OfPriority(evs, q[1..], p)
  {
  }

  /** The first of `q` has joined its queue. */
  lemma OfPriorityFirst(evs: Events, q: seq<nat>, were: seq<seq<nat>>, queues: seq<seq<nat>>)
    requires |q| > 0 && JoinedQueue(were, queues, q[0], false, At(evs, q[0]).pri)
    ensures forall p :: 0 <= p < |were| ==> queues[p] + OfPriority(evs, q[1..], p) == were[p] + OfPriority(evs, q, p)
  {
    hide OfPriority;
    forall p | 0 <= p < |were|
      ensures queues[p] + OfPriority(evs, q[1..], p) == were[p] + OfPriority(evs, q, p)
    {
      OfPriorityStep(evs, q, p);
      if p == At(evs, q[0]).pri {
        assert were[p] + [q[0]] + OfPriority(evs, q[1..], p) == were[p] + ([q[0]] + OfPriority(evs, q[1..], p));
      }
    }
  }

  lemma SelfCbsNone(evs: Events)
    ensures SelfCbs(evs, []) == 0
  {
  }

  lemma SelfCbsFirst(evs: Events, q: seq<nat>)
    requires |q| > 0
    ensures SelfCbs(evs, q) == One(At(evs, q[0]).selfCb) + SelfCbs(evs, q[1..])
  {
  }

  /** `evs` is `was` after the turn of the heap and that of the common timeouts before `n`. */
  ghost predicate TurnedTo(was: Events, evs: Events, commons: seq<Common>, n: nat, now: nat) {
    && evs.Keys == was.Keys
    && forall id :: id in evs && !IsProxy(commons, id) ==>
      evs[id] == if was[id].timeout && was[id].deadline <= now && (was[id].common.None? || was[id].common.value < n)
                 then Fired(was[id]) else was[id]
  }

  /** An event of this common timeout, or of none, has reached its time. */
  ghost predicate Due(ev: Event, common: Option<nat>, now: nat) {
    ev.timeout && ev.common == common && ev.deadline <= now
  }

  /** Some of what was due has timed out. */
  ghost predicate FiredSoFar(was: Events, evs: Events, common: Option<nat>, now: nat) {
    && evs.Keys == was.Keys
    && forall id :: id in evs ==> evs[id] == was[id] || (Due(was[id], common, now) && evs[id] == Fired(was[id]))
  }

  lemma FiredNone(evs: Events, common: Option<nat>, now: nat)
    ensures FiredSoFar(evs, evs, common, now)
  {
  }

  lemma FiredOne(was: Events, before: Events, evs: Events, common: Option<nat>, now: nat, id: nat)
    requires FiredSoFar(was, before, common, now) && id in before && Due(before[id], common, now)
    requires evs == before[id := Fired(before[id])]
    ensures FiredSoFar(was, evs, common, now)
  {
  }

  lemma FiredAll(was: Events, evs: Events, common: Option<nat>, now: nat)
    requires FiredSoFar(was, evs, common, now) && forall id :: id in evs ==> !Due(evs[id], common, now)
    ensures evs.Keys == was.Keys
    ensures forall id :: id in evs ==> evs[id] == if Due(was[id], common, now) then Fired(was[id]) else was[id]
    ensures forall id :: At(evs, id).deadline == At(was, id).deadline
  {
  }

  /** `x` was waiting for this common timeout, or for none, and no longer is. */
  ghost predicate Gone(was: Events, evs: Events, common: Option<nat>, x: nat) {
    At(was, x).timeout && At(was, x).common == common && !At(evs, x).timeout
  }

  /** What has timed out is at the ends of the queues, in the order of its times. */
  ghost predicate Lined(was: Events, evs: Events, queues: seq<seq<nat>>, common: Option<nat>) {
    forall q, j, k :: q in queues && 0 <= j < k < |q| && Gone(was, evs, common, q[j]) ==>
      Gone(was, evs, common, q[k]) && At(was, q[j]).deadline <= At(was, q[k]).deadline
  }

  /** What has timed out was due no later than what has not. */
  ghost predicate Ahead(was: Events, evs: Events, common: Option<nat>) {
    forall x, y :: Gone(was, evs, common, x) && At(evs, y).timeout && At(evs, y).common == common ==>
      At(was, x).deadline <= At(evs, y).deadline
  }

  /** What was due is at the end of the queue, in the order of its times. */
  ghost predicate DueLast(was: Events, q: seq<nat>, common: Option<nat>, now: nat) {
    forall j, k :: 0 <= j < k < |q| && Due(At(was, q[j]), common, now) ==>
      Due(At(was, q[k]), common, now) && At(was, q[j]).deadline <= At(was, q[k]).deadline
  }

  lemma NoneGone(evs: Events, queues: seq<seq<nat>>, common: Option<nat>)
    ensures Lined(evs, evs, queues, common) && Ahead(evs, evs, common)
  {
  }

  /** One more event times out, none of those left being due before it. */
  lemma FiredInTurn(was: Events, before: Events, evs: Events, were: seq<seq<nat>>, queues: seq<seq<nat>>,
      later: seq<nat>, common: Option<nat>, now: nat, id: nat)
    requires Lined(was, before, were, common) && Ahead(was, before, common)
    requires FiredSoFar(was, before, common, now) && ActiveOk(before, were, later)
    requires id in before && before[id].timeout && before[id].common == common
    requires forall y :: At(before, y).timeout && At(before, y).common == common ==>
      before[id].deadline <= At(before, y).deadline
    requires evs == before[id := Fired(before[id])]
    requires Requeued(were, queues, before[id].active, before[id].pri, id)
    ensures Lined(was, evs, queues, common) && Ahead(was, evs, common)
  {
    hide ActiveOk, Distinct, Without;
    OneChanged(before, evs, id, Fired(before[id]));
    assert At(was, id) == before[id];
    assert forall x :: x != id ==> (Gone(was, evs, common, x) <==> Gone(was, before, common, x));
    forall q, j, k | q in queues && 0 <= j < k < |q| && Gone(was, evs, common, q[j])
      ensures Gone(was, evs, common, q[k]) && At(was, q[j]).deadline <= At(was, q[k]).deadline
    {
      var w := RequeuedFrom(before, were, queues, later, id, q);
      WithoutIs(w, id);
      if q == Without(w, id) + [id] {
        assert q[j] in Without(w, id);
        if k < |Without(w, id)| {
          var a, b := WithoutOrder(w, id, j, k);
          assert w[a] == q[j] && w[b] == q[k];
        }
      } else {
        assert q[j] in w && q[k] in w;
      }
    }
  }

  /** A queue is one of those before, and does not have `id`, or has it put at its end. */
  lemma RequeuedFrom(before: Events, were: seq<seq<nat>>, queues: seq<seq<nat>>, later: seq<nat>, id: nat, q: seq<nat>)
    returns (w: seq<nat>)
    requires ActiveOk(before, were, later) && id in before && q in queues
    requires Requeued(were, queues, before[id].active, before[id].pri, id)
    ensures w in were && Distinct(w)
    ensures (q == w && id !in w) || q == Without(w, id) + [id]
  {
    hide Distinct, Without;
    var i :| 0 <= i < |queues| && queues[i] == q;
    w := were[i];
    assert id in w <==> At(before, id).active && At(before, id).pri == i;
  }

  lemma LinedUp(was: Events, evs: Events, queues: seq<seq<nat>>, common: Option<nat>, now: nat)
    requires Lined(was, evs, queues, common) && evs.Keys == was.Keys
    requires forall id :: id in evs ==> evs[id] == if Due(was[id], common, now) then Fired(was[id]) else was[id]
    ensures forall q :: q in queues ==> DueLast(was, q, common, now)
  {
    forall x
      ensures Gone(was, evs, common, x) <==> Due(At(was, x), common, now)
    {
      assert x in evs.Keys <==> x in was.Keys;
    }
  }

  /** The timer of a common timeout is set for its first event, or left as it is if there is none. */
  ghost predicate ProxyReset(was: Events, evs: Events, c: Common) {
    && c.proxy in was && c.proxy in evs
    && var p := was[c.proxy];
       evs[c.proxy] == if |c.events| == 0 then p
                       else p.(timeout := true, deadline := At(evs, c.events[0]).deadline, common := None,
                               active := p.active && TIMEOUT !in p.res)
  }

  /** The queues are the same, but for `id`, which may have left one. */
  ghost predicate FewerQueued(were: seq<seq<nat>>, queues: seq<seq<nat>>, id: nat) {
    |queues| == |were| && forall p :: 0 <= p < |were| ==> queues[p] == were[p] || queues[p] == Without(were[p], id)
  }

  lemma SameQueued(queues: seq<seq<nat>>, id: nat)
    ensures FewerQueued(queues, queues, id)
  {
  }

  lemma LessQueued(queues: seq<seq<nat>>, active: bool, pri: nat, id: nat)
    ensures FewerQueued(queues, QueuesWithout(queues, active, pri, id), id)
  {
  }

  lemma DueLastWithout(was: Events, were: seq<seq<nat>>, queues: seq<seq<nat>>, id: nat, common: Option<nat>, now: nat)
    requires FewerQueued(were, queues, id)
    requires forall q :: q in were ==> DueLast(was, q, common, now) && Distinct(q)
    ensures forall q :: q in queues ==> DueLast(was, q, common, now)
  {
    hide Without, Distinct;
    forall q, j, k | q in queues && 0 <= j < k < |q| && Due(At(was, q[j]), common, now)
      ensures Due(At(was, q[k]), common, now) && At(was, q[j]).deadline <= At(was, q[k]).deadline
    {
      var p :| 0 <= p < |queues| && queues[p] == q;
      assert were[p] in were;
      if q == Without(were[p], id) {
        var a, b := WithoutOrder(were[p], id, j, k);
      }
    }
  }

  lemma HeapMore(was: Events, h: set<nat>, evs: Events, heap: set<nat>, commons: seq<Common>, p: nat)
    requires TimersOk(was, h, commons) && TimersOk(evs, heap, commons) && p in was && p in evs
        && evs == was[p := evs[p]]
    ensures forall id :: id in heap ==> id == p || id in h
  {
    OneChanged(was, evs, p, evs[p]);
  }

  lemma EmptyWakes(evs: Events, commons: seq<Common>, i: nat)
    requires ShapesOk(evs, commons) && i < |commons| && |commons[i].events| == 0
    requires forall j :: 0 <= j < |commons| && j != i ==> Wakes(evs, commons[j])
    ensures ProxiesOk(evs, commons)
  {
  }

  lemma ProxyTaken(was: Events, evs: Events, h: set<nat>, heap: set<nat>, commons: seq<Common>, i: nat)
    requires ProxiesOk(was, commons) && i < |commons| && TimersOk(was, h, commons) && TimersOk(evs, heap, commons)
    requires var p := commons[i].proxy; p in was && evs == was[p := Idle(was[p])]
    ensures ShapesOk(evs, commons)
    ensures forall j :: 0 <= j < |commons| && j != i ==> Wakes(evs, commons[j])
    ensures forall id :: At(evs, id).deadline == At(was, id).deadline
    ensures forall id :: id in heap ==> id in h
  {
    hide TimersOk;
    var p := commons[i].proxy;
    OneChanged(was, evs, p, Idle(was[p]));
    HeapMore(was, h, evs, heap, commons, p);
    HeapLacks(evs, heap, commons, p);
    forall j | 0 <= j < |commons|
      ensures ProxyShape(evs, commons[j])
    {
      assert ProxyShape(was, commons[j]);
    }
    forall j | 0 <= j < |commons| && j != i
      ensures Wakes(evs, commons[j])
    {
      assert Wakes(was, commons[j]) && commons[j].proxy != p;
    }
  }

  lemma HeapLacks(evs: Events, heap: set<nat>, commons: seq<Common>, p: nat)
    requires TimersOk(evs, heap, commons) && p in evs && !evs[p].timeout
    ensures p !in heap
  {
    assert At(evs, p) == evs[p];
  }

  lemma TurnBegins(was: Events, evs: Events, commons: seq<Common>, now: nat)
    requires evs.Keys == was.Keys
    requires forall id :: id in evs ==> evs[id] == if Due(was[id], None, now) then Fired(was[id]) else was[id]
    ensures TurnedTo(was, evs, commons, 0, now)
  {
  }

  lemma TurnGoesOn(was: Events, mid: Events, evs: Events, commons: seq<Common>, i: nat, now: nat)
    requires i < |commons| && TurnedTo(was, mid, commons, i, now) && evs.Keys == mid.Keys
    requires forall id :: id in evs && id != commons[i].proxy ==>
      evs[id] == if Due(mid[id], Some(i), now) then Fired(mid[id]) else mid[id]
    ensures TurnedTo(was, evs, commons, i + 1, now)
  {
  }

  lemma TurnEnds(was: Events, evs: Events, commons: seq<Common>, now: nat)
    requires TurnedTo(was, evs, commons, |commons|, now)
    requires forall id :: id in was && was[id].timeout && was[id].common.Some? ==> was[id].common.value < |commons|
    ensures evs.Keys == was.Keys
    ensures forall id :: id in evs && !IsProxy(commons, id) ==>
      evs[id] == if was[id].timeout && was[id].deadline <= now then Fired(was[id]) else was[id]
  {
  }

  lemma SoonestIs(evs: Events, heap: set<nat>, top: nat)
    requires Soonest(evs, heap, top)
    ensures top in heap && forall id :: id in heap ==> At(evs, top).deadline <= At(evs, id).deadline
  {
  }

  lemma ProxyNot(before: seq<Common>, after: seq<Common>, i: nat, id: nat)
    requires i < |after| == |before| && !IsProxy(after, id) && after[i].proxy == before[i].proxy
    ensures after[i].proxy != id && IsProxy(before, after[i].proxy)
  {
  }

  lemma IdleAgain(was: Events, untimed: Events, unqueued: Events, evs: Events, id: nat)
    requires id in was && untimed == was[id := was[id].(timeout := false)]
    requires unqueued == untimed[id := untimed[id].(active := false, later := false)]
    requires evs == unqueued[id := unqueued[id].(inserted := false)]
    ensures evs == was[id := Idle(was[id])]
  {
    ChangedTwice(was, id, untimed[id], unqueued[id]);
    ChangedTwice(was, id, unqueued[id], evs[id]);
  }

  lemma Withdrawn(was: Events, free: Events, id: nat)
    requires id in was
    requires free == was[id := was[id].(timeout := false, active := was[id].active && TIMEOUT !in was[id].res)]
    ensures id in free && !free[id].timeout
  {
  }

  lemma TimedAgain(was: Events, free: Events, evs: Events, id: nat, when: When, absolute: bool, now: nat)
    requires id in was
    requires free == was[id := was[id].(timeout := false, active := was[id].active && TIMEOUT !in was[id].res)]
    requires var deadline := if absolute then when.usec else now + when.usec;
             evs == free[id := free[id].(timeout := true, deadline := deadline, common := when.common)]
    ensures evs == was[id := Timed(was[id], when, absolute, now)]
  {
    ChangedTwice(was, id, free[id], evs[id]);
  }

  /** An event that is to time out: one that was active for a timeout is so no more. */
  function Timed(ev: Event, when: When, absolute: bool, now: nat): Event {
    ev.(timeout := true, deadline := if absolute then when.usec else now + when.usec, common := when.common,
        active := ev.active && TIMEOUT !in ev.res)
  }

  lemma NoneQueued(queues: seq<seq<nat>>)
    requires forall p :: 0 <= p < |queues| ==> queues[p] == []
    ensures Total(queues) == 0 && Memberships(map[]) == 0
  {
    assert Inserted(map[]) == {} && Waiting(map[]) == {} && Active(map[]) == {} && Later(map[]) == {};
    if |queues| > 0 {
      NoneQueued(queues[1..]);
    }
  }

  lemma InHeap(evs: Events, heap: set<nat>, commons: seq<Common>, id: nat)
    requires TimersOk(evs, heap, commons) && id in evs && evs[id].timeout && evs[id].common.None?
    ensures id in heap
  {
    assert At(evs, id) == evs[id];
  }

  lemma HeadTaken(evs: Events, heap: set<nat>, commons: seq<Common>, i: nat, id: nat)
    requires TimersOk(evs, heap, commons) && i < |commons|
    ensures var r := Without(commons[i].events, id);
            |r| > 0 ==> |commons[i].events| > 0 && At(evs, commons[i].events[0]).deadline <= At(evs, r[0]).deadline
  {
    WithoutSorted(evs, commons[i].events, id);
  }

  lemma PutHead(q: seq<nat>, id: nat, k: nat)
    requires k <= |q|
    ensures var r := q[..k] + [id] + q[k..];
            |r| > 0 && (r[0] == id || (|q| > 0 && r[0] == q[0]))
  {
  }
}
