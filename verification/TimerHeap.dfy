/** The array heap of timers, in which every event knows its place. */
module TimerHeap {
  import opened Bytes
  import opened EventQueues

  type Places = map<nat, int>

  type Times = map<nat, nat>

  /** Where an event is in the heap, or -1. */
  function PlaceOf(places: Places, e: nat): int {
    if e in places then places[e] else -1
  }

  function TimeOf(times: Times, e: nat): nat {
    if e in times then times[e] else 0
  }

  function Parent(i: nat): nat
    requires i > 0
  {
    (i - 1) / 2
  }

  // Places

  /** The first `n` of `p` are the events of `s`, but for place `hole`; each knows where it is. No other
      event is anywhere, those in `out` apart, of which nothing is said. */
  ghost predicate Placed(p: seq<nat>, n: nat, hole: nat, places: Places, s: set<nat>, out: set<nat>) {
    && n <= |p| && s !! out
    && (forall i :: 0 <= i < n && i != hole ==> p[i] in s && PlaceOf(places, p[i]) == i)
    && (forall e :: e in s ==>
          0 <= PlaceOf(places, e) < n && PlaceOf(places, e) != hole && p[PlaceOf(places, e)] == e)
    && (forall e :: e !in s && e !in out ==> PlaceOf(places, e) == -1)
  }

  /** Moving an event into the hole leaves a hole where it was. */
  lemma MovedPlaces(p: seq<nat>, n: nat, hole: nat, from: nat, places: Places, s: set<nat>, out: set<nat>)
    requires Placed(p, n, hole, places, s, out) && hole < n && from < n && from != hole
    ensures Placed(p[hole := p[from]], n, from, places[p[from] := hole], s, out)
  {
  }

  /** Filling the hole. */
  lemma FilledPlaces(p: seq<nat>, n: nat, hole: nat, places: Places, s: set<nat>, out: set<nat>, e: nat)
    requires Placed(p, n, hole, places, s, out) && hole < n && e in out
    ensures Placed(p[hole := e], n, n, places[e := hole], s + {e}, out - {e})
  {
  }

  /** Taking an event out leaves a hole. */
  lemma TakenPlaces(p: seq<nat>, n: nat, places: Places, s: set<nat>, e: nat)
    requires Placed(p, n, n, places, s, {}) && e in s
    ensures 0 <= PlaceOf(places, e) < n && p[PlaceOf(places, e)] == e
    ensures Placed(p, n, PlaceOf(places, e), places, s - {e}, {e})
  {
  }

  /** Taking the last event out leaves no hole; with the hole of another, it waits to fill that. */
  lemma LastPlaces(p: seq<nat>, n: nat, hole: nat, places: Places, s: set<nat>, e: nat)
    requires n > 0 && Placed(p, n, hole, places, s, {e}) && hole < n
    ensures hole == n - 1 ==> Placed(p, n - 1, n - 1, places, s, {e})
    ensures hole < n - 1 ==> p[n - 1] in s && p[n - 1] != e
    ensures hole < n - 1 ==> Placed(p, n - 1, hole, places, s - {p[n - 1]}, {e, p[n - 1]})
  {
  }

  lemma GonePlaces(p: seq<nat>, n: nat, places: Places, s: set<nat>, e: nat)
    requires Placed(p, n, n, places, s, {e})
    ensures Placed(p, n, n, places[e := -1], s, {})
  {
  }

  // Order

  /** No event is due before its parent. */
  ghost predicate Ordered(p: seq<nat>, n: nat, times: Times)
    requires n <= |p|
  {
    forall i :: 0 < i < n ==> TimeOf(times, p[Parent(i)]) <= TimeOf(times, p[i])
  }

  /** The same, with `hole` left out: its children are not due before its parent. */
  ghost predicate OrderedAround(p: seq<nat>, n: nat, hole: nat, times: Times)
    requires n <= |p| && hole < |p|
  {
    && (forall i :: 0 < i < n && i != hole && Parent(i) != hole ==>
          TimeOf(times, p[Parent(i)]) <= TimeOf(times, p[i]))
    && (hole > 0 ==>
          forall i :: 0 < i < n && Parent(i) == hole ==> TimeOf(times, p[Parent(hole)]) <= TimeOf(times, p[i]))
  }

  /** No child of `hole` is due before `t`. */
  ghost predicate Above(p: seq<nat>, n: nat, hole: nat, times: Times, t: nat)
    requires n <= |p|
  {
    forall i :: 0 < i < n && Parent(i) == hole ==> t <= TimeOf(times, p[i])
  }

  lemma OrderedWithout(p: seq<nat>, n: nat, m: nat, hole: nat, times: Times)
    requires m <= n <= |p| && hole < n && Ordered(p, n, times)
    ensures OrderedAround(p, m, hole, times)
  {
    forall i | 0 < i < m && Parent(i) == hole && hole > 0
      ensures TimeOf(times, p[Parent(hole)]) <= TimeOf(times, p[i])
    {
      assert TimeOf(times, p[Parent(hole)]) <= TimeOf(times, p[hole]) <= TimeOf(times, p[i]);
    }
  }

  /** The parent comes down into the hole. */
  lemma UpOrder(p: seq<nat>, n: nat, hole: nat, times: Times, t: nat)
    requires 0 < hole < n <= |p| && OrderedAround(p, n, hole, times) && Above(p, n, hole, times, t)
    requires t < TimeOf(times, p[Parent(hole)])
    ensures var q := p[hole := p[Parent(hole)]];
            OrderedAround(q, n, Parent(hole), times) && Above(q, n, Parent(hole), times, t)
  {
  }

  /** The earlier child comes up into the hole. */
  lemma DownOrder(p: seq<nat>, n: nat, hole: nat, child: nat, times: Times)
    requires hole < child < n <= |p| && Parent(child) == hole && OrderedAround(p, n, hole, times)
    requires Above(p, n, hole, times, TimeOf(times, p[child]))
    ensures OrderedAround(p[hole := p[child]], n, child, times)
  {
  }

  lemma FilledOrder(p: seq<nat>, n: nat, hole: nat, times: Times, e: nat)
    requires hole < n <= |p| && OrderedAround(p, n, hole, times) && Above(p, n, hole, times, TimeOf(times, e))
    requires hole > 0 ==> TimeOf(times, p[Parent(hole)]) <= TimeOf(times, e)
    ensures Ordered(p[hole := e], n, times)
  {
  }

  /** The first event is due first. */
  lemma {:induction false} FirstIsLeast(p: seq<nat>, n: nat, times: Times, i: nat)
    requires i < n <= |p| && Ordered(p, n, times)
    ensures TimeOf(times, p[0]) <= TimeOf(times, p[i])
  {
    if i > 0 {
      FirstIsLeast(p, n, times, Parent(i));
    }
  }

  class MinHeap {
    var p: array<nat>
    var n: nat
    var places: Places
    var times: Times
    ghost var members: set<nat>

    ghost predicate PlacesOk()
      reads this, p
    {
      Placed(p[..], n, n, places, members, {})
    }

    ghost predicate Valid()
      reads this, p
    {
      PlacesOk() && Ordered(p[..], n, times)
    }

    /** All is well but for the time of one event, which has changed. */
    ghost predicate ValidBut(e: nat)
      reads this, p
    {
      && PlacesOk()
      && if e in members then
           0 <= PlaceOf(places, e) < p.Length && OrderedAround(p[..], n, PlaceOf(places, e), times)
         else Ordered(p[..], n, times)
    }

    constructor ()
      ensures Valid() && members == {} && fresh(p) && times == map[]
    {
      p, n, places, times, members := new nat[0], 0, map[], map[], {};
    }

    /** Gives an event, in the heap or not, another time. */
    method SetTime(e: nat, time: nat)
      requires Valid()
      modifies this`times
      ensures ValidBut(e) && times == old(times)[e := time]
      ensures e !in members ==> Valid()
    {
      OtherTime(p[..], n, places, members, times, e, time);
      times := times[e := time];
    }

    /** Makes room for `want` events. */
    method Reserve(want: nat)
      requires n <= p.Length
      modifies this`p
      ensures n <= p.Length && p[..n] == old(p[..n])
      ensures var more := if old(p).Length > 0 then 2 * old(p).Length else 8;
              p.Length == if want <= old(p).Length then old(p).Length else if want <= more then more else want
      ensures p == old(p) || fresh(p)
    {
      if p.Length < want {
        var a := if p.Length > 0 then p.Length * 2 else 8;
        if a < want {
          a := want;
        }
        var q := new nat[a];
        for i := 0 to n
          modifies q
          invariant i <= n <= q.Length && q[..i] == p[..i]
        {
          q[i] := p[i];
        }
        p := q;
      }
    }

    /** Fills the hole with `e`, whose parent is no later and whose children are no earlier. */
    method Fill(hole: nat, e: nat, ghost out: set<nat>)
      requires hole < n && Placed(p[..], n, hole, places, members, out) && e in out
      requires OrderedAround(p[..], n, hole, times) && Above(p[..], n, hole, times, TimeOf(times, e))
      requires hole > 0 ==> TimeOf(times, p[Parent(hole)]) <= TimeOf(times, e)
      modifies p, this`places, this`members
      ensures members == old(members) + {e} && Placed(p[..], n, n, places, members, out - {e})
      ensures Ordered(p[..], n, times)
    {
      hide Placed, Ordered, OrderedAround, Above;
      PlacedFits(p[..], n, hole, places, members, out);
      FilledPlaces(p[..], n, hole, places, members, out, e);
      FilledOrder(p[..], n, hole, times, e);
      p[hole] := e;
      places := places[e := hole];
      members := members + {e};
      assert p[..] == old(p[..])[hole := e];
    }

    /** Moves the event at `from` into the hole, and leaves one there. */
    method MoveInto(hole: nat, from: nat, ghost out: set<nat>)
      requires hole < n && from < n && from != hole && Placed(p[..], n, hole, places, members, out)
      modifies p, this`places
      ensures Placed(p[..], n, from, places, members, out) && p[..] == old(p[..])[hole := old(p[..])[from]]
    {
      hide Placed;
      PlacedFits(p[..], n, hole, places, members, out);
      MovedPlaces(p[..], n, hole, from, places, members, out);
      p[hole] := p[from];
      places := places[p[hole] := hole];
      assert p[..] == old(p[..])[hole := old(p[..])[from]];
    }

    /** Moves the hole up until `e` fits in. */
    method ShiftUp(hole: nat, e: nat, ghost out: set<nat>)
      requires hole < n && Placed(p[..], n, hole, places, members, out) && e in out
      requires n <= p.Length && OrderedAround(p[..], n, hole, times)
      requires Above(p[..], n, hole, times, TimeOf(times, e))
      modifies p, this`places, this`members
      ensures members == old(members) + {e} && Placed(p[..], n, n, places, members, out - {e})
      ensures Ordered(p[..], n, times)
    {
      hide Placed, Ordered, OrderedAround, Above;
      var i: nat := hole;
      while i > 0 && TimeOf(times, p[Parent(i)]) > TimeOf(times, e)
        invariant i < n <= p.Length && Placed(p[..], n, i, places, members, out) && members == old(members)
        invariant OrderedAround(p[..], n, i, times) && Above(p[..], n, i, times, TimeOf(times, e))
      {
        UpOrder(p[..], n, i, times, TimeOf(times, e));
        MoveInto(i, Parent(i), out);
        i := Parent(i);
      }
      Fill(i, e, out);
    }

    /** The same, when it is known that the hole has to move. */
    method ShiftUpUnconditional(hole: nat, e: nat, ghost out: set<nat>)
      requires 0 < hole < n && Placed(p[..], n, hole, places, members, out) && e in out
      requires n <= p.Length && OrderedAround(p[..], n, hole, times)
      requires TimeOf(times, p[Parent(hole)]) > TimeOf(times, e)
      modifies p, this`places, this`members
      ensures members == old(members) + {e} && Placed(p[..], n, n, places, members, out - {e})
      ensures Ordered(p[..], n, times)
    {
      AboveHole(p[..], n, hole, times, TimeOf(times, e));
      hide Placed, Ordered, OrderedAround, Above;
      var i: nat := hole;
      while true
        invariant 0 < i < n <= p.Length && Placed(p[..], n, i, places, members, out) && members == old(members)
        invariant OrderedAround(p[..], n, i, times) && Above(p[..], n, i, times, TimeOf(times, e))
        invariant TimeOf(times, p[Parent(i)]) > TimeOf(times, e)
        decreases i
      {
        UpOrder(p[..], n, i, times, TimeOf(times, e));
        MoveInto(i, Parent(i), out);
        i := Parent(i);
        if !(i > 0 && TimeOf(times, p[Parent(i)]) > TimeOf(times, e)) {
          break;
        }
      }
      Fill(i, e, out);
    }

    /** Moves the hole down until `e` fits in. */
    method ShiftDown(hole: nat, e: nat, ghost out: set<nat>)
      requires hole < n && Placed(p[..], n, hole, places, members, out) && e in out
      requires n <= p.Length && OrderedAround(p[..], n, hole, times)
      requires hole > 0 ==> TimeOf(times, p[Parent(hole)]) <= TimeOf(times, e)
      modifies p, this`places, this`members
      ensures members == old(members) + {e} && Placed(p[..], n, n, places, members, out - {e})
      ensures Ordered(p[..], n, times)
    {
      hide Placed, Ordered, OrderedAround, Above;
      var i: nat := hole;
      var minChild := 2 * (i + 1);
      while minChild <= n
        invariant i < n <= p.Length && minChild == 2 * (i + 1)
        invariant Placed(p[..], n, i, places, members, out) && members == old(members)
        invariant OrderedAround(p[..], n, i, times)
        invariant i > 0 ==> TimeOf(times, p[Parent(i)]) <= TimeOf(times, e)
        decreases n - i
      {
        if minChild == n || TimeOf(times, p[minChild]) > TimeOf(times, p[minChild - 1]) {
          minChild := minChild - 1;
        }
        TwoChildren(p[..], n, i, minChild, times);
        if TimeOf(times, e) <= TimeOf(times, p[minChild]) {
          AboveMore(p[..], n, i, times, TimeOf(times, p[minChild]), TimeOf(times, e));
          Fill(i, e, out);
          return;
        }
        DownOrder(p[..], n, i, minChild, times);
        MoveInto(i, minChild, out);
        i := minChild;
        minChild := 2 * (i + 1);
      }
      NoChildren(p[..], n, i, times, TimeOf(times, e));
      Fill(i, e, out);
    }

    /** Adds an event that is not in the heap. */
    method Push(e: nat)
      requires Valid() && e !in members
      modifies this`p, this`n, this`places, this`members, p
      ensures Valid() && members == old(members) + {e} && (p == old(p) || fresh(p))
    {
      hide Ordered, OrderedAround, Above;
      Reserve(n + 1);
      NewLast(old(p[..]), p[..], n, places, members, times, e);
      n := n + 1;
      ShiftUp(n - 1, e, {e});
      assert {e} - {e} == {};
    }

    /** The event that is due first. */
    method Top() returns (e: Option<nat>)
      requires Valid()
      ensures e.None? <==> members == {}
      ensures e.Some? ==> e.value in members && forall x :: x in members ==> TimeOf(times, e.value) <= TimeOf(times, x)
    {
      if n == 0 {
        NoPlaces(p[..], n, places, members);
        return None;
      }
      forall x | x in members
        ensures TimeOf(times, p[0]) <= TimeOf(times, x)
      {
        FirstIsLeast(p[..], n, times, PlaceOf(places, x));
      }
      return Some(p[0]);
    }

    /** Puts the last event into the hole that `e` has left, up or down. */
    method Refill(hole: nat, e: nat)
      requires hole < n <= p.Length && p[hole] == e
      requires Placed(p[..], n, hole, places, members, {e}) && OrderedAround(p[..], n, hole, times)
      modifies p, this`n, this`places, this`members
      ensures Valid() && members == old(members)
    {
      hide Placed, Ordered, OrderedAround, Above;
      LastPlaces(p[..], n, hole, places, members, e);
      FewerOrdered(p[..], n, hole, times);
      n := n - 1;
      var last := p[n];
      if hole == n {
        // it was the last itself, and is put back where it no longer counts
        BeyondPlaces(p[..], n, places, members, e);
        places := places[last := hole];
        p[hole] := last;
        assert p[..] == old(p[..]);
      } else {
        members := members - {last};
        SiftIn(hole, last, {e, last});
        assert {e, last} - {last} == {e};
      }
      GonePlaces(p[..], n, places, members, e);
      places := places[e := -1];
    }

    /** Moves the hole up or down, as needed, until `e` fits in; it cannot need both. */
    method SiftIn(hole: nat, e: nat, ghost out: set<nat>)
      requires hole < n && Placed(p[..], n, hole, places, members, out) && e in out
      requires n <= p.Length && OrderedAround(p[..], n, hole, times)
      modifies p, this`places, this`members
      ensures members == old(members) + {e} && Placed(p[..], n, n, places, members, out - {e})
      ensures Ordered(p[..], n, times)
    {
      hide Placed, Ordered, OrderedAround, Above;
      if hole > 0 && TimeOf(times, p[Parent(hole)]) > TimeOf(times, e) {
        ShiftUpUnconditional(hole, e, out);
      } else {
        ShiftDown(hole, e, out);
      }
    }

    /** Takes out an event. */
    method TakeOut(e: nat)
      requires Valid() && e in members
      modifies p, this`n, this`places, this`members
      ensures Valid() && members == old(members) - {e}
    {
      hide Placed, Ordered, OrderedAround, Above;
      PlacedFits(p[..], n, n, places, members, {});
      TakenPlaces(p[..], n, places, members, e);
      var hole: nat := PlaceOf(places, e);
      OrderedWithout(p[..], n, n, hole, times);
      members := members - {e};
      Refill(hole, e);
    }

    /** Takes out the event that is due first. */
    method Pop() returns (e: Option<nat>)
      requires Valid()
      modifies p, this`n, this`places, this`members
      ensures Valid() && (e.None? <==> old(members) == {})
      ensures if e.None? then members == old(members)
              else && e.value in old(members) && members == old(members) - {e.value}
                   && forall x :: x in members ==> TimeOf(times, e.value) <= TimeOf(times, x)
    {
      hide Placed, Ordered, OrderedAround, Above;
      e := Top();
      if e.Some? {
        TakeOut(e.value);
      }
    }

    /** Takes an event out: 0, or -1 if it is not in the heap. */
    method Erase(e: nat) returns (r: int)
      requires Valid()
      modifies p, this`n, this`places, this`members
      ensures Valid() && members == old(members) - {e}
      ensures r == if e in old(members) then 0 else -1
    {
      WhereIs(p[..], n, places, members, e);
      if PlaceOf(places, e) == -1 {
        return -1;
      }
      TakeOut(e);
      return 0;
    }

    /** Puts an event, of which the time has changed, where it belongs, or into the heap if it was not there. */
    method Adjust(e: nat)
      requires ValidBut(e)
      modifies this`p, this`n, this`places, this`members, p
      ensures Valid() && members == old(members) + {e} && (p == old(p) || fresh(p))
    {
      WhereIs(p[..], n, places, members, e);
      if PlaceOf(places, e) == -1 {
        Push(e);
      } else {
        hide Placed, Ordered, OrderedAround, Above;
        PlacedFits(p[..], n, n, places, members, {});
        TakenPlaces(p[..], n, places, members, e);
        members := members - {e};
        SiftIn(PlaceOf(places, e), e, {e});
        assert {e} - {e} == {};
      }
    }
  }

  lemma NoPlaces(p: seq<nat>, n: nat, places: Places, s: set<nat>)
    requires Placed(p, n, n, places, s, {}) && n == 0
    ensures s == {}
  {
  }

  lemma WhereIs(p: seq<nat>, n: nat, places: Places, s: set<nat>, e: nat)
    requires Placed(p, n, n, places, s, {})
    ensures PlaceOf(places, e) == -1 <==> e !in s
    ensures e in s ==> 0 <= PlaceOf(places, e) < n <= |p|
  {
  }

  lemma BeyondPlaces(p: seq<nat>, n: nat, places: Places, s: set<nat>, e: nat)
    requires Placed(p, n, n, places, s, {e})
    ensures Placed(p, n, n, places[e := n], s, {e})
  {
  }

  lemma FewerOrdered(p: seq<nat>, n: nat, hole: nat, times: Times)
    requires hole < n <= |p| && OrderedAround(p, n, hole, times)
    ensures hole < n - 1 ==> OrderedAround(p, n - 1, hole, times)
    ensures hole == n - 1 ==> Ordered(p, n - 1, times)
  {
  }

  /** The top of the array heap is some soonest member of the set that it stands for. */
  lemma TopIsSoonest(evs: Events, s: set<nat>, times: Times, top: nat)
    requires top in s && forall x :: x in s ==> TimeOf(times, top) <= TimeOf(times, x)
    requires forall x :: x in s ==> TimeOf(times, x) == At(evs, x).deadline
    ensures Soonest(evs, s, top)
  {
  }

  lemma PlacedFits(p: seq<nat>, n: nat, hole: nat, places: Places, s: set<nat>, out: set<nat>)
    requires Placed(p, n, hole, places, s, out)
    ensures n <= |p|
  {
  }

  lemma OtherTime(p: seq<nat>, n: nat, places: Places, s: set<nat>, times: Times, e: nat, time: nat)
    requires Placed(p, n, n, places, s, {}) && Ordered(p, n, times)
    ensures var next := times[e := time];
            if e in s then
              0 <= PlaceOf(places, e) < |p| && OrderedAround(p, n, PlaceOf(places, e), next)
            else Ordered(p, n, next)
  {
    if e in s {
      OrderedWithout(p, n, n, PlaceOf(places, e), times);
      OthersOrdered(p, n, PlaceOf(places, e), times, e, time);
    }
  }

  lemma OthersOrdered(p: seq<nat>, n: nat, hole: nat, times: Times, e: nat, time: nat)
    requires n <= |p| && hole < |p| && OrderedAround(p, n, hole, times)
    requires forall i :: 0 <= i < n && i != hole ==> p[i] != e
    ensures OrderedAround(p, n, hole, times[e := time])
  {
  }

  lemma AboveHole(p: seq<nat>, n: nat, hole: nat, times: Times, t: nat)
    requires 0 < hole < n <= |p| && OrderedAround(p, n, hole, times) && t < TimeOf(times, p[Parent(hole)])
    ensures Above(p, n, hole, times, t)
  {
  }

  lemma AboveMore(p: seq<nat>, n: nat, hole: nat, times: Times, t: nat, u: nat)
    requires n <= |p| && Above(p, n, hole, times, t) && u <= t
    ensures Above(p, n, hole, times, u)
  {
  }

  /** The children of `i` are at two places; the earlier one bounds both. */
  lemma TwoChildren(p: seq<nat>, n: nat, i: nat, child: nat, times: Times)
    requires n <= |p| && 2 * i + 2 <= n && (child == 2 * i + 1 || (child == 2 * i + 2 < n))
    requires if child == 2 * i + 1 then
               2 * i + 2 == n || TimeOf(times, p[2 * i + 2]) > TimeOf(times, p[child])
             else TimeOf(times, p[child]) <= TimeOf(times, p[2 * i + 1])
    ensures i < child < n && Parent(child) == i && Above(p, n, i, times, TimeOf(times, p[child]))
  {
    forall j | 0 < j < n && Parent(j) == i
      ensures TimeOf(times, p[child]) <= TimeOf(times, p[j])
    {
      assert j == 2 * i + 1 || j == 2 * i + 2;
    }
  }

  lemma NoChildren(p: seq<nat>, n: nat, i: nat, times: Times, t: nat)
    requires n <= |p| && 2 * i + 2 > n
    ensures Above(p, n, i, times, t)
  {
    assert forall j :: 0 < j < n ==> Parent(j) != i;
  }

  /** The place after the last is a hole for a new event. */
  lemma NewLast(was: seq<nat>, p: seq<nat>, n: nat, places: Places, s: set<nat>, times: Times, e: nat)
    requires Placed(was, n, n, places, s, {}) && Ordered(was, n, times) && e !in s
    requires n < |p| && p[..n] == was[..n]
    ensures Placed(p, n + 1, n, places, s, {e}) && OrderedAround(p, n + 1, n, times)
    ensures Above(p, n + 1, n, times, TimeOf(times, e))
  {
    assert forall i :: 0 <= i < n ==> p[i] == p[..n][i] == was[i];
  }
}
