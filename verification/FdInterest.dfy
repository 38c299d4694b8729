/** From events on file descriptors to epoll registrations. */
module FdInterest {
  import opened EpollTable
  import opened Lists

  datatype Errno = Okay | ENOENT | EEXIST

  /** What the kernel holds for each registered file descriptor. */
  type Kernel = map<nat, Interest>

  function EpollCtl(kernel: Kernel, op: CtlOp, fd: nat, events: Interest): (Kernel, Errno) {
    match op
    case Add => if fd in kernel then (kernel, EEXIST) else (kernel[fd := events], Okay)
    case Mod => if fd in kernel then (kernel[fd := events], Okay) else (kernel, ENOENT)
    case Del => if fd in kernel then (kernel - {fd}, Okay) else (kernel, ENOENT)
    case _ => (kernel, Okay)
  }

  /** `fd` is registered for exactly these events, or not at all if there are none. */
  ghost predicate Registered(kernel: Kernel, fd: nat, events: Interest) {
    if events.IsEmpty() then fd !in kernel else fd in kernel && kernel[fd] == events
  }

  ghost predicate SameAt(k: Kernel, l: Kernel, fd: nat) {
    (fd in k <==> fd in l) && (fd in k ==> k[fd] == l[fd])
  }

  datatype Event = Event(id: nat, fd: int, events: Interest)

  /** What is kept for one file descriptor: counts, and the pending events themselves. */
  datatype Slot = Slot(nread: nat, nwrite: nat, nclose: nat, events: seq<Event>) {

    function Wanted(): Interest {
      Interest(nread > 0, nwrite > 0, nclose > 0)
    }

    /** The counts are those of the events, which are all different. */
    ghost predicate Ok(fd: nat) {
      && nread == Count(events, R) <= MAX_COUNT
      && nwrite == Count(events, W) <= MAX_COUNT
      && nclose == Count(events, C) <= MAX_COUNT
      && (forall k :: 0 <= k < |events| ==> events[k].fd == fd)
      && Distinct(events)
    }
  }

  const MAX_COUNT: nat := 0xffff

  predicate Hits(ev: Event, which: Interest) {
    (ev.events.read && which.read) || (ev.events.write && which.write) || (ev.events.close && which.close)
  }

  /** How many of the events ask for `which`. */
  ghost function Count(events: seq<Event>, which: Interest): nat {
    if |events| == 0 then 0 else (if Hits(events[0], which) then 1 else 0) + Count(events[1..], which)
  }

  /** What a list of pending events asks for. */
  ghost function Asked(events: seq<Event>): Interest {
    Interest(Count(events, R) > 0, Count(events, W) > 0, Count(events, C) > 0)
  }

  /** Something is asked for just when some event asks for it. */
  lemma AskedIs(events: seq<Event>)
    ensures Asked(events).read <==> exists ev :: ev in events && ev.events.read
    ensures Asked(events).write <==> exists ev :: ev in events && ev.events.write
    ensures Asked(events).close <==> exists ev :: ev in events && ev.events.close
  {
    hide Count;
    SomeCounted(events, R);
    SomeCounted(events, W);
    SomeCounted(events, C);
    assert forall ev: Event :: (Hits(ev, R) <==> ev.events.read) && (Hits(ev, W) <==> ev.events.write)
                               && (Hits(ev, C) <==> ev.events.close);
  }

  lemma {:induction false} SomeCounted(events: seq<Event>, which: Interest)
    ensures Count(events, which) > 0 <==> exists ev :: ev in events && Hits(ev, which)
  {
    if |events| > 0 {
      SomeCounted(events[1..], which);
      assert events == [events[0]] + events[1..];
    }
  }

  lemma {:induction false} WithoutCount(events: seq<Event>, ev: Event, which: Interest)
    requires ev in events
    ensures Count(events, which) == Count(Without(events, ev), which) + if Hits(ev, which) then 1 else 0
  {
    if events[0] != ev {
      WithoutCount(events[1..], ev, which);
      assert ([events[0]] + Without(events[1..], ev))[1..] == Without(events[1..], ev);
    }
  }

  /** A change says, bit by bit, how to get from the events it starts from to those wanted. */
  ghost predicate Leads(c: Change, wanted: Interest) {
    && c.Possible() && c.Target() == wanted
    && (c.read == DEL ==> c.was.read) && (c.write == DEL ==> c.was.write) && (c.close == DEL ==> c.was.close)
  }

  ghost function WithAdds(c: Change, events: Interest): Change {
    c.(read := if events.read then ADD else c.read,
       write := if events.write then ADD else c.write,
       close := if events.close then ADD else c.close)
  }

  ghost function WithDels(c: Change, events: Interest): Change {
    c.(read := if !events.read then c.read else if c.was.read then DEL else 0,
       write := if !events.write then c.write else if c.was.write then DEL else 0,
       close := if !events.close then c.close else if c.was.close then DEL else 0)
  }

  method NoteAdds(change: Change, events: Interest) returns (c: Change)
    ensures c == WithAdds(change, events) && c.fd == change.fd
  {
    c := change;
    if events.read {
      c := c.(read := ADD);
    }
    if events.write {
      c := c.(write := ADD);
    }
    if events.close {
      c := c.(close := ADD);
    }
  }

  method NoteDels(change: Change, events: Interest) returns (c: Change)
    ensures c == WithDels(change, events) && c.fd == change.fd
  {
    c := change;
    if events.read {
      c := c.(read := if !c.was.read then 0 else DEL);
    }
    if events.write {
      c := c.(write := if !c.was.write then 0 else DEL);
    }
    if events.close {
      c := c.(close := if !c.was.close then 0 else DEL);
    }
  }

  /** Noting adds keeps a change right. */
  lemma AddsLead(c: Change, wanted: Interest, events: Interest)
    requires Leads(c, wanted)
    ensures Leads(WithAdds(c, events), wanted.Plus(events))
    ensures WithAdds(c, events).was == c.was && WithAdds(c, events).fd == c.fd
  {
  }

  lemma AddsTarget(c: Change, fd: nat, was: Interest, events: Interest)
    requires c == WithAdds(Change(fd, was, 0, 0, 0), events) && !events.IsEmpty()
    ensures c.fd == fd && c.Possible() && !c.IsNoop() && c.Target() == was.Plus(events)
  {
  }

  /** Noting deletes keeps a change right. */
  lemma DelsLead(c: Change, wanted: Interest, events: Interest)
    requires Leads(c, wanted)
    ensures Leads(WithDels(c, events), wanted.Minus(events))
    ensures WithDels(c, events).was == c.was && WithDels(c, events).fd == c.fd
  {
  }

  /** One more event would overflow a count. */
  ghost predicate TooMany(events: seq<Event>, more: Interest) {
    || (more.read && Count(events, R) == MAX_COUNT)
    || (more.write && Count(events, W) == MAX_COUNT)
    || (more.close && Count(events, C) == MAX_COUNT)
  }

  /** The index, plus one, of the entry for `fd`; 0 if there is none. */
  function IdxIn(idx: map<nat, nat>, fd: nat): nat {
    if fd in idx then idx[fd] else 0
  }

  /** Each file descriptor has at most one entry, and knows where. */
  ghost predicate Indexed(idx: map<nat, nat>, changes: seq<Change>) {
    && (forall i :: 0 <= i < |changes| ==> IdxIn(idx, changes[i].fd) == i + 1)
    && (forall fd: nat :: IdxIn(idx, fd) <= |changes| && (IdxIn(idx, fd) > 0 ==> changes[IdxIn(idx, fd) - 1].fd == fd))
  }

  lemma EntryOf(idx: map<nat, nat>, changes: seq<Change>, fd: nat)
    requires Indexed(idx, changes)
    ensures IdxIn(idx, fd) <= |changes| && (IdxIn(idx, fd) > 0 ==> changes[IdxIn(idx, fd) - 1].fd == fd)
  {
  }

  lemma EntryAt(idx: map<nat, nat>, changes: seq<Change>, i: nat)
    requires Indexed(idx, changes) && i < |changes|
    ensures IdxIn(idx, changes[i].fd) == i + 1
  {
  }

  lemma EntrySet(idx: map<nat, nat>, changes: seq<Change>, i: nat, c: Change)
    requires Indexed(idx, changes) && i < |changes| && c.fd == changes[i].fd
    ensures Indexed(idx, changes[i := c])
  {
    SameEntries(idx, changes, changes[i := c]);
  }

  /** Only whose entries they are matters. */
  lemma SameEntries(idx: map<nat, nat>, was: seq<Change>, changes: seq<Change>)
    requires Indexed(idx, was) && |changes| == |was|
    requires forall i :: 0 <= i < |was| ==> changes[i].fd == was[i].fd
    ensures Indexed(idx, changes)
  {
    forall i | 0 <= i < |changes|
      ensures IdxIn(idx, changes[i].fd) == i + 1
    {
      EntryAt(idx, was, i);
    }
    forall fd: nat
      ensures IdxIn(idx, fd) <= |changes| && (IdxIn(idx, fd) > 0 ==> changes[IdxIn(idx, fd) - 1].fd == fd)
    {
      EntryOf(idx, was, fd);
    }
  }

  lemma EntryMade(idx: map<nat, nat>, was: seq<Change>, fd: nat, c: Change)
    requires Indexed(idx, was) && IdxIn(idx, fd) == 0 && c.fd == fd
    ensures Indexed(idx[fd := |was| + 1], was + [c])
  {
    var next, changes := idx[fd := |was| + 1], was + [c];
    forall i | 0 <= i < |changes|
      ensures IdxIn(next, changes[i].fd) == i + 1
    {
      if i < |was| {
        EntryAt(idx, was, i);
      }
    }
    forall f: nat
      ensures IdxIn(next, f) <= |changes| && (IdxIn(next, f) > 0 ==> changes[IdxIn(next, f) - 1].fd == f)
    {
      EntryOf(idx, was, f);
    }
  }

  /** Different descriptors have different entries. */
  lemma OthersElsewhere(idx: map<nat, nat>, changes: seq<Change>, fd: nat)
    requires Indexed(idx, changes)
    ensures forall f: nat :: IdxIn(idx, f) <= |changes|
    ensures forall f: nat :: f != fd && IdxIn(idx, f) > 0 ==> IdxIn(idx, f) != IdxIn(idx, fd)
  {
    forall f: nat
      ensures IdxIn(idx, f) <= |changes| && (f != fd && IdxIn(idx, f) > 0 ==> IdxIn(idx, f) != IdxIn(idx, fd))
    {
      EntryOf(idx, changes, f);
      EntryOf(idx, changes, fd);
    }
  }

  class EventBase {
    const useChangelist: bool
    var io: map<nat, Slot>
    var idxplus1: map<nat, nat>   // one more than the index of the changelist entry of a descriptor
    var changes: seq<Change>
    var kernel: Kernel

    /** The index of the entry of `fd` plus one, or 0 if it has none. */
    function Idx(fd: nat): nat
      reads this`idxplus1
    {
      IdxIn(idxplus1, fd)
    }

    ghost predicate SlotsOk()
      reads this`io
    {
      forall fd :: fd in io ==> io[fd].Ok(fd)
    }

    /** Each file descriptor has at most one entry, and knows where. */
    ghost predicate IndexOk()
      reads this`idxplus1, this`changes
    {
      (!useChangelist ==> |changes| == 0) && Indexed(idxplus1, changes)
    }

    lemma WantedIsAsked(fd: nat)
      requires SlotsOk()
      ensures Wanted(fd) == Asked(Events(fd))
    {
      hide Count;
      NoneAsked();
    }

    /** The pending change of `fd` leads to `now`; without one, `fd` is settled on it. */
    ghost predicate Heads(fd: nat, now: Interest)
      requires IndexOk()
      reads this`idxplus1, this`changes
    {
      Leads(Pending(fd, now), now)
    }

    /** Every pending change leads to what is wanted now. */
    ghost predicate ChangesOk()
      requires IndexOk()
      reads this`io, this`idxplus1, this`changes
    {
      forall fd: nat :: Heads(fd, Wanted(fd))
    }

    ghost predicate Valid()
      reads this
    {
      SlotsOk() && IndexOk() && ChangesOk()
    }

    /** The events for which some event is pending on `fd`. */
    ghost function Wanted(fd: nat): Interest
      reads this`io
    {
      if fd in io then io[fd].Wanted() else NONE
    }

    /** The events pending on `fd`. */
    function Events(fd: int): seq<Event>
      reads this`io
    {
      if fd in io then io[fd].events else []
    }

    /** The change pending for `fd`, or one that changes nothing. */
    ghost function Pending(fd: nat, was: Interest): Change
      requires IndexOk()
      reads this`idxplus1, this`changes
    {
      if Idx(fd) > 0 then changes[Idx(fd) - 1] else Change(fd, was, 0, 0, 0)
    }

    /** The events `fd` was wanted for when the pending changes were last carried out. */
    ghost function Settled(fd: nat): Interest
      requires IndexOk()
      reads this
    {
      Pending(fd, Wanted(fd)).was
    }

    /** The kernel is as the last dispatch left it: no descriptor was closed behind its back. */
    ghost predicate Synced()
      requires IndexOk()
      reads this
    {
      forall fd: nat :: Registered(kernel, fd, Settled(fd))
    }

    constructor (useChangelist: bool)
      ensures Valid() && Synced() && kernel == map[] && io == map[] && changes == []
      ensures this.useChangelist == useChangelist
    {
      this.useChangelist := useChangelist;
      io, idxplus1, changes, kernel := map[], map[], [], map[];
    }

    /** The kernel is the same for all but `fd`. */
    twostate predicate KernelSame(fd: int)
      reads this`kernel
    {
      forall f: nat :: f != fd ==> SameAt(kernel, old(kernel), f)
    }

    /** Tells the kernel about one change, trying again where the first try was a wrong guess. */
    method EpollApplyOneChange(c: Change) returns (ok: bool)
      requires c.Possible()
      modifies this`kernel
      ensures ok && KernelSame(c.fd)
      ensures c.IsNoop() ==> kernel == old(kernel)
      ensures !c.IsNoop() ==> Registered(kernel, c.fd, c.Target())
    {
      hide OpTable;
      TableIsRight(c);
      var entry := OpTable(TableIndex(c));
      if entry.events.IsEmpty() {
        assert entry.op == Nothing;
        return true;
      }
      var (next, errno) := EpollCtl(kernel, entry.op, c.fd, entry.events);
      kernel := next;
      if errno.Okay? {
        return true;
      }
      if entry.op == Mod && errno == ENOENT {
        var (again, errno2) := EpollCtl(kernel, Add, c.fd, entry.events);
        kernel := again;
        return errno2.Okay?;
      }
      if entry.op == Add && errno == EEXIST {
        var (again, errno2) := EpollCtl(kernel, Mod, c.fd, entry.events);
        kernel := again;
        return errno2.Okay?;
      }
      if entry.op == Del && errno == ENOENT {
        return true;
      }
      return false;
    }

    /** The index of the changelist entry of `fd`, which is made if there is none. */
    method GetOrConstruct(fd: nat, was: Interest) returns (i: nat)
      requires IndexOk() && useChangelist
      modifies this`idxplus1, this`changes
      ensures IndexOk() && i < |changes| && Idx(fd) == i + 1
      ensures forall f: nat :: f != fd ==> Idx(f) == old(Idx(f))
      ensures changes[i] == old(Pending(fd, was))
      ensures changes == if old(Idx(fd)) > 0 then old(changes) else old(changes) + [changes[i]]
      ensures changes[i].fd == fd
    {
      hide Indexed;
      if Idx(fd) == 0 {
        i := |changes|;
        EntryMade(idxplus1, changes, fd, Change(fd, was, 0, 0, 0));
        changes := changes + [Change(fd, was, 0, 0, 0)];
        idxplus1 := idxplus1[fd := i + 1];
      } else {
        EntryOf(idxplus1, changes, fd);
        i := Idx(fd) - 1;
      }
    }

    /** Puts down `c` as the change of its descriptor. */
    method SetEntry(i: nat, c: Change)
      requires IndexOk() && i < |changes| && c.fd == changes[i].fd
      modifies this`changes
      ensures IndexOk() && changes == old(changes)[i := c]
    {
      hide Indexed;
      EntrySet(idxplus1, changes, i, c);
      changes := changes[i := c];
    }

    /** Notes that `events` are now wanted. An add replaces a delete. */
    method ChangelistAdd(fd: nat, was: Interest, events: Interest)
      requires IndexOk() && useChangelist
      modifies this`idxplus1, this`changes
      ensures IndexOk() && Idx(fd) > 0
      ensures Pending(fd, was) == WithAdds(old(Pending(fd, was)), events)
      ensures forall f: nat, w :: f != fd ==> Pending(f, w) == old(Pending(f, w))
    {
      hide WithAdds, Indexed;
      OthersElsewhere(idxplus1, changes, fd);
      var i := GetOrConstruct(fd, was);
      OthersElsewhere(idxplus1, changes, fd);
      var c := NoteAdds(changes[i], events);
      SetEntry(i, c);
    }

    /** Notes that `events` are no longer wanted. Deleting what was not there undoes an add. */
    method ChangelistDel(fd: nat, was: Interest, events: Interest)
      requires IndexOk() && useChangelist
      modifies this`idxplus1, this`changes
      ensures IndexOk() && Idx(fd) > 0
      ensures Pending(fd, was) == WithDels(old(Pending(fd, was)), events)
      ensures forall f: nat, w :: f != fd ==> Pending(f, w) == old(Pending(f, w))
    {
      hide WithDels, Indexed;
      OthersElsewhere(idxplus1, changes, fd);
      var i := GetOrConstruct(fd, was);
      OthersElsewhere(idxplus1, changes, fd);
      var c := NoteDels(changes[i], events);
      SetEntry(i, c);
    }

    /** Either the step is only noted for `fd`, or the kernel now has `fd` right; nothing else differs. */
    twostate predicate Told(fd: nat, was: Interest, now: Interest)
      requires old(IndexOk()) && IndexOk()
      reads this`idxplus1, this`changes, this`kernel
    {
      && (forall f: nat, w :: f != fd ==> Pending(f, w) == old(Pending(f, w)))
      && Heads(fd, now)
      && (if useChangelist then kernel == old(kernel) && Pending(fd, now).was == old(Pending(fd, was)).was
          else KernelSame(fd) && Registered(kernel, fd, now))
    }

    /** Tells the backend that `events` are wanted on `fd` too. */
    method BackendAdd(fd: nat, was: Interest, events: Interest)
      requires IndexOk() && Heads(fd, was) && !events.IsEmpty()
      modifies this`idxplus1, this`changes, this`kernel
      ensures IndexOk() && Told(fd, was, was.Plus(events)) && Heads(fd, was.Plus(events))
      ensures forall f: nat, w :: f != fd && old(Heads(f, w)) ==> Heads(f, w)
      ensures useChangelist ==> kernel == old(kernel)
      ensures !useChangelist ==> KernelSame(fd) && Registered(kernel, fd, was.Plus(events))
    {
      hide Leads, WithAdds;
      AddsLead(Pending(fd, was), was, events);
      if useChangelist {
        ChangelistAdd(fd, was, events);
      } else {
        var c := NoteAdds(Change(fd, was, 0, 0, 0), events);
        AddsTarget(c, fd, was, events);
        NothingLeads(fd, was.Plus(events));
        var ok := EpollApplyOneChange(c);
      }
    }

    /** Tells the backend that `events` are no longer wanted on `fd`. */
    method BackendDel(fd: nat, was: Interest, events: Interest)
      requires IndexOk() && Heads(fd, was) && !events.IsEmpty()
      modifies this`idxplus1, this`changes, this`kernel
      ensures IndexOk() && Told(fd, was, was.Minus(events)) && Heads(fd, was.Minus(events))
      ensures forall f: nat, w :: f != fd && old(Heads(f, w)) ==> Heads(f, w)
      ensures useChangelist ==> kernel == old(kernel)
      ensures !useChangelist ==> KernelSame(fd) && Registered(kernel, fd, was.Minus(events))
    {
      hide Leads, WithDels;
      DelsLead(Pending(fd, was), was, events);
      if useChangelist {
        ChangelistDel(fd, was, events);
      } else {
        var c := Change(fd, was, if events.read then DEL else 0, if events.write then DEL else 0,
                        if events.close then DEL else 0);
        NothingLeads(fd, was.Minus(events));
        var ok := EpollApplyOneChange(c);
      }
    }

    /** Telling the backend, or leaving `fd` as it is, keeps the kernel in step. */
    twostate lemma StaysSynced(fd: nat)
      requires old(IndexOk()) && IndexOk()
      requires forall f: nat :: f != fd ==> Wanted(f) == old(Wanted(f))
      requires || Told(fd, old(Wanted(fd)), Wanted(fd))
               || (Wanted(fd) == old(Wanted(fd)) && unchanged(this`idxplus1, this`changes, this`kernel))
      ensures old(Synced()) ==> Synced()
    {
      hide Registered, Leads;
      if old(Synced()) {
        forall f: nat
          ensures Registered(kernel, f, Settled(f))
        {
          assert old(Registered(kernel, f, Settled(f)));
          if f != fd && !useChangelist {
            SameRegistered(kernel, old(kernel), f, Settled(f));
          }
        }
      }
    }

    /** Adds an event: -1 if there are too many, 1 if the backend was told, else 0. */
    method IoAdd(fd: int, ev: Event) returns (r: int)
      requires Valid() && ev.fd == fd && ev !in Events(fd)
      modifies this`io, this`idxplus1, this`changes, this`kernel
      ensures Valid()
      ensures r == -1 <==> fd >= 0 && TooMany(old(Events(fd)), ev.events)
      ensures forall f :: Events(f) == if f == fd && fd >= 0 && r != -1 then [ev] + old(Events(f)) else old(Events(f))
      ensures r == 1 <==> fd >= 0 && Wanted(fd) != old(Wanted(fd))
      ensures if useChangelist || r != 1 then kernel == old(kernel)
              else KernelSame(fd) && fd >= 0 && Registered(kernel, fd, Wanted(fd))
      ensures old(Synced()) ==> Synced()
    {
      hide Leads, Slot.Ok, Count, Registered, TooMany, SameAt, Distinct, Without, Told, Heads, Pending, IndexOk,
          Synced, KernelSame;
      if fd < 0 {
        return 0;
      }
      var slot := if fd in io then io[fd] else Slot(0, 0, 0, []);
      EmptySlot(fd);
      var was := slot.Wanted();
      assert Heads(fd, Wanted(fd)) && Wanted(fd) == was;
      var nread := slot.nread + if ev.events.read then 1 else 0;
      var nwrite := slot.nwrite + if ev.events.write then 1 else 0;
      var nclose := slot.nclose + if ev.events.close then 1 else 0;
      var res := Interest(ev.events.read && nread == 1, ev.events.write && nwrite == 1, ev.events.close && nclose == 1);
      SlotCons(fd, slot, ev);
      r := 0;
      if nread > MAX_COUNT || nwrite > MAX_COUNT || nclose > MAX_COUNT {
        Store(fd, slot);
        r := -1;
      } else {
        if !res.IsEmpty() {
          BackendAdd(fd, was, res);
          r := 1;
        }
        Store(fd, Slot(nread, nwrite, nclose, [ev] + slot.events));
      }
      StaysSynced(fd);
    }

    /** Removes an event: -1 if the descriptor is not known, 1 if the backend was told, else 0. */
    method IoDel(fd: int, ev: Event) returns (r: int)
      requires Valid() && ev.fd == fd && (fd in io ==> ev in Events(fd))
      modifies this`io, this`idxplus1, this`changes, this`kernel
      ensures Valid()
      ensures r == -1 <==> fd >= 0 && fd !in old(io)
      ensures forall f :: Events(f) == if f == fd && fd >= 0 then Without(old(Events(f)), ev) else old(Events(f))
      ensures r == 1 <==> fd >= 0 && Wanted(fd) != old(Wanted(fd))
      ensures if useChangelist || r != 1 then kernel == old(kernel)
              else KernelSame(fd) && fd >= 0 && Registered(kernel, fd, Wanted(fd))
      ensures old(Synced()) ==> Synced()
    {
      hide Leads, Slot.Ok, Count, Registered, TooMany, SameAt, Distinct, Without, Told, Heads, Pending, IndexOk,
          Synced, KernelSame;
      if fd < 0 {
        return 0;
      }
      if fd !in io {
        return -1;
      }
      var slot := io[fd];
      var was := slot.Wanted();
      assert Heads(fd, Wanted(fd)) && Wanted(fd) == was;
      SlotWithout(fd, slot, ev);
      var nread := slot.nread - if ev.events.read then 1 else 0;
      var nwrite := slot.nwrite - if ev.events.write then 1 else 0;
      var nclose := slot.nclose - if ev.events.close then 1 else 0;
      var res := Interest(ev.events.read && nread == 0, ev.events.write && nwrite == 0, ev.events.close && nclose == 0);
      r := 0;
      if !res.IsEmpty() {
        BackendDel(fd, was, res);
        r := 1;
      }
      assert Heads(fd, was.Minus(res));
      Store(fd, Slot(nread, nwrite, nclose, Without(slot.events, ev)));
      StaysSynced(fd);
    }

    /** `fd` has a pending change that is more than a no-op. */
    ghost predicate Changed(fd: nat)
      requires IndexOk()
      reads this`idxplus1, this`changes
    {
      Idx(fd) > 0 && !changes[Idx(fd) - 1].IsNoop()
    }

    lemma LeadsAt(i: nat)
      requires Valid() && i < |changes|
      ensures changes[i].Possible() && changes[i].Target() == Wanted(changes[i].fd)
    {
      assert Heads(changes[i].fd, Wanted(changes[i].fd));
    }

    /** `k` is kernel `was` after the first `n` pending changes. */
    ghost predicate AppliedUpTo(n: nat, k: Kernel, was: Kernel)
      requires IndexOk()
      reads this`io, this`idxplus1, this`changes
    {
      forall fd: nat :: if Changed(fd) && Idx(fd) <= n then Registered(k, fd, Wanted(fd)) else SameAt(k, was, fd)
    }

    lemma OneMoreApplied(n: nat, k: Kernel, before: Kernel, was: Kernel)
      requires IndexOk() && n < |changes| && AppliedUpTo(n, before, was)
      requires forall f: nat :: f != changes[n].fd ==> SameAt(k, before, f)
      requires changes[n].IsNoop() ==> k == before
      requires !changes[n].IsNoop() ==> Registered(k, changes[n].fd, Wanted(changes[n].fd))
      ensures AppliedUpTo(n + 1, k, was)
    {
      hide Registered, SameAt, Change.IsNoop, Wanted;
      assert Idx(changes[n].fd) == n + 1;
      forall fd: nat
        ensures if Changed(fd) && Idx(fd) <= n + 1 then Registered(k, fd, Wanted(fd)) else SameAt(k, was, fd)
      {
        if fd != changes[n].fd {
          SameTrans(k, before, was, fd);
          if Changed(fd) && Idx(fd) <= n {
            SameRegistered(k, before, fd, Wanted(fd));
          }
        }
      }
    }

    lemma NoneApplied()
      requires IndexOk()
      ensures AppliedUpTo(0, kernel, kernel)
    {
    }

    /** Carries out the pending changes in order. */
    method ApplyChanges() returns (ok: bool)
      requires Valid()
      modifies this`kernel
      ensures ok && AppliedUpTo(|changes|, kernel, old(kernel))
    {
      hide AppliedUpTo, Registered, Change.Target, Change.Possible, Change.IsNoop, SlotsOk, ChangesOk, SameAt, Wanted;
      ok := true;
      NoneApplied();
      for i := 0 to |changes|
        modifies this`kernel
        invariant ok && AppliedUpTo(i, kernel, old(kernel))
      {
        ghost var before := kernel;
        LeadsAt(i);
        label Step:
        var done := EpollApplyOneChange(changes[i]);
        assert KernelSame@Step(changes[i].fd);
        OneMoreApplied(i, kernel, before, old(kernel));
        ok := ok && done;
      }
    }

    /** Forgets all pending changes. */
    method RemoveAll()
      requires IndexOk()
      modifies this`idxplus1, this`changes
      ensures IndexOk() && changes == []
    {
      for i := 0 to |changes|
        modifies this`idxplus1
        invariant forall fd: nat :: Idx(fd) == if old(Idx(fd)) <= i then 0 else old(Idx(fd))
      {
        assert old(Idx(changes[i].fd)) == i + 1;
        assert Idx(changes[i].fd) == i + 1;
        idxplus1 := idxplus1[changes[i].fd := 0];
      }
      forall fd: nat
        ensures IdxIn(idxplus1, fd) == 0
      {
        EntryOf(old(idxplus1), changes, fd);
        assert Idx(fd) == 0;
      }
      changes := [];
    }

    /**
     * Carries out the pending changes. A descriptor that had one is then registered for what is
     * wanted, whatever the kernel held for it before; all others are left alone.
     */
    method Dispatch() returns (ok: bool)
      requires Valid()
      modifies this`idxplus1, this`changes, this`kernel
      ensures Valid() && ok && changes == []
      ensures forall fd: nat :: Registered(kernel, fd, Wanted(fd)) <==>
          old(Changed(fd)) || Registered(old(kernel), fd, Wanted(fd))
      ensures forall fd: nat :: !old(Changed(fd)) ==> SameAt(kernel, old(kernel), fd)
      ensures old(Synced()) ==> Synced() && forall fd: nat :: Registered(kernel, fd, Wanted(fd))
    {
      hide Leads, Slot.Ok, Registered, SameAt;
      ok := ApplyChanges();
      assert AppliedUpTo(|changes|, kernel, old(kernel));
      forall fd: nat
        ensures Registered(kernel, fd, Wanted(fd)) <==> Changed(fd) || Registered(old(kernel), fd, Wanted(fd))
        ensures old(Synced()) ==> Registered(kernel, fd, Wanted(fd))
      {
        if !Changed(fd) {
          SameSym(kernel, old(kernel), fd);
          if Registered(kernel, fd, Wanted(fd)) {
            SameRegistered(old(kernel), kernel, fd, Wanted(fd));
          }
          if old(Synced()) {
            assert old(Registered(kernel, fd, Settled(fd)));
            assert Heads(fd, Wanted(fd));
            LeadsNowhere(Pending(fd, Wanted(fd)), Wanted(fd));
          }
          if Registered(old(kernel), fd, Wanted(fd)) {
            SameRegistered(kernel, old(kernel), fd, Wanted(fd));
          }
        }
      }
      RemoveAll();
      forall fd: nat
        ensures Heads(fd, Wanted(fd))
      {
        NothingLeads(fd, Wanted(fd));
      }
    }

    /** Stores the counts of `fd`, which the backend has heard of. */
    method Store(fd: nat, slot: Slot)
      requires SlotsOk() && IndexOk() && slot.Ok(fd)
      requires Heads(fd, slot.Wanted()) && forall f: nat :: f != fd ==> Heads(f, Wanted(f))
      modifies this`io
      ensures Valid() && io == old(io)[fd := slot]
    {
      hide Leads, Slot.Ok, Heads;
      io := io[fd := slot];
      forall f: nat
        ensures Heads(f, Wanted(f))
      {
        assert f != fd ==> Wanted(f) == old(Wanted(f));
      }
    }
  }

  lemma NoneAsked()
    ensures Asked([]) == NONE
  {
  }

  lemma EmptySlot(fd: nat)
    ensures Slot(0, 0, 0, []).Ok(fd) && Slot(0, 0, 0, []).Wanted() == NONE
  {
  }

  lemma NothingLeads(fd: nat, now: Interest)
    ensures Leads(Change(fd, now, 0, 0, 0), now)
  {
  }

  lemma SlotCons(fd: nat, slot: Slot, ev: Event)
    requires slot.Ok(fd) && ev.fd == fd && ev !in slot.events
    ensures var nread := slot.nread + if ev.events.read then 1 else 0;
            var nwrite := slot.nwrite + if ev.events.write then 1 else 0;
            var nclose := slot.nclose + if ev.events.close then 1 else 0;
            var res := Interest(ev.events.read && nread == 1, ev.events.write && nwrite == 1, ev.events.close
                && nclose == 1);
            var next := Slot(nread, nwrite, nclose, [ev] + slot.events);
            && (TooMany(slot.events, ev.events) <==> nread > MAX_COUNT || nwrite > MAX_COUNT || nclose > MAX_COUNT)
            && (!TooMany(slot.events, ev.events) ==> next.Ok(fd))
            && next.Wanted() == slot.Wanted().Plus(res)
            && (res.IsEmpty() <==> next.Wanted() == slot.Wanted())
  {
    assert ([ev] + slot.events)[1..] == slot.events;
  }

  lemma SameRegistered(k: Kernel, l: Kernel, fd: nat, events: Interest)
    requires SameAt(k, l, fd) && Registered(l, fd, events)
    ensures Registered(k, fd, events)
  {
  }

  lemma SlotWithout(fd: nat, slot: Slot, ev: Event)
    requires slot.Ok(fd) && ev in slot.events
    ensures var nread: int := slot.nread - if ev.events.read then 1 else 0;
            var nwrite: int := slot.nwrite - if ev.events.write then 1 else 0;
            var nclose: int := slot.nclose - if ev.events.close then 1 else 0;
            var res := Interest(ev.events.read && nread == 0, ev.events.write && nwrite == 0, ev.events.close
                && nclose == 0);
            && nread >= 0 && nwrite >= 0 && nclose >= 0
            && Slot(nread, nwrite, nclose, Without(slot.events, ev)).Ok(fd)
            && Slot(nread, nwrite, nclose, Without(slot.events, ev)).Wanted() == slot.Wanted().Minus(res)
            && (res.IsEmpty() ==> slot.Wanted().Minus(res) == slot.Wanted())
            && (!res.IsEmpty() ==> slot.Wanted().Minus(res) != slot.Wanted())
  {
    WithoutCount(slot.events, ev, R);
    WithoutCount(slot.events, ev, W);
    WithoutCount(slot.events, ev, C);
    WithoutIs(slot.events, ev);
    var r := Without(slot.events, ev);
    forall k | 0 <= k < |r|
      ensures r[k].fd == fd
    {
      assert r[k] in slot.events;
    }
  }

  lemma SameSym(k: Kernel, l: Kernel, fd: nat)
    requires SameAt(k, l, fd)
    ensures SameAt(l, k, fd)
  {
  }

  lemma SameTrans(k: Kernel, l: Kernel, m: Kernel, fd: nat)
    requires SameAt(k, l, fd)
    ensures SameAt(l, m, fd) ==> SameAt(k, m, fd)
  {
  }

  lemma LeadsNowhere(c: Change, wanted: Interest)
    requires Leads(c, wanted) && c.IsNoop()
    ensures c.was == wanted
  {
  }

  /** What the caller asks of an event base. */
  datatype Step = Adding(ev: Event) | Deleting(ev: Event) | Dispatching

  /** The events pending on `fd` after the steps, by their meaning alone. */
  ghost function EventsAfter(steps: seq<Step>, fd: int): seq<Event> {
    if |steps| == 0 then []
    else
      var events := EventsAfter(steps[..|steps| - 1], fd);
      match steps[|steps| - 1]
      case Adding(ev) =>
        if ev.fd == fd >= 0 && ev !in events && !TooMany(events, ev.events) then [ev] + events else events
      case Deleting(ev) => if ev.fd == fd >= 0 then Without(events, ev) else events
      case Dispatching => events
  }

  /** Runs the steps; a pending event is not added again, and one not pending is not deleted. */
  method Run(base: EventBase, steps: seq<Step>)
    requires base.Valid() && base.Synced() && base.io == map[]
    modifies base`io, base`idxplus1, base`changes, base`kernel
    ensures base.Valid() && base.Synced()
    ensures forall fd: int :: base.Events(fd) == EventsAfter(steps, fd)
  {
    hide EventBase.SlotsOk, EventBase.IndexOk, EventBase.ChangesOk, EventBase.Synced, TooMany, Without, Registered,
        SameAt, EventBase.Wanted;
    for i := 0 to |steps|
      invariant base.Valid() && base.Synced()
      invariant forall fd: int :: base.Events(fd) == EventsAfter(steps[..i], fd)
    {
      assert steps[..i + 1][..i] == steps[..i];
      match steps[i]
      case Adding(ev) =>
        if ev !in base.Events(ev.fd) {
          var r := base.IoAdd(ev.fd, ev);
        }
      case Deleting(ev) =>
        if ev in base.Events(ev.fd) {
          var r := base.IoDel(ev.fd, ev);
        }
      case Dispatching =>
        var ok := base.Dispatch();
    }
    assert steps[..|steps|] == steps;
  }

  /**
   * Collecting changes until a dispatch leaves the kernel where telling it each change at once does:
   * every descriptor is registered for exactly what the events pending on it ask for.
   */
  method CollectedIsDirect(steps: seq<Step>) returns (collected: Kernel, direct: Kernel)
    ensures collected == direct
    ensures forall fd: nat :: Registered(collected, fd, Asked(EventsAfter(steps, fd)))
    ensures forall fd: nat, ev :: ev in EventsAfter(steps, fd) && !ev.events.IsEmpty() ==> fd in collected
    ensures forall fd: nat :: fd in collected ==>
      && (collected[fd].read <==> exists ev :: ev in EventsAfter(steps, fd) && ev.events.read)
      && (collected[fd].write <==> exists ev :: ev in EventsAfter(steps, fd) && ev.events.write)
      && (collected[fd].close <==> exists ev :: ev in EventsAfter(steps, fd) && ev.events.close)
  {
    var c := new EventBase(true);
    Run(c, steps);
    var ok := c.Dispatch();
    var d := new EventBase(false);
    Run(d, steps);
    collected, direct := c.kernel, d.kernel;
    forall fd: nat
      ensures Registered(collected, fd, Asked(EventsAfter(steps, fd)))
      ensures Registered(direct, fd, Asked(EventsAfter(steps, fd)))
    {
      c.WantedIsAsked(fd);
      d.WantedIsAsked(fd);
      assert Registered(d.kernel, fd, d.Settled(fd));
    }
    SameKernel(collected, direct, steps);
    KernelAsks(collected, steps);
  }

  lemma KernelAsks(k: Kernel, steps: seq<Step>)
    requires forall fd: nat :: Registered(k, fd, Asked(EventsAfter(steps, fd)))
    ensures forall fd: nat, ev :: ev in EventsAfter(steps, fd) && !ev.events.IsEmpty() ==> fd in k
    ensures forall fd: nat :: fd in k ==>
      && (k[fd].read <==> exists ev :: ev in EventsAfter(steps, fd) && ev.events.read)
      && (k[fd].write <==> exists ev :: ev in EventsAfter(steps, fd) && ev.events.write)
      && (k[fd].close <==> exists ev :: ev in EventsAfter(steps, fd) && ev.events.close)
  {
    hide EventsAfter, Asked;
    forall fd: nat
      ensures forall ev :: ev in EventsAfter(steps, fd) && !ev.events.IsEmpty() ==> fd in k
      ensures fd in k ==>
        && (k[fd].read <==> exists ev :: ev in EventsAfter(steps, fd) && ev.events.read)
        && (k[fd].write <==> exists ev :: ev in EventsAfter(steps, fd) && ev.events.write)
        && (k[fd].close <==> exists ev :: ev in EventsAfter(steps, fd) && ev.events.close)
    {
      assert Registered(k, fd, Asked(EventsAfter(steps, fd)));
      AskedIs(EventsAfter(steps, fd));
    }
  }

  lemma SameKernel(k: Kernel, l: Kernel, steps: seq<Step>)
    requires forall fd: nat :: Registered(k, fd, Asked(EventsAfter(steps, fd)))
    requires forall fd: nat :: Registered(l, fd, Asked(EventsAfter(steps, fd)))
    ensures k == l
  {
    hide Asked, EventsAfter;
    forall fd: nat
      ensures fd in k <==> fd in l
      ensures fd in k ==> k[fd] == l[fd]
    {
      assert Registered(k, fd, Asked(EventsAfter(steps, fd)));
      assert Registered(l, fd, Asked(EventsAfter(steps, fd)));
    }
  }
}
