/** Bufferevents whose reading and writing is limited, alone and in groups. */
module RateLimits {
  import opened Lists
  import opened TokenBuckets

  /** Why a direction is suspended. */
  datatype Reason = WM | BW | BW_GROUP | LOOKUP | FILT_READ

  const MAX_SINGLE_READ: nat := 16384

  class Bufferevent {
    const size: nat   // of a machine word
    var enabledRead: bool
    var enabledWrite: bool
    var readSuspended: set<Reason>
    var writeSuspended: set<Reason>
    var readArmed: bool   // the backend watches for input
    var maxSingleRead: nat
    var cfg: Config?
    var limit: Bucket
    var timerPending: bool   // the refill timer
    var group: Group?

    /** Input is watched for just when reading is enabled and nothing suspends it. */
    ghost predicate ArmedOk()
      reads this`readArmed, this`enabledRead, this`readSuspended
    {
      readArmed <==> enabledRead && readSuspended == {}
    }

    /** An exhausted bucket suspends its direction. */
    ghost predicate ExhaustedOk()
      reads this`cfg, this`limit, this`readSuspended, this`writeSuspended
    {
      cfg != null ==>
        && cfg.Ok(size) && limit.Ok(cfg, size)
        && (limit.readLimit <= 0 ==> BW in readSuspended)
        && (limit.writeLimit <= 0 ==> BW in writeSuspended)
    }

    /** What waits for bandwidth will be woken. */
    ghost predicate WakeOk()
      reads this`cfg, this`timerPending, this`readSuspended, this`writeSuspended
    {
      BW in readSuspended || BW in writeSuspended ==> cfg != null && timerPending
    }

    ghost predicate Valid()
      reads this
    {
      IsWord(size) && ArmedOk() && ExhaustedOk() && WakeOk()
    }

    constructor (size: nat)
      requires IsWord(size)
      ensures Valid() && this.size == size && group == null && cfg == null
      ensures readSuspended == {} && writeSuspended == {} && !enabledRead && !enabledWrite
      ensures maxSingleRead == MAX_SINGLE_READ
    {
      this.size := size;
      enabledRead, enabledWrite, readSuspended, writeSuspended, readArmed := false, false, {}, {}, false;
      maxSingleRead, cfg, limit, timerPending, group := MAX_SINGLE_READ, null, Bucket(0, 0, 0), false, null;
    }

    method SuspendRead(what: Reason)
      requires ArmedOk()
      modifies this`readSuspended, this`readArmed
      ensures ArmedOk() && readSuspended == old(readSuspended) + {what}
      ensures old(Valid()) && (what == BW ==> cfg != null && timerPending) ==> Valid()
    {
      if readSuspended == {} {
        readArmed := false;
      }
      readSuspended := readSuspended + {what};
    }

    method UnsuspendRead(what: Reason)
      requires ArmedOk()
      modifies this`readSuspended, this`readArmed
      ensures ArmedOk() && readSuspended == old(readSuspended) - {what}
      ensures old(Valid()) && what != BW ==> Valid()
    {
      readSuspended := readSuspended - {what};
      if readSuspended == {} && enabledRead {
        readArmed := true;
      }
    }

    method SuspendWrite(what: Reason)
      modifies this`writeSuspended
      ensures writeSuspended == old(writeSuspended) + {what}
      ensures old(Valid()) && (what == BW ==> cfg != null && timerPending) ==> Valid()
    {
      writeSuspended := writeSuspended + {what};
    }

    method UnsuspendWrite(what: Reason)
      modifies this`writeSuspended
      ensures writeSuspended == old(writeSuspended) - {what}
      ensures old(Valid()) && what != BW ==> Valid()
    {
      writeSuspended := writeSuspended - {what};
    }

    method Enable(read: bool, write: bool)
      requires Valid()
      modifies this`enabledRead, this`enabledWrite, this`readArmed
      ensures Valid()
      ensures enabledRead == (old(enabledRead) || read) && enabledWrite == (old(enabledWrite) || write)
    {
      var implRead := read && readSuspended == {};
      enabledRead, enabledWrite := enabledRead || read, enabledWrite || write;
      if implRead {
        readArmed := true;
      }
    }

    method Disable(read: bool, write: bool)
      requires Valid()
      modifies this`enabledRead, this`enabledWrite, this`readArmed
      ensures Valid()
      ensures enabledRead == (old(enabledRead) && !read) && enabledWrite == (old(enabledWrite) && !write)
    {
      enabledRead, enabledWrite := enabledRead && !read, enabledWrite && !write;
      if read {
        readArmed := false;
      }
    }

    /** Takes `bytes` from the bucket of its own, or puts some back. */
    method DecrementRead(bytes: int)
      requires Valid()
      requires cfg != null ==> Fits(limit.readLimit - bytes, size) && limit.readLimit - bytes <= cfg.readMaximum
      modifies this`limit, this`readSuspended, this`readArmed, this`timerPending
      ensures Valid() && readSuspended - {BW} == old(readSuspended) - {BW}
      ensures cfg == null ==> limit == old(limit) && readSuspended == old(readSuspended)
      ensures cfg != null ==> limit == old(limit).(readLimit := old(limit).readLimit - bytes)
                              && (BW in readSuspended <==> limit.readLimit <= 0)
      ensures timerPending == if cfg != null && limit.readLimit <= 0 then true
                              else if cfg != null && BW in old(readSuspended) && BW !in writeSuspended then false
                              else old(timerPending)
    {
      if cfg == null {
        return;
      }
      limit := limit.(readLimit := limit.readLimit - bytes);
      if limit.readLimit <= 0 {
        SuspendRead(BW);
        timerPending := true;
      } else if BW in readSuspended {
        if BW !in writeSuspended {
          timerPending := false;
        }
        UnsuspendRead(BW);
      }
    }

    method DecrementWrite(bytes: int)
      requires Valid()
      requires cfg != null ==> Fits(limit.writeLimit - bytes, size) && limit.writeLimit - bytes <= cfg.writeMaximum
      modifies this`limit, this`writeSuspended, this`timerPending
      ensures Valid() && writeSuspended - {BW} == old(writeSuspended) - {BW}
      ensures cfg == null ==> limit == old(limit) && writeSuspended == old(writeSuspended)
      ensures cfg != null ==> limit == old(limit).(writeLimit := old(limit).writeLimit - bytes)
                              && (BW in writeSuspended <==> limit.writeLimit <= 0)
      ensures timerPending == if cfg != null && limit.writeLimit <= 0 then true
                              else if cfg != null && BW in old(writeSuspended) && BW !in readSuspended then false
                              else old(timerPending)
    {
      if cfg == null {
        return;
      }
      limit := limit.(writeLimit := limit.writeLimit - bytes);
      if limit.writeLimit <= 0 {
        SuspendWrite(BW);
        timerPending := true;
      } else if BW in writeSuspended {
        if BW !in readSuspended {
          timerPending := false;
        }
        UnsuspendWrite(BW);
      }
    }

    /** Brings the bucket up to date. */
    method UpdateBuckets(tick: nat)
      requires Valid() && cfg != null && tick < TICK_WRAP
      modifies this`limit
      ensures Valid() && limit == Refilled(old(limit), cfg, tick)
      ensures old(limit).readLimit <= limit.readLimit && old(limit).writeLimit <= limit.writeLimit
    {
      hide Refilled;
      if tick != limit.lastUpdated {
        var ticked;
        limit, ticked := BucketUpdate(limit, cfg, tick, size);
      } else {
        SameTick(limit, cfg);
      }
    }

    /** How much may be read as far as the bucket of its own goes. */
    method OwnMax(tick: nat) returns (most: int)
      requires Valid() && tick < TICK_WRAP
      modifies this`limit
      ensures Valid() && most == if cfg != null then limit.readLimit else maxSingleRead
      ensures cfg != null ==> limit == Refilled(old(limit), cfg, tick) && old(limit).readLimit <= limit.readLimit
      ensures cfg == null ==> limit == old(limit)
    {
      hide Refilled;
      most := maxSingleRead;
      if cfg != null {
        UpdateBuckets(tick);
        most := limit.readLimit;
      }
    }

    /** The refill timer has fired. */
    method RefillCallback(tick: nat)
      requires Valid() && timerPending && tick < TICK_WRAP
      modifies this`limit, this`readSuspended, this`writeSuspended, this`readArmed, this`timerPending
      ensures Valid()
      ensures readSuspended - {BW} == old(readSuspended) - {BW} && writeSuspended - {BW} == old(writeSuspended) - {BW}
      ensures if cfg == null then limit == old(limit) && !timerPending
              else && limit == Refilled(old(limit), cfg, tick)
                   && (BW in readSuspended <==> BW in old(readSuspended) && limit.readLimit <= 0)
                   && (BW in writeSuspended <==> BW in old(writeSuspended) && limit.writeLimit <= 0)
                   && (timerPending <==> BW in readSuspended || BW in writeSuspended)
    {
      hide Refilled;
      timerPending := false;
      if cfg == null {
        return;
      }
      var again := false;
      var ticked;
      limit, ticked := BucketUpdate(limit, cfg, tick, size);
      if BW in readSuspended {
        if limit.readLimit > 0 {
          UnsuspendRead(BW);
        } else {
          again := true;
        }
      }
      if BW in writeSuspended {
        if limit.writeLimit > 0 {
          UnsuspendWrite(BW);
        } else {
          again := true;
        }
      }
      if again {
        timerPending := true;
      }
    }

    /** Sets the limits, or lifts them. */
    method SetRateLimit(c: Config?, tick: nat)
      requires Valid() && tick < TICK_WRAP && (c != null ==> c.Ok(size))
      modifies this`cfg, this`limit, this`readSuspended, this`writeSuspended, this`readArmed, this`timerPending
      ensures Valid() && cfg == c
      ensures readSuspended - {BW} == old(readSuspended) - {BW} && writeSuspended - {BW} == old(writeSuspended) - {BW}
      ensures if c == null then limit == old(limit) && BW !in readSuspended && BW !in writeSuspended && !timerPending
              else if c == old(cfg) then unchanged(this)
              else && (BW in readSuspended <==> limit.readLimit <= 0)
                   && (BW in writeSuspended <==> limit.writeLimit <= 0)
                   && (timerPending <==> BW in readSuspended || BW in writeSuspended)
                   && (old(cfg) == null ==> limit == Bucket(c.readRate, c.writeRate, tick))
                   && (old(cfg) != null ==> limit == Bucket(Topped(old(limit).readLimit, 0, c.readMaximum, 0),
                                                            Topped(old(limit).writeLimit, 0, c.writeMaximum, 0),
                                                            old(limit).lastUpdated))
    {
      hide Topped, IsWord, Config.Ok, Bucket.Ok, Fits;
      if c == null {
        cfg := null;
        UnsuspendRead(BW);
        UnsuspendWrite(BW);
        timerPending := false;
        return;
      }
      if cfg == c {
        return;
      }
      ChangeLimits(c, tick);
    }

    /** Sets new limits. What is in the bucket stays, up to the new maximum. */
    method ChangeLimits(c: Config, tick: nat)
      requires Valid() && tick < TICK_WRAP && c.Ok(size)
      modifies this`cfg, this`limit, this`readSuspended, this`writeSuspended, this`readArmed, this`timerPending
      ensures Valid() && cfg == c
      ensures readSuspended - {BW} == old(readSuspended) - {BW} && writeSuspended - {BW} == old(writeSuspended) - {BW}
      ensures (BW in readSuspended <==> limit.readLimit <= 0) && (BW in writeSuspended <==> limit.writeLimit <= 0)
      ensures timerPending <==> BW in readSuspended || BW in writeSuspended
      ensures old(cfg) == null ==> limit == Bucket(c.readRate, c.writeRate, tick)
      ensures old(cfg) != null ==> limit == Bucket(Topped(old(limit).readLimit, 0, c.readMaximum, 0),
                                                   Topped(old(limit).writeLimit, 0, c.writeMaximum, 0),
                                                   old(limit).lastUpdated)
    {
      hide Topped, IsWord, Config.Ok, Bucket.Ok, Fits;
      var reinit := cfg != null;
      if reinit {
        BucketFits(limit, cfg, size);
      }
      cfg := c;
      limit := BucketInit(limit, c, tick, reinit, size);
      timerPending := false;
      var suspended := false;
      if limit.readLimit > 0 {
        UnsuspendRead(BW);
      } else {
        SuspendRead(BW);
        suspended := true;
      }
      if limit.writeLimit > 0 {
        UnsuspendWrite(BW);
      } else {
        SuspendWrite(BW);
        suspended := true;
      }
      if suspended {
        timerPending := true;
      }
    }

    /** How far both buckets are from letting something through. */
    ghost function Lacking(): nat
      reads this`limit, this`timerPending
    {
      (if limit.readLimit <= 0 then 1 - limit.readLimit else 0)
      + (if limit.writeLimit <= 0 then 1 - limit.writeLimit else 0) + if timerPending then 1 else 0
    }

    /**
     * No wakeup is lost: let the timer fire each tick for as long as it is pending, and nothing
     * waits for bandwidth any more. Reading goes on, if enabled and not suspended for another reason.
     */
    method LetTimerRun(start: nat) returns (tick: nat)
      requires Valid() && start < TICK_WRAP && (cfg != null ==> limit.lastUpdated == start)
      modifies this`limit, this`readSuspended, this`writeSuspended, this`readArmed, this`timerPending
      ensures Valid() && !timerPending
      ensures readSuspended == old(readSuspended) - {BW} && writeSuspended == old(writeSuspended) - {BW}
      ensures readArmed <==> enabledRead && old(readSuspended) <= {BW}
    {
      tick := start;
      while timerPending
        invariant Valid() && tick < TICK_WRAP && (cfg != null ==> limit.lastUpdated == tick)
        invariant readSuspended - {BW} == old(readSuspended) - {BW}
        invariant writeSuspended - {BW} == old(writeSuspended) - {BW}
        decreases Lacking()
      {
        tick := (tick + 1) % TICK_WRAP;
        if cfg != null {
          OneTick(limit, cfg, tick);
        }
        RefillCallback(tick);
      }
    }
  }

  lemma BucketFits(b: Bucket, cfg: Config, size: nat)
    requires b.Ok(cfg, size)
    ensures Fits(b.readLimit, size) && Fits(b.writeLimit, size) && b.lastUpdated < TICK_WRAP
  {
  }

  lemma SameTick(b: Bucket, cfg: Config)
    ensures Refilled(b, cfg, b.lastUpdated) == b
  {
  }

  lemma OneTick(b: Bucket, cfg: Config, tick: nat)
    requires b.lastUpdated < TICK_WRAP && tick == (b.lastUpdated + 1) % TICK_WRAP
    requires cfg.readRate >= 1 && cfg.writeRate >= 1
    ensures var r := Refilled(b, cfg, tick);
            && r.lastUpdated == tick
            && r.readLimit == Topped(b.readLimit, cfg.readRate, cfg.readMaximum, 1)
            && r.writeLimit == Topped(b.writeLimit, cfg.writeRate, cfg.writeMaximum, 1)
  {
    ElapsedWraps(b.lastUpdated, 1);
  }

  const SINGLE_SHARE: nat := 64

  function LeastOf(x: nat, y: nat): nat {
    if x < y then x else y
  }

  ghost function Sum(grants: seq<nat>): nat {
    if |grants| == 0 then 0 else grants[0] + Sum(grants[1..])
  }

  lemma {:induction false} SumChange(grants: seq<nat>, i: nat, x: nat)
    requires i < |grants|
    ensures Sum(grants[i := x]) == Sum(grants) - grants[i] + x
  {
    if i == 0 {
      assert grants[0 := x][1..] == grants[1..];
    } else {
      assert grants[i := x][1..] == grants[1..][i - 1 := x];
      SumChange(grants[1..], i - 1, x);
    }
  }

  /** How many grants are outstanding. */
  function Open(grants: seq<nat>): nat {
    if |grants| == 0 then 0 else Open(grants[1..]) + if grants[0] > 0 then 1 else 0
  }

  lemma {:induction false} OpenChange(grants: seq<nat>, i: nat, x: nat)
    requires i < |grants|
    ensures Open(grants[i := x]) ==
            Open(grants) + (if x > 0 then 1 else 0) - if grants[i] > 0 then 1 else 0
  {
    if i == 0 {
      assert grants[0 := x][1..] == grants[1..];
    } else {
      assert grants[i := x][1..] == grants[1..][i - 1 := x];
      OpenChange(grants[1..], i - 1, x);
    }
  }

  lemma {:induction false} OpenAtMost(grants: seq<nat>, i: nat)
    requires i < |grants| && grants[i] == 0
    ensures Open(grants) < |grants|
  {
    OpenAll(grants[1..]);
    if i > 0 {
      OpenAtMost(grants[1..], i - 1);
    }
  }

  lemma {:induction false} OpenAll(grants: seq<nat>)
    ensures Open(grants) <= |grants|
  {
    if |grants| > 0 {
      OpenAll(grants[1..]);
    }
  }

  lemma {:induction false} SumAtMost(grants: seq<nat>, cap: nat)
    requires forall k :: 0 <= k < |grants| ==> grants[k] <= cap
    ensures Sum(grants) <= Open(grants) * cap
    ensures forall k :: 0 <= k < |grants| ==> grants[k] <= Sum(grants)
  {
    if |grants| > 0 {
      SumAtMost(grants[1..], cap);
      var n := Open(grants[1..]);
      assert (n + 1) * cap == n * cap + cap;
      assert forall k :: 0 < k < |grants| ==> grants[k] == grants[1..][k - 1];
    }
  }

  lemma {:induction false} SumNone(grants: seq<nat>)
    requires forall k :: 0 <= k < |grants| ==> grants[k] == 0
    ensures Sum(grants) == 0 == Open(grants)
  {
    if |grants| > 0 {
      SumNone(grants[1..]);
    }
  }

  /**
   * At most `k` grants are outstanding, and none is over `cap`. What `limit` will be once all are taken
   * is more than minus a share and a cap for each but one of the `k`, which together are counted in a word.
   */
  ghost predicate CoveredBy(k: nat, limit: int, grants: seq<nat>, share: nat, cap: nat, size: nat) {
    && k > 0 && Open(grants) <= k
    && (forall j :: 0 <= j < |grants| ==> grants[j] <= cap)
    && 0 < limit - Sum(grants) + (k - 1) * cap + share
    && (k - 1) * cap + share <= size / 2
  }

  lemma NoneCovered(k: nat, limit: int, grants: seq<nat>, share: nat, cap: nat, size: nat)
    requires forall j :: 0 <= j < |grants| ==> grants[j] == 0
    requires k > 0 && 0 < limit + share && (k - 1) * cap + share <= size / 2
    ensures CoveredBy(k, limit, grants, share, cap, size)
  {
    SumNone(grants);
    MulGrows(0, k - 1, cap);
  }

  /** One more grant, no more than the share or what is in the bucket, and none from an empty bucket. */
  lemma AskStays(k: nat, limit: int, grants: seq<nat>, who: nat, r: nat, share: nat, cap: nat, size: nat)
    requires CoveredBy(k, limit, grants, share, cap, size) && share >= 1
    requires who < |grants| && grants[who] == 0 && Open(grants) < k
    requires r == 0 || (limit > 0 && r <= cap && (r <= share || r <= limit))
    ensures CoveredBy(k, limit, grants[who := r], share, cap, size)
  {
    hide Sum, Open;
    SumChange(grants, who, r);
    OpenChange(grants, who, r);
    SumAtMost(grants, cap);
    assert Open(grants) * cap <= (k - 1) * cap by {
      MulGrows(Open(grants), k - 1, cap);
    }
  }

  lemma MulGrows(m: nat, n: nat, x: nat)
    requires m <= n
    ensures m * x <= n * x
  {
    assert (n - m) * x >= 0;
  }

  /** A grant is given up, of which `bytes` were taken. */
  lemma TakeStays(k: nat, limit: int, grants: seq<nat>, who: nat, bytes: nat, share: nat, cap: nat, size: nat)
    requires CoveredBy(k, limit, grants, share, cap, size) && who < |grants| && bytes <= grants[who]
    ensures CoveredBy(k, limit - bytes, grants[who := 0], share, cap, size)
    ensures -(size / 2) < limit - bytes
  {
    hide Sum, Open;
    SumChange(grants, who, 0);
    OpenChange(grants, who, 0);
    SumAtMost(grants, cap);
  }

  /** Why a member is held back when the group is, or was and is no longer, if it could be locked. */
  function HeldBack(was: set<Reason>, locked: bool, wasHeld: bool, held: bool): set<Reason> {
    if !locked then was else if held then was + {BW_GROUP} else if wasHeld then was - {BW_GROUP} else was
  }

  lemma HeldBackOther(was: set<Reason>, own: set<Reason>, locked: bool, wasHeld: bool, held: bool)
    requires was - {BW} == own - {BW}
    ensures HeldBack(was, locked, wasHeld, held) - {BW} == HeldBack(own, locked, wasHeld, held) - {BW}
    ensures BW in HeldBack(own, locked, wasHeld, held) <==> BW in own
  {
    forall x
      ensures x in HeldBack(was, locked, wasHeld, held) - {BW} <==> x in HeldBack(own, locked, wasHeld, held) - {BW}
    {
      assert x in was - {BW} <==> x in own - {BW};
    }
  }

  /** Bufferevents that share a bucket. Only reading is followed here; writing is the same. */
  class Group {
    const size: nat
    const cfg: Config
    var limit: Bucket
    var minShare: nat
    var readSuspended: bool
    var pendingUnsuspend: bool   // some member could not be locked to unsuspend it
    var members: seq<Bufferevent>
    var totalRead: int
    // What each member that is between asking and taking may read: a local variable of whoever reads,
    // and holds the member's lock all the while; 0 if it is not.
    var grants: seq<nat>

    /** An exhausted bucket suspends the group. */
    ghost predicate LimitOk()
      reads this`limit, this`minShare, this`readSuspended, this`pendingUnsuspend
    {
      && IsWord(size) && cfg.Ok(size) && limit.Ok(cfg, size)
      && 1 <= minShare <= cfg.readRate
      && (limit.readLimit <= 0 ==> readSuspended)
      && (pendingUnsuspend ==> !readSuspended)
    }

    ghost predicate MembersOk()
      reads this`members, members
    {
      && Distinct(members)
      && (forall m :: m in members ==> m.group == this && m.Valid())
    }

    /** A group that is neither suspended nor about to try again holds back no member. */
    ghost predicate FreeOk()
      reads this`members, this`readSuspended, this`pendingUnsuspend, members
    {
      !readSuspended && !pendingUnsuspend ==> forall m :: m in members ==> BW_GROUP !in m.readSuspended
    }

    /** No member was granted more than is in its own bucket. */
    ghost predicate GrantsOk()
      reads this`members, this`grants, members`cfg, members`limit
    {
      && |grants| == |members|
      && forall k :: 0 <= k < |members| && members[k].cfg != null && grants[k] > 0 ==>
           grants[k] <= members[k].limit.readLimit
    }

    ghost predicate Valid()
      reads this, members
    {
      LimitOk() && MembersOk() && FreeOk() && GrantsOk()
    }

    /** The most that a member can be granted. */
    function Cap(): (cap: nat)
      reads this`minShare, this`members
      ensures cap >= minShare
    {
      var part := if |members| == 0 then 0 else cfg.readMaximum / |members|;
      if part < minShare then minShare else part
    }

    /** At most `k` grants are outstanding, and what the group owes after all of them is less than a share
        and a cap for each but one. */
    ghost predicate Covered(k: nat)
      reads this`limit, this`minShare, this`members, this`grants
    {
      CoveredBy(k, limit.readLimit, grants, minShare, Cap(), size)
    }

    /** No member is between asking and taking, and the bucket is not overdrawn by a whole share. */
    ghost predicate Settled()
      reads this`limit, this`minShare, this`grants
    {
      && (forall k :: 0 <= k < |grants| ==> grants[k] == 0)
      && 0 < minShare + limit.readLimit
    }

    /** From a settled group on, any number of grants may be outstanding for which caps can be counted. */
    lemma SettledCovered(k: nat)
      requires Valid() && Settled() && k > 0 && (k - 1) * Cap() + minShare <= size / 2
      ensures Covered(k)
    {
      hide Bufferevent.Valid, Cap, CoveredBy, MembersOk, FreeOk;
      NoneCovered(k, limit.readLimit, grants, minShare, Cap(), size);
    }

    /** A settled group is covered, if a share for each member is counted in a word. */
    lemma AllCovered()
      requires Valid() && Settled() && |members| > 0 && |members| * minShare <= size / 2
      ensures Covered(|members|)
    {
      var n := |members|;
      PartsFit(cfg.readMaximum, n);
      assert n * Cap() == (n - 1) * Cap() + Cap();
      SettledCovered(n);
    }

    constructor (cfg: Config, tick: nat, size: nat)
      requires IsWord(size) && cfg.Ok(size) && tick < TICK_WRAP
      ensures Valid() && members == [] && grants == [] && totalRead == 0
      ensures limit == Bucket(cfg.readRate, cfg.writeRate, tick)
      ensures this.cfg == cfg && this.size == size && !readSuspended && !pendingUnsuspend && Settled()
      ensures minShare == LeastOf(SINGLE_SHARE, LeastOf(cfg.readRate, cfg.writeRate))
    {
      this.size, this.cfg := size, cfg;
      var share := SINGLE_SHARE;
      if share > cfg.readRate {
        share := cfg.readRate;
      }
      if share > cfg.writeRate {
        share := cfg.writeRate;
      }
      minShare := share;
      limit := Bucket(cfg.readRate, cfg.writeRate, tick);
      readSuspended, pendingUnsuspend, members, totalRead, grants := false, false, [], 0, [];
    }

    /** Stops reading on every member that can be locked; the others find out when they look. */
    method SuspendReading(locked: set<Bufferevent>)
      requires MembersOk()
      modifies this`readSuspended, this`pendingUnsuspend, members`readSuspended, members`readArmed
      ensures MembersOk() && readSuspended && !pendingUnsuspend
      ensures forall m :: m in members ==>
        m.readSuspended == old(m.readSuspended) + if m in locked then {BW_GROUP} else {}
    {
      hide Bufferevent.ExhaustedOk, Bufferevent.WakeOk, Bufferevent.ArmedOk;
      readSuspended, pendingUnsuspend := true, false;
      for i := 0 to |members|
        modifies members`readSuspended, members`readArmed
        invariant MembersOk()
        invariant forall k :: 0 <= k < |members| ==>
          members[k].readSuspended == old(members[k].readSuspended) +
                                      if k < i && members[k] in locked then {BW_GROUP} else {}
      {
        if members[i] in locked {
          assert members[i].Valid();
          members[i].SuspendRead(BW_GROUP);
        }
      }
    }

    /** Lets every member that can be locked read again, beginning anywhere. */
    method UnsuspendReading(locked: set<Bufferevent>, first: nat)
      requires MembersOk() && (|members| > 0 ==> first < |members|)
      modifies this`readSuspended, this`pendingUnsuspend, members`readSuspended, members`readArmed
      ensures MembersOk() && !readSuspended
      ensures pendingUnsuspend <==> exists m :: m in members && m !in locked
      ensures forall m :: m in members ==>
        m.readSuspended == old(m.readSuspended) - if m in locked then {BW_GROUP} else {}
    {
      hide Bufferevent.ExhaustedOk, Bufferevent.WakeOk, Bufferevent.ArmedOk;
      readSuspended := false;
      var again := false;
      if |members| > 0 {
        again := UnsuspendFrom(first, |members|, locked);
        var more := UnsuspendFrom(0, first, locked);
        again := again || more;
      }
      pendingUnsuspend := again;
    }

    method UnsuspendFrom(low: nat, high: nat, locked: set<Bufferevent>) returns (again: bool)
      requires MembersOk() && low <= high <= |members|
      modifies members`readSuspended, members`readArmed
      ensures MembersOk()
      ensures again <==> exists k :: low <= k < high && members[k] !in locked
      ensures forall k :: 0 <= k < |members| ==>
        members[k].readSuspended == old(members[k].readSuspended) -
                                    if low <= k < high && members[k] in locked then {BW_GROUP} else {}
    {
      hide Bufferevent.ExhaustedOk, Bufferevent.WakeOk, Bufferevent.ArmedOk;
      again := false;
      for i := low to high
        modifies members`readSuspended, members`readArmed
        invariant MembersOk()
        invariant again <==> exists k :: low <= k < i && members[k] !in locked
        invariant forall k :: 0 <= k < |members| ==>
          members[k].readSuspended == old(members[k].readSuspended) -
                                      if low <= k < i && members[k] in locked then {BW_GROUP} else {}
      {
        assert members[i].Valid();
        if members[i] in locked {
          members[i].UnsuspendRead(BW_GROUP);
        } else {
          again := true;
        }
      }
    }

    /** The tick timer has fired: it refills the bucket, and resumes the members once a share is there. */
    method RefillCallback(tick: nat, locked: set<Bufferevent>, first: nat)
      requires Valid() && tick < TICK_WRAP && (|members| > 0 ==> first < |members|)
      modifies this`limit, this`readSuspended, this`pendingUnsuspend, members`readSuspended, members`readArmed
      ensures Valid() && limit == Refilled(old(limit), cfg, tick) && limit.readLimit >= old(limit).readLimit
      ensures readSuspended <==> old(readSuspended) && limit.readLimit < minShare
      ensures pendingUnsuspend <==>
        (old(pendingUnsuspend) || (old(readSuspended) && limit.readLimit >= minShare))
            && exists m :: m in members && m !in locked
      ensures var resumes := old(pendingUnsuspend) || (old(readSuspended) && limit.readLimit >= minShare);
              forall m :: m in members ==>
                m.readSuspended == old(m.readSuspended) - if resumes && m in locked then {BW_GROUP} else {}
    {
      hide Refilled, Bucket.Ok, Bufferevent.Valid, Config.Ok, IsWord;
      var ticked;
      limit, ticked := BucketUpdate(limit, cfg, tick, size);
      if pendingUnsuspend || (readSuspended && limit.readLimit >= minShare) {
        UnsuspendReading(locked, first);
      }
    }

    /** Takes `bytes` from the bucket, or puts some back, and holds the members back or resumes them. */
    method Decrement(bytes: int, locked: set<Bufferevent>, first: nat)
      requires LimitOk() && MembersOk() && (|members| > 0 ==> first < |members|)
      requires Fits(limit.readLimit - bytes, size) && limit.readLimit - bytes <= cfg.readMaximum
      requires FreeOk()
      modifies this`limit, this`readSuspended, this`pendingUnsuspend, this`totalRead
      modifies members`readSuspended, members`readArmed
      ensures LimitOk() && MembersOk() && FreeOk()
      ensures limit == old(limit).(readLimit := old(limit).readLimit - bytes)
      ensures totalRead == old(totalRead) + bytes
      ensures readSuspended <==> limit.readLimit <= 0
      ensures forall m :: m in members ==>
        m.readSuspended == HeldBack(old(m.readSuspended), m in locked, old(readSuspended), readSuspended)
      ensures pendingUnsuspend <==>
        !readSuspended && if old(readSuspended) then exists m :: m in members && m !in locked else old(pendingUnsuspend)
    {
      hide Bufferevent.Valid, Config.Ok, IsWord, Fits;
      limit := limit.(readLimit := limit.readLimit - bytes);
      totalRead := totalRead + bytes;
      if limit.readLimit <= 0 {
        SuspendReading(locked);
      } else if readSuspended {
        UnsuspendReading(locked, first);
      }
    }

    /** How much a member may read now; 0 if its bucket or that of the group is exhausted. */
    method GetReadMax(who: nat, tick: nat) returns (r: nat)
      requires Valid() && who < |members| && grants[who] == 0 && tick < TICK_WRAP
      modifies {members[who]}`limit, {members[who]}`readSuspended, {members[who]}`readArmed
      ensures Valid() && r <= Cap()
      ensures r <= minShare || r <= limit.readLimit
      ensures members[who].cfg != null ==> r == 0 || r <= members[who].limit.readLimit
      ensures Granted(who, tick, old(members[who].limit), r)
      ensures members[who].readSuspended == old(members[who].readSuspended) + if readSuspended then {BW_GROUP} else {}
    {
      hide Distinct, Refilled, Bufferevent.ExhaustedOk, Bufferevent.WakeOk, Bufferevent.ArmedOk;
      var bev := members[who];
      assert bev.Valid();
      var maxSoFar := bev.OwnMax(tick);
      var share: int;
      if readSuspended {
        bev.SuspendRead(BW_GROUP);
        share := 0;
      } else {
        share := limit.readLimit / |members|;
        ShareIsPart(limit.readLimit, |members|);
        PartGrows(limit.readLimit, cfg.readMaximum, |members|);
        if share < minShare {
          share := minShare;
        }
      }
      if maxSoFar > share {
        maxSoFar := share;
      }
      r := if maxSoFar < 0 then 0 else maxSoFar;
    }

    /** An equal part of what is in the bucket, or the least share if that is more. */
    ghost function Share(): nat
      requires |members| > 0
      reads this`limit, this`members, this`minShare
    {
      var part := limit.readLimit / |members|;
      if part < minShare then minShare else part
    }

    /** A member whose bucket was `was` may read `r` bytes: what is in its bucket after the refill, or what it
        reads at most at a time if it has none, but no more than its share; nothing while the group is
        suspended or its bucket is overdrawn. */
    ghost predicate Granted(who: nat, tick: nat, was: Bucket, r: nat)
      requires who < |members|
      reads this`limit, this`members, this`minShare, this`readSuspended
      reads {members[who]}`cfg, {members[who]}`limit, {members[who]}`maxSingleRead
    {
      var bev := members[who];
      var most := if bev.cfg != null then bev.limit.readLimit else bev.maxSingleRead;
      && bev.limit == (if bev.cfg != null then Refilled(was, bev.cfg, tick) else was)
      && r == if readSuspended || most < 0 then 0 else if most < Share() then most else Share()
    }

    /** The share is an equal part, rounded down, or the least one. */
    lemma ShareIs()
      requires |members| > 0 && limit.readLimit >= 0
      ensures var s := Share();
              && s >= minShare && limit.readLimit < (s + 1) * |members|
              && (s > minShare ==> s * |members| <= limit.readLimit)
    {
      var q, n := limit.readLimit / |members|, |members|;
      assert q * n <= limit.readLimit < (q + 1) * n;
      MulGrows(q + 1, Share() + 1, n);
    }

    /** A member asks, with its own lock held, and keeps the answer. */
    method Ask(who: nat, tick: nat) returns (r: nat)
      requires Valid() && who < |members| && grants[who] == 0 && tick < TICK_WRAP
      modifies this`grants, {members[who]}`limit, {members[who]}`readSuspended, {members[who]}`readArmed
      ensures Valid() && grants == old(grants)[who := r] && r <= Cap()
      ensures var bev := members[who];
              var most: int := if bev.cfg != null then bev.limit.readLimit else bev.maxSingleRead;
              && (bev.cfg != null ==> bev.limit == Refilled(old(bev.limit), bev.cfg, tick))
              && (bev.cfg == null ==> bev.limit == old(bev.limit))
              && r == if readSuspended || most < 0 then 0 else LeastOf(most, Share())
      ensures r <= minShare || r <= limit.readLimit
      ensures Granted(who, tick, old(members[who].limit), r)
      ensures members[who].readSuspended == old(members[who].readSuspended) + if readSuspended then {BW_GROUP} else {}
      ensures forall k: nat :: old(Covered(k)) && Open(old(grants)) < k ==> Covered(k)
    {
      hide Bufferevent.Valid, Config.Ok, IsWord, Sum, Open, Cap, Fits, CoveredBy;
      r := GetReadMax(who, tick);
      grants := grants[who := r];
      forall k: nat | old(Covered(k)) && Open(old(grants)) < k
        ensures Covered(k)
      {
        AskStays(k, limit.readLimit, old(grants), who, r, minShare, Cap(), size);
      }
    }

    /** A member that has asked reads nothing after all: it is suspended, or the connection failed. */
    method GiveUp(who: nat)
      requires Valid() && who < |members|
      modifies this`grants
      ensures Valid() && grants == old(grants)[who := 0]
      ensures forall k: nat :: old(Covered(k)) ==> Covered(k)
    {
      hide Bufferevent.Valid, Config.Ok, IsWord, Sum, Open, Fits, CoveredBy;
      grants := grants[who := 0];
      forall k: nat | old(Covered(k))
        ensures Covered(k)
      {
        TakeStays(k, limit.readLimit, old(grants), who, 0, minShare, Cap(), size);
      }
    }

    /** A member has read `bytes`, no more than it was granted, however long ago, and takes them from both buckets. */
    method Take(who: nat, bytes: nat, locked: set<Bufferevent>, first: nat)
      requires Valid() && who < |members| && first < |members| && 0 < bytes <= grants[who]
      requires Fits(limit.readLimit - bytes, size)
      modifies this`limit, this`readSuspended, this`pendingUnsuspend, this`totalRead, this`grants, members
      ensures Valid() && members == old(members) && minShare == old(minShare)
      ensures grants == old(grants)[who := 0] && totalRead == old(totalRead) + bytes
      ensures limit == old(limit).(readLimit := old(limit).readLimit - bytes)
      ensures readSuspended <==> limit.readLimit <= 0
      ensures pendingUnsuspend <==>
        !readSuspended && if old(readSuspended) then exists m :: m in members && m !in locked else old(pendingUnsuspend)
      ensures var bev := members[who];
              && (bev.cfg != null ==>
                    && bev.limit == old(bev.limit).(readLimit := old(bev.limit).readLimit - bytes)
                    && (BW in bev.readSuspended <==> bev.limit.readLimit <= 0))
              && (bev.cfg == null ==> bev.limit == old(bev.limit))
              && bev.readSuspended - {BW} ==
                 HeldBack(old(bev.readSuspended), bev in locked, old(readSuspended), readSuspended) - {BW}
      ensures forall m :: m in members && m != members[who] ==>
        && m.limit == old(m.limit)
        && m.readSuspended == HeldBack(old(m.readSuspended), m in locked, old(readSuspended), readSuspended)
      ensures forall m :: m in members ==> m.cfg == old(m.cfg) && m.maxSingleRead == old(m.maxSingleRead)
      ensures forall k: nat :: old(Covered(k)) ==> Covered(k)
    {
      hide Bufferevent.Valid, Config.Ok, IsWord, Sum, Open, Fits, CoveredBy, HeldBack, Distinct;
      DecrementOwn(who, bytes);
      ghost var own := members[who].readSuspended;
      grants := grants[who := 0];
      Decrement(bytes, locked, first);
      HeldBackOther(old(members[who].readSuspended), own, members[who] in locked, old(readSuspended), readSuspended);
      forall k: nat | old(Covered(k))
        ensures Covered(k)
      {
        TakeStays(k, old(limit.readLimit), old(grants), who, bytes, minShare, Cap(), size);
      }
    }

    /** In a covered group every grant can be taken from the bucket without overflow. */
    lemma TakeFits(k: nat, who: nat, bytes: nat)
      requires Valid() && Covered(k) && who < |members| && bytes <= grants[who]
      ensures Fits(limit.readLimit - bytes, size)
    {
      hide Bufferevent.Valid, Sum, Open, Cap, CoveredBy;
      TakeStays(k, limit.readLimit, grants, who, bytes, minShare, Cap(), size);
    }

    /** A member asks and reads at most that much, of the `want` bytes that are there, while no other one is
        between the two. */
    method Draw(who: nat, want: nat, tick: nat, locked: set<Bufferevent>, first: nat) returns (bytes: nat)
      requires Valid() && Settled() && who < |members| && tick < TICK_WRAP && first < |members|
      modifies this`limit, this`readSuspended, this`pendingUnsuspend, this`totalRead, this`grants, members
      ensures Valid() && Settled() && members == old(members) && minShare == old(minShare)
      ensures var bev := members[who];
              var most: int := if bev.cfg == null then bev.maxSingleRead
                               else Refilled(old(bev.limit), bev.cfg, tick).readLimit;
              bytes == if old(readSuspended) || most < 0 then 0 else LeastOf(want, LeastOf(most, old(Share())))
      ensures totalRead == old(totalRead) + bytes
      ensures limit == old(limit).(readLimit := old(limit).readLimit - bytes)
    {
      hide Bufferevent.Valid, Config.Ok, IsWord, Refilled, Covered;
      var most := Ask(who, tick);
      bytes := if want < most then want else most;
      if bytes == 0 {
        GiveUp(who);
      } else {
        DrawFits(bytes);
        Take(who, bytes, locked, first);
      }
    }

    lemma DrawFits(bytes: nat)
      requires LimitOk() && !readSuspended && (bytes <= minShare || bytes <= limit.readLimit)
      ensures Fits(limit.readLimit - bytes, size) && 0 < minShare + limit.readLimit - bytes
    {
    }

    /** Takes in `bev`, out of the group that it is in; it is held back if this group is. */
    method Join(bev: Bufferevent)
      requires Valid() && bev.Valid() && (bev.group == null ==> BW_GROUP !in bev.readSuspended)
      requires bev.group != null ==> bev.group.Valid() && bev in bev.group.members
      modifies this`members, this`grants, bev`group, bev`readSuspended, bev`readArmed, bev`writeSuspended
      modifies {bev.group}`members, {bev.group}`grants
      ensures Valid() && bev.group == this && (old(Settled()) ==> Settled())
      ensures var had := bev in old(members);
              && members == (if had then old(members) else [bev] + old(members))
              && grants == (if had then old(grants) else [0] + old(grants))
              && (had ==> bev.readSuspended == old(bev.readSuspended))
              && (!had ==> bev.readSuspended ==
                             old(bev.readSuspended) - {BW_GROUP} + if readSuspended then {BW_GROUP} else {})
      ensures bev.writeSuspended ==
                old(bev.writeSuspended) - if old(bev.group) in [null, this] then {} else {BW_GROUP}
      ensures var was := old(bev.group);
              was != null && was != this ==>
                was.Valid() && exists k :: 0 <= k < |old(was.members)| && old(was.members)[k] == bev
                                           && was.members == old(was.members)[..k] + old(was.members)[k + 1..]
    {
      if bev.group == this {
        return;
      }
      hide LimitOk, FreeOk, GrantsOk, Distinct, Bufferevent.Valid;
      var was := bev.group;
      if was != null {
        var k :| 0 <= k < |was.members| && was.members[k] == bev;
        var _ := was.Leave(k);
      }
      Attach(bev);
    }

    /** Takes in a bufferevent that is in no group. */
    method Attach(bev: Bufferevent)
      requires Valid() && bev.Valid() && bev.group == null && BW_GROUP !in bev.readSuspended
      modifies this`members, this`grants, bev`group, bev`readSuspended, bev`readArmed
      ensures Valid() && bev.group == this && (old(Settled()) ==> Settled())
      ensures members == [bev] + old(members) && grants == [0] + old(grants)
      ensures bev.readSuspended == old(bev.readSuspended) + if readSuspended then {BW_GROUP} else {}
    {
      hide Distinct;
      bev.group := this;
      ConsDistinct(members, bev);
      members, grants := [bev] + members, [0] + grants;
      if readSuspended {
        bev.SuspendRead(BW_GROUP);
      }
    }

    /** Lets go of a member, which nothing about the group holds back any more. */
    method Leave(who: nat) returns (bev: Bufferevent)
      requires Valid() && who < |members|
      modifies this`members, this`grants
      modifies {members[who]}`group, {members[who]}`readSuspended, {members[who]}`readArmed
      modifies {members[who]}`writeSuspended
      ensures Valid() && bev == old(members)[who] && bev.Valid() && bev.group == null && bev !in members
      ensures members == old(members)[..who] + old(members)[who + 1..]
      ensures grants == old(grants)[..who] + old(grants)[who + 1..]
      ensures bev.readSuspended == old(members[who].readSuspended) - {BW_GROUP}
      ensures bev.writeSuspended == old(members[who].writeSuspended) - {BW_GROUP}
    {
      hide LimitOk, MembersOk, FreeOk, GrantsOk, Distinct;
      bev := Unlink(who);
      bev.UnsuspendRead(BW_GROUP);
      bev.UnsuspendWrite(BW_GROUP);
    }

    /** Takes a member out of the list. */
    method Unlink(who: nat) returns (bev: Bufferevent)
      requires Valid() && who < |members|
      modifies this`members, this`grants, {members[who]}`group
      ensures Valid() && bev == old(members)[who] && bev.Valid() && bev.group == null && bev !in members
      ensures members == old(members)[..who] + old(members)[who + 1..]
      ensures grants == old(grants)[..who] + old(grants)[who + 1..]
    {
      hide Bufferevent.ExhaustedOk, Bufferevent.WakeOk, Bufferevent.ArmedOk, LimitOk, Distinct;
      bev := members[who];
      assert bev.Valid();
      bev.group := null;
      CutOut(members, who);
      members, grants := members[..who] + members[who + 1..], grants[..who] + grants[who + 1..];
    }

    method DecrementOwn(who: nat, bytes: nat)
      requires Valid() && who < |members| && 0 < bytes <= grants[who]
      modifies {members[who]}`limit, {members[who]}`readSuspended, {members[who]}`readArmed, {members[who]}`timerPending
      ensures LimitOk() && MembersOk() && FreeOk()
      ensures var bev := members[who];
              && bev.readSuspended - {BW} == old(bev.readSuspended) - {BW}
              && (bev.cfg == null ==> bev.limit == old(bev.limit) && bev.readSuspended == old(bev.readSuspended))
              && (bev.cfg != null ==>
                    && bev.limit == old(bev.limit).(readLimit := old(bev.limit).readLimit - bytes)
                    && (BW in bev.readSuspended <==> bev.limit.readLimit <= 0))
      ensures forall k :: 0 <= k < |members| && k != who && members[k].cfg != null && grants[k] > 0 ==>
                grants[k] <= members[k].limit.readLimit
    {
      var bev := members[who];
      assert bev.Valid();
      bev.DecrementRead(bytes);
      assert BW_GROUP in bev.readSuspended <==> BW_GROUP in bev.readSuspended - {BW};
    }
  }

  lemma ShareIsPart(x: int, n: nat)
    requires x > 0 && n > 0
    ensures 0 <= x / n <= x
  {
    MulAtLeast(n, x / n);
  }

  lemma PartGrows(x: nat, y: nat, n: nat)
    requires x <= y && n > 0
    ensures x / n <= y / n
  {
    DivLess(y, n, y / n + 1);
    DivLess(x, n, y / n + 1);
  }

  lemma PartsFit(x: nat, n: nat)
    requires n > 0
    ensures n * (x / n) <= x
  {
  }

  lemma MulAtLeast(n: nat, q: nat)
    requires n > 0
    ensures n * q >= q
  {
    assert n * q == (n - 1) * q + q;
  }

  /** What may happen to a group: a member asks, takes at most what it was granted or gives up, or the
      tick timer fires, in any order. `locked` are the members whose lock could be taken, `first` is
      where the members are gone through from. */
  datatype GroupStep =
    | Asks(who: nat, tick: nat)
    | Takes(who: nat, bytes: nat, locked: set<Bufferevent>, first: nat)
    | GivesUp(who: nat)
    | Ticks(tick: nat, locked: set<Bufferevent>, first: nat)

  ghost predicate StepOk(step: GroupStep) {
    step.Asks? || step.Ticks? ==> step.tick < TICK_WRAP
  }

  /** The ticks that go by in the steps. */
  ghost function TicksIn(steps: seq<GroupStep>, last: nat): nat {
    if |steps| == 0 then 0
    else if !steps[0].Ticks? then TicksIn(steps[1..], last)
    else
      var n := Elapsed(steps[0].tick, last);
      n + TicksIn(steps[1..], if n > 0 then steps[0].tick else last)
  }

  /** One step. Nothing happens when it cannot be taken, and no member asks while `k` grants are outstanding. */
  method Step(g: Group, k: nat, step: GroupStep)
    requires g.Valid() && g.Covered(k) && StepOk(step)
    modifies g, g.members
    ensures g.Valid() && g.Covered(k) && g.members == old(g.members) && g.minShare == old(g.minShare)
    ensures !step.Ticks? ==> g.limit.lastUpdated == old(g.limit.lastUpdated)
    ensures !step.Ticks? ==> g.totalRead + g.limit.readLimit == old(g.totalRead + g.limit.readLimit)
    ensures step.Ticks? ==> g.totalRead == old(g.totalRead) && g.limit == Refilled(old(g.limit), g.cfg, step.tick)
    ensures step.Takes? && step.who < |g.members| && 0 < step.bytes <= old(g.grants)[step.who] ==>
              g.totalRead == old(g.totalRead) + step.bytes && g.grants == old(g.grants)[step.who := 0]
    ensures step.Asks? && step.who < |g.members| && old(g.grants)[step.who] == 0 && Open(old(g.grants)) < k ==>
              && g.totalRead == old(g.totalRead) && step.who < |g.grants|
              && g.grants == old(g.grants)[step.who := g.grants[step.who]]
              && g.Granted(step.who, step.tick, old(g.members[step.who].limit), g.grants[step.who])
    ensures step.GivesUp? && step.who < |g.members| ==>
              g.totalRead == old(g.totalRead) && g.grants == old(g.grants)[step.who := 0]
    ensures step.Ticks? || step.who >= |g.members| || (step.Takes? && !(0 < step.bytes <= old(g.grants)[step.who]))
            || (step.Asks? && !(old(g.grants)[step.who] == 0 && Open(old(g.grants)) < k)) ==>
              g.totalRead == old(g.totalRead) && g.grants == old(g.grants)
  {
    hide Refilled, Bufferevent.Valid, Sum, Open, Group.Cap, Config.Ok, IsWord, HeldBack, Group.Granted;
    match step
    case Asks(who, tick) =>
      if who < |g.members| && g.grants[who] == 0 && Open(g.grants) < k {
        var r := g.Ask(who, tick);
      }
    case Takes(who, bytes, locked, first) =>
      if who < |g.members| && 0 < bytes <= g.grants[who] {
        g.TakeFits(k, who, bytes);
        g.Take(who, bytes, locked, first % |g.members|);
      }
    case GivesUp(who) =>
      if who < |g.members| {
        g.GiveUp(who);
      }
    case Ticks(tick, locked, first) =>
      RefilledBy(g.limit, g.cfg, tick);
      g.RefillCallback(tick, locked, if |g.members| == 0 then 0 else first % |g.members|);
  }

  /**
   * Over any run in which at most `k` grants are outstanding at a time, from any moment on, a group reads
   * no more than the maximum, the rate for every tick, a cap for all of the `k` but one, and all but one
   * byte of a share.
   */
  method Run(g: Group, k: nat, steps: seq<GroupStep>)
    requires g.Valid() && g.Covered(k) && forall i :: 0 <= i < |steps| ==> StepOk(steps[i])
    modifies g, g.members
    ensures g.Valid() && g.Covered(k) && g.members == old(g.members) && g.minShare == old(g.minShare)
    ensures g.totalRead - old(g.totalRead) <=
      g.cfg.readMaximum + TicksIn(steps, old(g.limit.lastUpdated)) * g.cfg.readRate
      + (k - 1) * g.Cap() + g.minShare - 1
  {
    hide Refilled, TicksIn, Bufferevent.Valid, Sum, Open, Group.Cap, Config.Ok, StepOk;
    ghost var ticks: nat := 0;
    TicksNone(g.limit.lastUpdated);
    assert steps[0..] == steps;
    for i := 0 to |steps|
      invariant g.Valid() && g.Covered(k) && g.members == old(g.members) && g.minShare == old(g.minShare)
      invariant ticks + TicksIn(steps[i..], g.limit.lastUpdated) == TicksIn(steps, old(g.limit.lastUpdated))
      invariant g.totalRead + g.limit.readLimit <= old(g.totalRead + g.limit.readLimit) + ticks * g.cfg.readRate
    {
      TicksStep(steps[i..], g.limit.lastUpdated);
      assert steps[i..][1..] == steps[i + 1..];
      if steps[i].Ticks? {
        RefilledBy(g.limit, g.cfg, steps[i].tick);
        MoreTicks(ticks, Elapsed(steps[i].tick, g.limit.lastUpdated), g.cfg.readRate);
        ticks := ticks + Elapsed(steps[i].tick, g.limit.lastUpdated);
      }
      Step(g, k, steps[i]);
    }
    TicksNone(g.limit.lastUpdated);
  }

  /** When no member asks before the one that asked has taken or given up, the excess is less than one share;
      refills may come in between. */
  method RunInTurn(g: Group, steps: seq<GroupStep>)
    requires g.Valid() && g.Covered(1) && forall i :: 0 <= i < |steps| ==> StepOk(steps[i])
    modifies g, g.members
    ensures g.Valid() && g.Covered(1) && g.members == old(g.members)
    ensures g.totalRead - old(g.totalRead) <=
      g.cfg.readMaximum + TicksIn(steps, old(g.limit.lastUpdated)) * g.cfg.readRate + g.minShare - 1
  {
    hide TicksIn, Group.Valid, Group.Covered, Group.Cap;
    Run(g, 1, steps);
  }

  /** However many of the members ask before others have taken: no step is held up by `k`, since a member
      that can ask has no grant (`OpenAtMost`). */
  method RunTogether(g: Group, steps: seq<GroupStep>)
    requires g.Valid() && g.Covered(|g.members|) && forall i :: 0 <= i < |steps| ==> StepOk(steps[i])
    modifies g, g.members
    ensures g.Valid() && g.Covered(|g.members|) && g.members == old(g.members)
    ensures g.totalRead - old(g.totalRead) <=
      g.cfg.readMaximum + TicksIn(steps, old(g.limit.lastUpdated)) * g.cfg.readRate
      + (|g.members| - 1) * g.Cap() + g.minShare - 1
  {
    hide TicksIn, Group.Valid, Group.Covered, Group.Cap;
    Run(g, |g.members|, steps);
  }

  /** A group of two whose rate, maximum and share are 64. */
  method PairOf64() returns (g: Group)
    ensures fresh(g) && fresh(g.members) && g.Valid() && |g.members| == 2 && g.grants == [0, 0]
    ensures g.minShare == 64 && g.limit.readLimit == 64 && g.totalRead == 0 && !g.readSuspended
    ensures g.size == 0x1_0000_0000 && g.cfg.readMaximum == 64
    ensures forall m :: m in g.members ==> m.cfg == null && m.maxSingleRead == MAX_SINGLE_READ
  {
    hide Bufferevent.Valid, Group.LimitOk, Group.MembersOk, Group.FreeOk, Group.GrantsOk, Distinct;
    var cfg := new Config(64, 64, 64, 64);
    g := new Group(cfg, 0, 0x1_0000_0000);
    var a := new Bufferevent(g.size);
    var b := new Bufferevent(g.size);
    g.Join(b);
    g.Join(a);
  }

  /**
   * Two members that both asked before either took read 128 bytes within no time, where the rate, the
   * maximum and the share are 64: one more than in turn they could. Neither can lock the other.
   */
  method BothAsk() returns (total: int)
    ensures total == 128
  {
    hide Group.LimitOk, Group.MembersOk, Group.FreeOk, Group.GrantsOk, Group.Covered;
    var g := PairOf64();
    var a, b := g.members[0], g.members[1];
    assert a in g.members && b in g.members;
    var x := g.Ask(0, 0);
    var y := g.Ask(1, 0);
    assert x == y == 64;
    g.Take(0, x, {a}, 0);
    g.Take(1, y, {b}, 0);
    return g.totalRead;
  }

  /** The same two read 191 bytes within no time, as many as the bound allows: one of them leaves a byte,
      and asks again. */
  method LastByteLeft() returns (total: int, bound: int)
    ensures total == 191 == bound
  {
    hide Group.LimitOk, Group.MembersOk, Group.FreeOk, Group.GrantsOk, Group.Covered;
    var g := PairOf64();
    var a, b := g.members[0], g.members[1];
    assert a in g.members && b in g.members;
    bound := g.cfg.readMaximum + g.Cap() + g.minShare - 1;
    var x := g.Ask(0, 0);
    var y := g.Ask(1, 0);
    g.Take(1, y - 1, {b}, 0);
    assert g.limit.readLimit == 1;
    y := g.Ask(1, 0);
    assert x == y == 64;
    g.Take(0, x, {a}, 0);
    g.Take(1, y, {b}, 0);
    return g.totalRead, bound;
  }

  lemma TicksNone(last: nat)
    ensures TicksIn([], last) == 0
  {
  }

  lemma TicksStep(steps: seq<GroupStep>, last: nat)
    requires |steps| > 0
    ensures TicksIn(steps, last) ==
      if !steps[0].Ticks? then TicksIn(steps[1..], last)
      else
        var n := Elapsed(steps[0].tick, last);
        n + TicksIn(steps[1..], if n > 0 then steps[0].tick else last)
  {
  }

  lemma MoreTicks(m: nat, n: nat, rate: nat)
    ensures (m + n) * rate == m * rate + n * rate
  {
  }

  lemma RefilledBy(b: Bucket, cfg: Config, tick: nat)
    ensures var r := Refilled(b, cfg, tick);
            && r.readLimit <= b.readLimit + Elapsed(tick, b.lastUpdated) * cfg.readRate
            && r.lastUpdated == if Elapsed(tick, b.lastUpdated) > 0 then tick else b.lastUpdated
  {
  }
}
