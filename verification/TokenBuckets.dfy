/** Token buckets, in machine words and by what they mean. */
module TokenBuckets {
  const INT_MAX: nat := 0x7fff_ffff
  const TICK_WRAP: nat := 0x1_0000_0000

  /** Words have 32 or 64 bits. */
  predicate IsWord(size: nat) {
    size == 0x1_0000_0000 || size == 0x1_0000_0000_0000_0000
  }

  /** `x` is a signed word. */
  predicate Fits(x: int, size: nat) {
    -(size / 2) <= x < size / 2
  }

  /** The signed reading of an unsigned word. */
  function Signed(x: int, size: nat): int {
    if x < size / 2 then x else x - size
  }

  /** Rates per tick, and the most that can be saved up. */
  class Config {
    const readRate: nat
    const readMaximum: nat
    const writeRate: nat
    const writeMaximum: nat

    constructor (readRate: nat, readMaximum: nat, writeRate: nat, writeMaximum: nat)
      ensures this.readRate == readRate && this.readMaximum == readMaximum
      ensures this.writeRate == writeRate && this.writeMaximum == writeMaximum
    {
      this.readRate, this.readMaximum := readRate, readMaximum;
      this.writeRate, this.writeMaximum := writeRate, writeMaximum;
    }

    predicate Ok(size: nat) {
      1 <= readRate <= readMaximum < size / 2 && 1 <= writeRate <= writeMaximum < size / 2
    }
  }

  /** A configuration, or null if the numbers make no sense. */
  method CfgNew(readRate: nat, readBurst: nat, writeRate: nat, writeBurst: nat, size: nat) returns (c: Config?)
    requires IsWord(size)
    ensures c != null <==> 1 <= readRate <= readBurst < size / 2 && 1 <= writeRate <= writeBurst < size / 2
    ensures c != null ==> fresh(c) && c.Ok(size) && c.readRate == readRate && c.readMaximum == readBurst
                          && c.writeRate == writeRate && c.writeMaximum == writeBurst
  {
    if readRate > readBurst || writeRate > writeBurst || readRate < 1 || writeRate < 1 {
      return null;
    }
    var limit := size / 2 - 1;
    if readRate > limit || writeRate > limit || readBurst > limit || writeBurst > limit {
      return null;
    }
    c := new Config(readRate, readBurst, writeRate, writeBurst);
  }

  /** A limit after `n` ticks, in machine words: the test is made so that nothing need overflow. */
  function AddTicks(limit: int, rate: nat, maximum: nat, n: nat, size: nat): int
    requires n > 0 && size > 0
  {
    if (maximum - limit) % size / n < rate then maximum
    else Signed((limit + n * rate) % size, size)
  }

  /** A limit after `n` ticks: the rate for each, up to the maximum. */
  function Topped(limit: int, rate: nat, maximum: nat, n: nat): int {
    if limit + n * rate <= maximum then limit + n * rate else maximum
  }

  lemma DivLess(d: nat, n: nat, rate: nat)
    requires n > 0
    ensures d / n < rate <==> d < n * rate
  {
    var q, r := d / n, d % n;
    assert d == n * q + r;
    if q < rate {
      assert n * (q + 1) <= n * rate;
    } else {
      assert n * rate <= n * q;
    }
  }

  lemma ModSmall(x: int, size: nat)
    requires 0 <= x < size
    ensures x % size == x && (x - size) % size == x
  {
  }

  lemma SignedBack(x: int, size: nat)
    requires IsWord(size) && Fits(x, size)
    ensures Signed(x % size, size) == x
  {
    if x < 0 {
      ModSmall(x + size, size);
    } else {
      ModSmall(x, size);
    }
  }

  /**
   * The machine arithmetic is right for every limit up to the maximum. Above it the limit must come
   * down to the maximum, and does just when enough ticks have gone by for the difference to wrap.
   */
  lemma AddTicksExact(limit: int, rate: nat, maximum: nat, n: nat, size: nat)
    requires IsWord(size) && Fits(limit, size) && 1 <= rate <= maximum < size / 2 && n > 0
    ensures AddTicks(limit, rate, maximum, n, size) == Topped(limit, rate, maximum, n)
            <==> limit <= maximum || n * rate >= size - (limit - maximum)
  {
    var d := maximum - limit;
    var p := n * rate;
    assert p >= 1;
    if d >= 0 {
      ModSmall(d, size);
      DivLess(d, n, rate);
      if p <= d {
        SignedBack(limit + p, size);
      }
    } else {
      ModSmall(d + size, size);
      DivLess(d + size, n, rate);
      if p < d + size {
        OverMaximum(limit, maximum, p, size);
      } else if p == d + size {
        assert limit + p == maximum + size;
        WholeTurn(maximum, size);
      }
    }
  }

  /** A refund above the maximum can leave a bucket that one tick empties, in 32-bit words. */
  lemma RefundEmpties()
    ensures AddTicks(0x7fff_ffff, 1, 1, 1, 0x1_0000_0000) == -0x8000_0000
  {
    ModSmall(0x8000_0002, 0x1_0000_0000);
    ModSmall(0x8000_0000, 0x1_0000_0000);
  }

  lemma WholeTurn(x: int, size: nat)
    requires IsWord(size) && 0 <= x < size / 2
    ensures Signed((x + size) % size, size) == x
  {
    if size == 0x1_0000_0000 {
      assert (x + 0x1_0000_0000) % 0x1_0000_0000 == x;
    }
  }

  /** A limit above the maximum that is added to, short of a whole turn, is not the maximum. */
  lemma OverMaximum(limit: int, maximum: nat, p: nat, size: nat)
    requires IsWord(size) && maximum < limit < size / 2 && limit + p < maximum + size
    ensures Signed((limit + p) % size, size) != maximum
  {
    var x := limit + p;
    if x < size {
      ModSmall(x, size);
    } else {
      ModSmall(x - size, size);
      assert x % size == x - size;
    }
  }

  /** Ticks one after another come to the same as all at once. */
  lemma ToppedTwice(limit: int, rate: nat, maximum: nat, m: nat, n: nat)
    ensures Topped(Topped(limit, rate, maximum, m), rate, maximum, n) == Topped(limit, rate, maximum, m + n)
  {
    assert (m + n) * rate == m * rate + n * rate;
  }

  /** The limits of both directions, and the tick, modulo 2^32, they are for. */
  datatype Bucket = Bucket(readLimit: int, writeLimit: int, lastUpdated: nat) {

    ghost predicate Ok(cfg: Config, size: nat) {
      && Fits(readLimit, size) && readLimit <= cfg.readMaximum
      && Fits(writeLimit, size) && writeLimit <= cfg.writeMaximum
      && lastUpdated < TICK_WRAP
    }
  }

  /** The ticks since a bucket was updated; none if time seems to have gone back. */
  function Elapsed(tick: nat, last: nat): (n: nat)
    ensures n <= INT_MAX
  {
    var n := (tick - last) % TICK_WRAP;
    if n > INT_MAX then 0 else n
  }

  /** The tick counter may wrap around; more than half way round is back in time. */
  lemma ElapsedWraps(last: nat, t: nat)
    requires t < TICK_WRAP
    ensures Elapsed((last + t) % TICK_WRAP, last % TICK_WRAP) == if t <= 0x7fff_ffff then t else 0
  {
    var x, y := (last + t) % TICK_WRAP, last % TICK_WRAP;
    var k := (last + t) / TICK_WRAP - last / TICK_WRAP;
    assert last + t == (last + t) / TICK_WRAP * TICK_WRAP + x;
    assert last == last / TICK_WRAP * TICK_WRAP + y;
    assert x - y == t - k * TICK_WRAP;
    assert 0 <= k <= 1;
    if k == 1 {
      assert (t - TICK_WRAP) % TICK_WRAP == t;
    } else {
      assert t % TICK_WRAP == t;
    }
  }

  /** What a bucket holds after an update: the rate for every tick gone by, up to the maximum. */
  ghost function Refilled(b: Bucket, cfg: Config, tick: nat): Bucket {
    var n := Elapsed(tick, b.lastUpdated);
    if n == 0 then b
    else Bucket(Topped(b.readLimit, cfg.readRate, cfg.readMaximum, n),
                Topped(b.writeLimit, cfg.writeRate, cfg.writeMaximum, n), tick)
  }

  method BucketInit(b: Bucket, cfg: Config, tick: nat, reinitialize: bool, size: nat) returns (r: Bucket)
    requires IsWord(size) && cfg.Ok(size) && tick < TICK_WRAP
    requires reinitialize ==> Fits(b.readLimit, size) && Fits(b.writeLimit, size) && b.lastUpdated < TICK_WRAP
    ensures r.Ok(cfg, size)
    ensures !reinitialize ==> r == Bucket(cfg.readRate, cfg.writeRate, tick)
    ensures reinitialize ==> r == Bucket(Topped(b.readLimit, 0, cfg.readMaximum, 0),
                                         Topped(b.writeLimit, 0, cfg.writeMaximum, 0), b.lastUpdated)
  {
    if reinitialize {
      r := b;
      if r.readLimit > cfg.readMaximum {
        r := r.(readLimit := cfg.readMaximum);
      }
      if r.writeLimit > cfg.writeMaximum {
        r := r.(writeLimit := cfg.writeMaximum);
      }
    } else {
      r := Bucket(cfg.readRate, cfg.writeRate, tick);
    }
  }

  /** Adds what has come in since the last update. */
  method BucketUpdate(b: Bucket, cfg: Config, tick: nat, size: nat) returns (r: Bucket, ticked: bool)
    requires IsWord(size) && cfg.Ok(size) && b.Ok(cfg, size) && tick < TICK_WRAP
    ensures r == Refilled(b, cfg, tick) && r.Ok(cfg, size)
    ensures ticked <==> Elapsed(tick, b.lastUpdated) > 0
    ensures b.readLimit <= r.readLimit && b.writeLimit <= r.writeLimit
  {
    hide AddTicks, IsWord, Topped, Fits;
    var n: nat := (tick - b.lastUpdated) % TICK_WRAP;
    if n == 0 || n > INT_MAX {
      return b, false;
    }
    TicksFit(b.readLimit, cfg.readRate, cfg.readMaximum, n, size);
    TicksFit(b.writeLimit, cfg.writeRate, cfg.writeMaximum, n, size);
    r := Bucket(AddTicks(b.readLimit, cfg.readRate, cfg.readMaximum, n, size),
                AddTicks(b.writeLimit, cfg.writeRate, cfg.writeMaximum, n, size), tick);
    ticked := true;
  }

  /** A limit up to the maximum rises, and stays up to it. */
  lemma TicksFit(limit: int, rate: nat, maximum: nat, n: nat, size: nat)
    requires IsWord(size) && Fits(limit, size) && limit <= maximum && n > 0
    ensures 1 <= rate <= maximum < size / 2 ==>
      var r := AddTicks(limit, rate, maximum, n, size);
      r == Topped(limit, rate, maximum, n) && Fits(r, size) && limit <= r <= maximum
  {
    hide AddTicks;
    if 1 <= rate <= maximum < size / 2 {
      AddTicksExact(limit, rate, maximum, n, size);
      assert n * rate >= 0;
    }
  }

  /** Updating at one tick and at a later one is updating at the later one, whether or not the counter wraps. */
  lemma RefilledTwice(b: Bucket, cfg: Config, last: nat, m: nat, n: nat)
    requires b.lastUpdated == last % TICK_WRAP && m + n <= INT_MAX
    ensures Refilled(Refilled(b, cfg, (last + m) % TICK_WRAP), cfg, (last + m + n) % TICK_WRAP)
            == Refilled(b, cfg, (last + m + n) % TICK_WRAP)
  {
    hide Elapsed, Topped;
    ElapsedWraps(last, m);
    ElapsedWraps(last, m + n);
    ElapsedWraps(last + m, n);
    ToppedTwice(b.readLimit, cfg.readRate, cfg.readMaximum, m, n);
    ToppedTwice(b.writeLimit, cfg.writeRate, cfg.writeMaximum, m, n);
  }

  /** Three ticks, over the wrap: reading rises by three times its rate, writing up to its maximum. */
  lemma ThreeTicks(cfg: Config)
    requires cfg.readRate == 10 && cfg.readMaximum == 100 && cfg.writeRate == 20 && cfg.writeMaximum == 50
    ensures Refilled(Bucket(-5, 0, 0xffff_fffe), cfg, 1) == Bucket(25, 50, 1)
  {
    ElapsedWraps(0xffff_fffe, 3);
  }
}
