/** Token buckets in machine arithmetic (bufferevent_ratelim.c). */
module TokenBucket {
  const TWO31 := 0x8000_0000
  const TWO32 := 0x1_0000_0000
  const TWO63 := 0x8000_0000_0000_0000
  const TWO64 := 0x1_0000_0000_0000_0000
  const INT_MAX := 0x7fff_ffff
  const SSIZE_MAX := 0x7fff_ffff_ffff_ffff

  type u32 = x: int | 0 <= x < 0x1_0000_0000
  type size = x: int | 0 <= x < 0x1_0000_0000_0000_0000
  type ssize = x: int | -0x8000_0000_0000_0000 <= x < 0x8000_0000_0000_0000

  /** One direction of struct ev_token_bucket_cfg, as ev_token_bucket_cfg_new makes it. */
  datatype Cfg = Cfg(rate: size, maximum: size)
  {
    predicate Ok()
    {
      1 <= rate <= maximum <= SSIZE_MAX
    }
  }

  /** Conversion to size_t, and back. */
  function Unsigned(x: int): (r: size)
    ensures (x - r) % TWO64 == 0
  {
    x % TWO64
  }

  function Signed(x: int): (r: ssize)
    ensures (x - r) % TWO64 == 0
  {
    if x % TWO64 < TWO63 then x % TWO64 else x % TWO64 - TWO64
  }

  function Min(a: int, b: int): (m: int)
    ensures m <= a && m <= b && (m == a || m == b)
  {
    if a <= b then a else b
  }

  /** n_ticks of ev_token_bucket_update; 0 stands for no tick or a clock that went back. */
  function Ticks(current: u32, last: u32): (n: u32)
    ensures n <= INT_MAX
  {
    var d := (current - last) % TWO32;
    if d > INT_MAX then 0 else d
  }

  /** The new limit after `n` ticks, computed as the code does. */
  function Refill(limit: ssize, cfg: Cfg, n: u32): (r: ssize)
    requires cfg.Ok() && n > 0
  {
    if Unsigned(cfg.maximum - limit) / n < cfg.rate then cfg.maximum
    else Signed(limit + Unsigned(n * cfg.rate))
  }

  lemma {:induction false} DivLess(d: nat, n: nat, rate: nat)
    requires n > 0
    ensures d / n < rate <==> d < n * rate
  {
    var q := d / n;
    assert n * q <= d < n * q + n;
    if q < rate {
      assert n * (q + 1) <= n * rate by { MulMono(n, q + 1, rate); }
    } else {
      assert n * rate <= n * q by { MulMono(n, rate, q); }
    }
  }

  lemma {:induction false} MulMono(n: nat, a: nat, b: nat)
    requires a <= b
    ensures n * a <= n * b
  {
  }

  lemma {:induction false} WrappedDifference(limit: ssize, maximum: size)
    requires maximum <= SSIZE_MAX
    ensures Unsigned(maximum - limit) == if limit <= maximum then maximum - limit else TWO64 - (limit - maximum)
  {
  }

  lemma {:induction false} WrappedSum(limit: ssize, maximum: size, add: nat)
    requires maximum <= SSIZE_MAX
    requires add <= if limit <= maximum then maximum - limit else TWO64 - (limit - maximum)
    ensures limit <= maximum ==> Signed(limit + Unsigned(add)) == limit + add
    ensures limit > maximum ==> (Signed(limit + Unsigned(add)) == maximum <==> add == TWO64 - (limit - maximum))
  {
    assert Unsigned(add) == add;
  }

  /**
   The overflow-avoiding refill is min(maximum, limit + n * rate) exactly when
   the limit is not above the maximum (or so many bytes come in that the wrapped
   difference is used up).
  */
  lemma {:induction false} RefillIsMin(limit: ssize, cfg: Cfg, n: u32)
    requires cfg.Ok() && 0 < n <= INT_MAX
    ensures Refill(limit, cfg, n) == Min(cfg.maximum, limit + n * cfg.rate)
            <==> limit <= cfg.maximum || n * cfg.rate >= TWO64 - (limit - cfg.maximum)
  {
    hide Signed, Unsigned;
    var d, add := Unsigned(cfg.maximum - limit), n * cfg.rate;
    WrappedDifference(limit, cfg.maximum);
    DivLess(d, n, cfg.rate);
    MulMono(cfg.rate, 1, n);
    if add <= d {
      WrappedSum(limit, cfg.maximum, add);
    }
  }

  /** A limit that a refund has lifted above the maximum goes on rising. */
  lemma {:induction false} RefillAboveMaximum()
    ensures Refill(11, Cfg(1, 10), 1) == 12 != Min(10, 11 + 1 * 1)
  {
  }

  /** The refill of a limit does not wrap around to a negative one. */
  predicate NoWrap(limit: ssize, cfg: Cfg, n: u32)
  {
    limit <= cfg.maximum || limit + n * cfg.rate < TWO63 || limit + n * cfg.rate > TWO64
  }

  /** A refill leaves a positive limit positive exactly if it does not wrap around. */
  lemma {:induction false} RefillStaysPositive(limit: ssize, cfg: Cfg, n: u32)
    requires cfg.Ok() && 0 < n <= INT_MAX && limit > 0
    ensures Refill(limit, cfg, n) > 0 <==> NoWrap(limit, cfg, n)
  {
    hide Signed, Unsigned;
    var d, add := Unsigned(cfg.maximum - limit), n * cfg.rate;
    WrappedDifference(limit, cfg.maximum);
    DivLess(d, n, cfg.rate);
    MulMono(cfg.rate, 1, n);
    if add <= d {
      SignedSum(limit, add);
    }
  }

  lemma {:induction false} SignedSum(limit: ssize, add: nat)
    requires limit > 0 && add < TWO64
    ensures Signed(limit + Unsigned(add)) ==
              if limit + add < TWO63 then limit + add else limit + add - TWO64
  {
    assert Unsigned(add) == add;
  }

  /** A refill of a limit above the maximum: no bound but the width of the number, where it wraps around. */
  lemma {:induction false} RefillAbove(limit: ssize, cfg: Cfg, n: u32)
    requires cfg.Ok() && 0 < n <= INT_MAX && limit > cfg.maximum
    ensures Refill(limit, cfg, n) ==
              var sum := limit + n * cfg.rate;
              if sum < TWO63 then sum else Min(cfg.maximum, sum - TWO64)
  {
    hide Signed, Unsigned;
    var d, add := Unsigned(cfg.maximum - limit), n * cfg.rate;
    WrappedDifference(limit, cfg.maximum);
    DivLess(d, n, cfg.rate);
    MulMono(cfg.rate, 1, n);
    if add <= d {
      SignedSum(limit, add);
    }
  }

  /** What a limit becomes when `add` bytes come in. */
  function Filled(limit: int, maximum: int, add: int): int
  {
    if limit <= maximum then Min(maximum, limit + add)
    else if limit + add < TWO63 then limit + add
    else Min(maximum, limit + add - TWO64)
  }

  /** Every refill, within the maximum or above it. */
  lemma {:induction false} RefillIs(limit: ssize, cfg: Cfg, n: u32)
    requires cfg.Ok() && 0 < n <= INT_MAX
    ensures Refill(limit, cfg, n) == Filled(limit, cfg.maximum, n * cfg.rate)
  {
    hide Refill;
    if limit > cfg.maximum {
      RefillAbove(limit, cfg, n);
    } else {
      RefillIsMin(limit, cfg, n);
    }
  }

  lemma {:induction false} FilledSplits(limit: int, maximum: int, a: nat, b: nat)
    requires 0 < maximum < TWO63 && limit < TWO63
    ensures Filled(Filled(limit, maximum, a), maximum, b) == Filled(limit, maximum, a + b)
  {
  }

  /** Refilling at an intermediate tick changes nothing, whatever the limit. */
  lemma {:induction false} RefillSplits(limit: ssize, cfg: Cfg, n1: u32, n2: u32)
    requires cfg.Ok() && 0 < n1 && 0 < n2 && n1 + n2 <= INT_MAX
    ensures limit <= cfg.maximum ==> Refill(limit, cfg, n1) <= cfg.maximum
    ensures Refill(Refill(limit, cfg, n1), cfg, n2) == Refill(limit, cfg, n1 + n2)
  {
    hide Refill, Filled;
    RefillIs(limit, cfg, n1);
    RefillIs(limit, cfg, n1 + n2);
    RefillIs(Refill(limit, cfg, n1), cfg, n2);
    MulMono(cfg.rate, 0, n1);
    MulMono(cfg.rate, 0, n2);
    FilledSplits(limit, cfg.maximum, n1 * cfg.rate, n2 * cfg.rate);
    assert (n1 + n2) * cfg.rate == n1 * cfg.rate + n2 * cfg.rate;
    FilledWithin(limit, cfg.maximum, n1 * cfg.rate);
  }

  lemma {:induction false} FilledWithin(limit: int, maximum: int, add: int)
    ensures limit <= maximum ==> Filled(limit, maximum, add) <= maximum
  {
  }

  lemma {:induction false} TicksAfter(t: u32, n: u32)
    requires n <= INT_MAX
    ensures Ticks((t + n) % TWO32, t) == n
  {
    if t + n < TWO32 {
      assert (t + n) % TWO32 == t + n;
    } else {
      assert (t + n) % TWO32 == t + n - TWO32;
    }
  }

  lemma {:induction false} WrapAdd(t: int, n: int)
    ensures (t % TWO32 + n) % TWO32 == (t + n) % TWO32
  {
  }

  /** Ticks add up, also where the 32-bit counter wraps around. */
  lemma {:induction false} TicksAdd(t0: u32, n1: u32, n2: u32)
    requires n1 + n2 <= INT_MAX
    ensures var t1, t2 := (t0 + n1) % TWO32, (t0 + n1 + n2) % TWO32;
            Ticks(t1, t0) == n1 && Ticks(t2, t1) == n2 && Ticks(t2, t0) == n1 + n2
  {
    hide Ticks;
    TicksAfter(t0, n1);
    TicksAfter((t0 + n1) % TWO32, n2);
    TicksAfter(t0, n1 + n2);
    WrapAdd(t0 + n1, n2);
  }

  /** Ticks never counts more than have passed. */
  lemma {:induction false} TicksBelow(last: nat, now: nat)
    requires last <= now
    ensures Ticks(now % TWO32, last % TWO32) <= now - last
  {
    var d := now - last;
    assert (now % TWO32 - last % TWO32) % TWO32 == d % TWO32 by { WrapSub(now, last); }
    assert d % TWO32 <= d;
  }

  lemma {:induction false} WrapSub(a: nat, b: nat)
    ensures (a % TWO32 - b % TWO32) % TWO32 == (a - b) % TWO32
  {
    var q := a / TWO32 - b / TWO32;
    assert a - b == q * TWO32 + (a % TWO32 - b % TWO32);
  }

  // ---------- a run of reads ----------

  /** A bucket in use: its limit, the ticks of the last refill and of now, and how much has been read. */
  datatype State = State(limit: ssize, last: nat, now: nat, total: nat)

  /** Time passes; or `bytes` are there to be read. */
  datatype Act = Advance(n: nat) | Offer(bytes: nat)

  /** bufferevent_update_buckets */
  function Updated(s: State, cfg: Cfg): (r: State)
    requires cfg.Ok()
  {
    var n := Ticks(s.now % TWO32, s.last % TWO32);
    if n == 0 then s else s.(limit := Refill(s.limit, cfg, n), last := s.now)
  }

  /** What _bufferevent_get_read_max allows of `bytes`, without a group. */
  function Allowed(limit: ssize, bytes: nat): nat
  {
    Min(bytes, if limit < 0 then 0 else limit)
  }

  /** One act; a read takes no more than the updated limit and is taken off it. */
  function Do(s: State, cfg: Cfg, a: Act): (r: State)
    requires cfg.Ok()
  {
    match a
    case Advance(n) => s.(now := s.now + n)
    case Offer(bytes) =>
      var u := Updated(s, cfg);
      u.(limit := u.limit - Allowed(u.limit, bytes), total := u.total + Allowed(u.limit, bytes))
  }

  function Play(s: State, cfg: Cfg, acts: seq<Act>): (r: State)
    requires cfg.Ok()
    decreases |acts|
  {
    if acts == [] then s else Play(Do(s, cfg, acts[0]), cfg, acts[1..])
  }

  /** No tick that came before the last access counts again. */
  lemma {:induction false} TicksSince(last: nat, t: nat, now: nat)
    requires t <= now && Ticks(t % TWO32, last % TWO32) == 0
    ensures Ticks(now % TWO32, last % TWO32) <= now - t
  {
    var m, n := (t % TWO32 - last % TWO32) % TWO32, (now % TWO32 - last % TWO32) % TWO32;
    assert n - m == (now - t) % TWO32 || n - m + TWO32 == (now - t) % TWO32 by { Between(last, t, now); }
    assert (now - t) % TWO32 <= now - t;
  }

  lemma {:induction false} Between(last: nat, t: nat, now: nat)
    requires t <= now
    ensures var m, n := (t % TWO32 - last % TWO32) % TWO32, (now % TWO32 - last % TWO32) % TWO32;
            n - m == (now - t) % TWO32 || n - m + TWO32 == (now - t) % TWO32
  {
    var m, n := (t % TWO32 - last % TWO32) % TWO32, (now % TWO32 - last % TWO32) % TWO32;
    WrapSub(t, last);
    WrapSub(now, last);
    var q := (now - last) / TWO32 - (t - last) / TWO32;
    assert now - t == q * TWO32 + (n - m);
    Remainder(now - t, q, n - m);
  }

  lemma {:induction false} Remainder(x: int, q: int, r: int)
    requires x == q * TWO32 + r && -TWO32 < r < TWO32
    ensures r == x % TWO32 || r + TWO32 == x % TWO32
  {
  }

  lemma {:induction false} NoTicks(t: nat)
    ensures Ticks(t % TWO32, t % TWO32) == 0
  {
  }

  lemma {:induction false} UpdatedBound(s: State, cfg: Cfg)
    requires cfg.Ok() && s.limit <= cfg.maximum
    ensures var u := Updated(s, cfg);
            && s.limit <= u.limit <= cfg.maximum && u.now == s.now && u.total == s.total
            && u.limit <= s.limit + cfg.rate * Ticks(s.now % TWO32, s.last % TWO32)
            && Ticks(s.now % TWO32, u.last % TWO32) == 0
  {
    hide Refill, Ticks;
    var n := Ticks(s.now % TWO32, s.last % TWO32);
    NoTicks(s.now);
    if n > 0 {
      RefillIsMin(s.limit, cfg, n);
      MulMono(cfg.rate, 0, n);
    } else {
      assert cfg.rate * 0 == 0;
    }
  }

  lemma {:induction false} Product(rate: nat, n: nat, t: nat)
    requires n <= t
    ensures 0 <= n * rate <= rate * t
  {
    MulMono(rate, n, t);
  }

  /** From an access at tick `t` on, what is read and what is left grow by at most the rate. */
  lemma {:induction false} SinceAccess(s: State, cfg: Cfg, acts: seq<Act>, t: nat)
    requires cfg.Ok() && s.limit <= cfg.maximum && t <= s.now && Ticks(t % TWO32, s.last % TWO32) == 0
    ensures var r := Play(s, cfg, acts);
            && s.now <= r.now && Min(s.limit, 0) <= r.limit
            && r.total + r.limit <= s.total + s.limit + cfg.rate * (r.now - t)
    decreases |acts|
  {
    hide Updated, Ticks;
    MulMono(cfg.rate, 0, s.now - t);
    if acts != [] {
      var s1 := Do(s, cfg, acts[0]);
      var r := Play(s, cfg, acts);
      match acts[0] {
      case Advance(_) =>
        SinceAccess(s1, cfg, acts[1..], t);
      case Offer(_) =>
        UpdatedBound(s, cfg);
        TicksSince(s.last, t, s.now);
        MulMono(cfg.rate, Ticks(s.now % TWO32, s.last % TWO32), s.now - t);
        SinceAccess(s1, cfg, acts[1..], s.now);
        assert cfg.rate * (r.now - s.now) + cfg.rate * (s.now - t) == cfg.rate * (r.now - t);
      }
    }
  }

  /**
   However the reads fall, and whenever the bucket was updated last, a bucket
   within its maximum lets through at most maximum + rate * T bytes in T ticks.
  */
  lemma {:induction false} Throughput(s: State, cfg: Cfg, acts: seq<Act>)
    requires cfg.Ok() && s.limit <= cfg.maximum
    ensures var r := Play(s, cfg, acts);
            s.now <= r.now && r.total - s.total <= cfg.maximum + cfg.rate * (r.now - s.now)
    decreases |acts|
  {
    hide Updated, Ticks;
    assert cfg.rate * 0 == 0;
    if acts != [] {
      var s1 := Do(s, cfg, acts[0]);
      var r := Play(s, cfg, acts);
      match acts[0] {
      case Advance(_) =>
        Throughput(s1, cfg, acts[1..]);
        MulMono(cfg.rate, r.now - s1.now, r.now - s.now);
      case Offer(_) =>
        UpdatedBound(s, cfg);
        SinceAccess(s1, cfg, acts[1..], s.now);
      }
    }
  }
}
