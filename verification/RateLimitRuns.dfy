/** Runs of bufferevents and the rate limit group they may be in (bufferevent_ratelim.c). */
module RateLimitRuns {
  import opened Options
  import opened TokenBucket
  import opened RateLimit

  /**
   What the program, the loop and other threads do to a group and to bufferevents; `busy` are those
   whose locks others hold.
  */
  datatype Step =
    | AddBegin(m: Bev)
    | AddEnd(m: Bev)
    | Remove(m: Bev)
    | Count(m: Bev, d: Dir, bytes: ssize, busy: set<Bev>, start: nat)
    | CountGroup(d: Dir, bytes: ssize, busy: set<Bev>, start: nat)
    | Adjust(m: Bev, d: Dir, bytes: ssize)
    | AdjustGroup(d: Dir, bytes: ssize, busy: set<Bev>, start: nat)
    | Tick(tick: u32, busy: set<Bev>, startRead: nat, startWrite: nat)
    | Ask(m: Bev, d: Dir, tick: u32)
    | RefillOf(m: Bev, tick: u32)
    | SetLimit(m: Bev, limits: Maybe<Limits>, tick: u32, same: bool)
    | Toggle(m: Bev, d: Dir, on: bool)
    | Hold(m: Bev, d: Dir, what: Flag)
    | Release(m: Bev, d: Dir, what: Flag)
  {
    /** The bufferevent it is about. */
    function Who(): set<Bev>
    {
      if CountGroup? || AdjustGroup? || Tick? then {} else {m}
    }

    predicate Refund()
    {
      (Count? || CountGroup? || Adjust? || AdjustGroup?) && bytes < 0
    }
  }

  /** The group and all bufferevents are as they should be: no wake-up is lost. */
  ghost predicate World(g: Group, bevs: set<Bev>)
    reads g, g.members, bevs
  {
    && g.Valid() && (forall m | m in g.members :: m in bevs)
    && forall b | b in bevs :: b.Valid() && (b !in g.members ==> Outside(b))
  }

  /** A bufferevent in no group. */
  ghost predicate Outside(b: Bev)
    reads b
  {
    b.group == null && BW_GROUP !in b.rd.suspended && BW_GROUP !in b.wr.suspended
  }

  ghost predicate AllCapped(bevs: set<Bev>)
    reads bevs
  {
    forall b | b in bevs :: b.Capped()
  }

  predicate InRange(limit: ssize, bytes: ssize)
  {
    -TWO63 <= limit - bytes < TWO63
  }

  /** The code can take this step now: the locks are free, the timer is pending, the limits stay in their type. */
  predicate Can(g: Group, s: Step)
    reads g, s.Who()
  {
    match s
    case AddBegin(m) => m !in g.members
    case AddEnd(m) => m in g.adding
    case Remove(m) => m in g.members && m !in g.adding
    case Count(m, d, bytes, _, start) =>
      && m !in g.adding && (m.cfg.Some? ==> InRange(m.Of(d).limit, bytes))
      && (m in g.members ==> start < |g.members| && InRange(g.Of(d).limit, bytes))
    case CountGroup(d, bytes, _, start) => InRange(g.Of(d).limit, bytes) && (g.members != [] ==> start < |g.members|)
    case Adjust(m, d, bytes) => m !in g.adding && m.cfg.Some? && InRange(m.Of(d).limit, bytes)
    case AdjustGroup(d, bytes, _, start) => InRange(g.Of(d).limit, bytes) && (g.members != [] ==> start < |g.members|)
    case Tick(_, _, startRead, startWrite) => g.members != [] ==> startRead < |g.members| && startWrite < |g.members|
    case Ask(m, _, _) => m !in g.adding
    case RefillOf(m, _) => m !in g.adding && m.timer
    case SetLimit(m, limits, _, same) =>
      m !in g.adding && (limits.Some? ==> limits.value.read.Ok() && limits.value.write.Ok()) && (same ==> limits == m.cfg)
    case Toggle(m, _, _) => m !in g.adding
    case Hold(m, _, what) => m !in g.adding && what != BW && what != BW_GROUP
    case Release(m, _, what) => m !in g.adding && what != BW && what != BW_GROUP
  }

  /** No refill of this step wraps around. */
  predicate Safe(s: Step)
    reads s.Who()
  {
    s.Ask? || s.RefillOf? ==> s.m.Steady(s.tick)
  }

  // ---------- the group's books ----------

  /** What a group is about: its limits, the tick of the last refill, and its members. */
  datatype Books = Books(read: ssize, write: ssize, last: u32, members: set<Bev>)
  {
    function Debit(d: Dir, bytes: ssize): Books
    {
      if d.Read? then this.(read := Less(read, bytes)) else this.(write := Less(write, bytes))
    }

    /** After one step. */
    function Next(cfg: Limits, s: Step): Books
      requires cfg.read.Ok() && cfg.write.Ok()
    {
      match s
      case AddBegin(m) => this.(members := members + {m})
      case Remove(m) => this.(members := members - {m})
      case Count(m, d, bytes, _, _) => if m in members then Debit(d, bytes) else this
      case CountGroup(d, bytes, _, _) => Debit(d, bytes)
      case AdjustGroup(d, bytes, _, _) => Debit(d, bytes)
      case Tick(tick, _, _, _) =>
        var n := Ticks(tick, last);
        if n == 0 then this else Books(Refill(read, cfg.read, n), Refill(write, cfg.write, n), tick, members)
      case _ => this
    }

    /** After a run. */
    function After(cfg: Limits, steps: seq<Step>): Books
      requires cfg.read.Ok() && cfg.write.Ok()
      decreases |steps|
    {
      if steps == [] then this else After(cfg, steps[..|steps| - 1]).Next(cfg, steps[|steps| - 1])
    }
  }

  function Less(limit: ssize, bytes: ssize): ssize
  {
    if InRange(limit, bytes) then limit - bytes else limit
  }

  ghost function BooksOf(g: Group): Books
    reads g
  {
    Books(g.rd.limit, g.wr.limit, g.last, set m | m in g.members)
  }

  method Join(g: Group, s: Step, ghost bevs: set<Bev>)
    requires World(g, bevs) && s.Who() <= bevs && Can(g, s) && (s.AddBegin? || s.AddEnd? || s.Remove?)
    modifies g`members, g`adding, bevs
    ensures World(g, bevs) && BooksOf(g) == old(BooksOf(g)).Next(g.cfg, s)
    ensures old(AllCapped(bevs)) ==> AllCapped(bevs)
  {
    hide Bev.Valid;
    match s {
    case AddBegin(m) =>
      g.AddBegin(m);
    case AddEnd(m) =>
      g.AddEnd(m);
    case Remove(m) =>
      ghost var k :| 0 <= k < |g.members| && g.members[k] == m;
      g.Remove(m, true, k);
    }
  }

  /** Bytes read or written by a bufferevent. */
  method Charge(g: Group, s: Step, ghost bevs: set<Bev>)
    requires World(g, bevs) && s.Who() <= bevs && Can(g, s) && s.Count?
    modifies g`rd, g`wr, g`last, bevs
    ensures World(g, bevs) && BooksOf(g) == old(BooksOf(g)).Next(g.cfg, s)
    ensures old(AllCapped(bevs)) && !s.Refund() ==> AllCapped(bevs)
  {
    hide Bev.Valid;
    if s.m in g.members {
      g.DecrementBuckets(s.m, s.d, s.bytes, s.busy - {s.m} + g.adding.Keys, s.start);
    } else {
      s.m.OwnDecrement(s.d, s.bytes);
    }
  }

  /** Steps of the group. */
  method ChargeGroup(g: Group, s: Step, ghost bevs: set<Bev>)
    requires World(g, bevs) && Can(g, s) && (s.CountGroup? || s.AdjustGroup? || s.Tick?)
    modifies g`rd, g`wr, g`last, bevs
    ensures World(g, bevs) && BooksOf(g) == old(BooksOf(g)).Next(g.cfg, s)
    ensures old(AllCapped(bevs)) ==> AllCapped(bevs)
  {
    hide Bev.Valid;
    match s {
    case CountGroup(d, bytes, busy, start) =>
      g.Decrement(d, bytes, busy + g.adding.Keys, start);
    case AdjustGroup(d, bytes, busy, start) =>
      g.DecrementLimit(d, bytes, busy + g.adding.Keys, start);
    case Tick(tick, busy, startRead, startWrite) =>
      g.RefillCallback(tick, busy + g.adding.Keys, startRead, startWrite);
    }
  }

  /** Steps that refill one bufferevent's bucket. */
  method Refresh(g: Group, s: Step, ghost bevs: set<Bev>)
    requires World(g, bevs) && s.Who() <= bevs && Can(g, s) && (s.Ask? || s.RefillOf?)
    modifies bevs
    ensures World(g, bevs) <==> old(Safe(s))
    ensures old(AllCapped(bevs)) ==> AllCapped(bevs)
  {
    hide Bev.Valid, NoWrap, Ticks, Refill;
    var m := s.m;
    if m in g.members {
      if s.Ask? {
        var _ := g.GetRlimMax(m, s.d, s.tick);
      } else {
        g.MemberRefill(m, s.tick);
      }
    } else {
      if s.Ask? {
        var _ := m.OwnMax(s.d, s.tick);
      } else {
        m.RefillCallback(s.tick);
      }
    }
  }

  /** Steps that set one bufferevent. */
  method Configure(g: Group, s: Step, ghost bevs: set<Bev>)
    requires World(g, bevs) && s.Who() <= bevs && Can(g, s)
      && (s.SetLimit? || s.Adjust? || s.Toggle? || s.Hold? || s.Release?)
    modifies s.m`rd, s.m`wr, s.m`last, s.m`timer, s.m`cfg
    ensures World(g, bevs)
    ensures old(AllCapped(bevs)) && !s.Refund() ==> AllCapped(bevs)
  {
    hide Bev.Valid, Bev.Capped;
    if s.SetLimit? {
      Limit(s);
    } else if s.Adjust? {
      AdjustOwn(s);
    } else {
      Switch(s);
    }
  }

  method Limit(s: Step)
    requires s.SetLimit? && s.m.Valid()
    requires (s.limits.Some? ==> s.limits.value.read.Ok() && s.limits.value.write.Ok())
      && (s.same ==> s.limits == s.m.cfg)
    modifies s.m`rd, s.m`wr, s.m`last, s.m`timer, s.m`cfg
    ensures s.m.Valid() && (old(s.m.Capped()) ==> s.m.Capped())
    ensures BW_GROUP in s.m.rd.suspended <==> BW_GROUP in old(s.m.rd).suspended
    ensures BW_GROUP in s.m.wr.suspended <==> BW_GROUP in old(s.m.wr).suspended
  {
    s.m.SetRateLimit(s.limits, s.tick, s.same);
  }

  method AdjustOwn(s: Step)
    requires s.Adjust? && s.m.Valid() && s.m.cfg.Some? && InRange(s.m.Of(s.d).limit, s.bytes)
    modifies s.m`rd, s.m`wr, s.m`timer
    ensures s.m.Valid() && (old(s.m.Capped()) && s.bytes >= 0 ==> s.m.Capped())
    ensures BW_GROUP in s.m.rd.suspended <==> BW_GROUP in old(s.m.rd).suspended
    ensures BW_GROUP in s.m.wr.suspended <==> BW_GROUP in old(s.m.wr).suspended
  {
    s.m.DecrementLimit(s.d, s.bytes);
    assert s.m.Of(Flip(s.d)) == old(s.m.Of(Flip(s.d)));
  }

  method Switch(s: Step)
    requires (s.Toggle? || ((s.Hold? || s.Release?) && s.what != BW && s.what != BW_GROUP)) && s.m.Valid()
    modifies s.m`rd, s.m`wr
    ensures s.m.Valid() && (old(s.m.Capped()) ==> s.m.Capped())
    ensures BW_GROUP in s.m.rd.suspended <==> BW_GROUP in old(s.m.rd).suspended
    ensures BW_GROUP in s.m.wr.suspended <==> BW_GROUP in old(s.m.wr).suspended
  {
    match s {
    case Toggle(m, d, on) =>
      if on {
        m.Enable(d);
      } else {
        m.Disable(d);
      }
    case Hold(m, d, what) =>
      m.Suspend(d, what);
    case Release(m, d, what) =>
      m.Unsuspend(d, what);
    }
    assert s.m.Of(Flip(s.d)) == old(s.m.Of(Flip(s.d)));
  }

  lemma {:induction false} CappedIsSafe(s: Step, bevs: set<Bev>)
    requires s.Who() <= bevs && AllCapped(bevs)
    ensures Safe(s)
  {
    if s.Ask? || s.RefillOf? {
      assert s.m in bevs;
      s.m.CappedIsSteady(s.tick);
    }
  }

  /** One step that can be taken: it keeps the invariant exactly if no refill wraps around. */
  method Perform(g: Group, s: Step, ghost bevs: set<Bev>)
    requires World(g, bevs) && s.Who() <= bevs && Can(g, s)
    modifies g, bevs
    ensures World(g, bevs) <==> old(Safe(s))
    ensures g.cfg == old(g.cfg) && g.cfg.read.Ok() && g.cfg.write.Ok() && BooksOf(g) == old(BooksOf(g)).Next(g.cfg, s)
    ensures old(AllCapped(bevs)) && !s.Refund() ==> old(Safe(s)) && AllCapped(bevs)
  {
    hide World, AllCapped, BooksOf;
    if AllCapped(bevs) {
      CappedIsSafe(s, bevs);
    }
    WorldCfg(g, bevs);
    match s {
    case AddBegin(_) => Join(g, s, bevs);
    case AddEnd(_) => Join(g, s, bevs);
    case Remove(_) => Join(g, s, bevs);
    case Count(_, _, _, _, _) => Charge(g, s, bevs);
    case CountGroup(_, _, _, _) => ChargeGroup(g, s, bevs);
    case AdjustGroup(_, _, _, _) => ChargeGroup(g, s, bevs);
    case Tick(_, _, _, _) => ChargeGroup(g, s, bevs);
    case Ask(_, _, _) => Refresh(g, s, bevs);
    case RefillOf(_, _) => Refresh(g, s, bevs);
    case _ => Configure(g, s, bevs);
    }
  }

  /**
   Any run of steps, up to the first one that cannot be taken or whose refill
   would wrap around: no wake-up is lost, and the group's books are what the
   steps make of them.  Without refunds no refill wraps around.
  */
  method Run(g: Group, steps: seq<Step>, ghost bevs: set<Bev>) returns (n: nat)
    requires World(g, bevs) && forall i | 0 <= i < |steps| :: steps[i].Who() <= bevs
    modifies g, bevs
    ensures n <= |steps| && World(g, bevs)
    ensures g.cfg == old(g.cfg) && g.cfg.read.Ok() && g.cfg.write.Ok()
      && BooksOf(g) == old(BooksOf(g)).After(g.cfg, steps[..n])
    ensures n < |steps| ==> !Can(g, steps[n]) || !Safe(steps[n])
    ensures old(AllCapped(bevs)) && (forall i | 0 <= i < |steps| :: !steps[i].Refund()) ==>
      AllCapped(bevs) && (n < |steps| ==> !Can(g, steps[n]))
  {
    hide World, AllCapped, Can, Safe, BooksOf, Books.Next;
    n := 0;
    WorldCfg(g, bevs);
    assert steps[..0] == [];
    while n < |steps|
      invariant n <= |steps| && World(g, bevs) && g.cfg == old(g.cfg) && g.cfg.read.Ok() && g.cfg.write.Ok()
      invariant BooksOf(g) == old(BooksOf(g)).After(g.cfg, steps[..n])
      invariant old(AllCapped(bevs)) && (forall i | 0 <= i < |steps| :: !steps[i].Refund()) ==> AllCapped(bevs)
    {
      if !Can(g, steps[n]) || !Safe(steps[n]) {
        if AllCapped(bevs) {
          CappedIsSafe(steps[n], bevs);
        }
        return;
      }
      assert steps[..n + 1][..n] == steps[..n];
      Perform(g, steps[n], bevs);
      n := n + 1;
    }
  }

  lemma {:induction false} WorldCfg(g: Group, bevs: set<Bev>)
    requires World(g, bevs)
    ensures g.cfg.read.Ok() && g.cfg.write.Ok()
  {
  }

  /**
   After any run, one tick that brings a direction's bucket to the least share wakes up every member
   whose lock is free.
  */
  method Wake(g: Group, tick: u32, startRead: nat, startWrite: nat, ghost bevs: set<Bev>)
    requires World(g, bevs) && g.adding == map[]
      && (g.members != [] ==> startRead < |g.members| && startWrite < |g.members|)
    modifies g, bevs
    ensures World(g, bevs)
    ensures old(g.Refilled(Read, tick)) >= g.minShare ==> forall m | m in g.members :: BW_GROUP !in m.rd.suspended
    ensures old(g.Refilled(Write, tick)) >= g.minShare ==> forall m | m in g.members :: BW_GROUP !in m.wr.suspended
  {
    WorldCfg(g, bevs);
    g.RefillCallback(tick, {}, startRead, startWrite);
  }

  /**
   A bufferevent whose refill timer fires when its bucket has something again goes on, in each
   direction by itself.
  */
  method WakeOwn(b: Bev, d: Dir, tick: u32)
    requires b.Valid() && b.timer && b.cfg.Some? && b.Refilled(d, tick) > 0
    modifies b
    ensures BW !in b.Of(d).suspended && b.Of(d).limit == old(b.Refilled(d, tick))
    ensures old(b.Of(d)).enabled && old(b.Of(d)).suspended <= {BW} && old(b.Steady(tick)) ==> b.Of(d).active
  {
    b.RefillCallback(tick);
    assert old(b.Of(d)).suspended <= {BW} ==> b.Of(d).suspended == {};
  }

  // ---------- what a group grants in one round ----------

  function Sum(xs: seq<int>): int
  {
    if xs == [] then 0 else Sum(xs[..|xs| - 1]) + xs[|xs| - 1]
  }

  lemma {:induction false} Product(a: int, b: int, n: nat)
    requires a <= b
    ensures a * n <= b * n
  {
  }

  lemma {:induction false} Cancel(a: int, b: int, n: nat)
    requires n > 0 && a * n <= b * n
    ensures a <= b
  {
    if a > b {
      Product(b + 1, a, n);
    }
  }

  lemma {:induction false} SumTimes(xs: seq<int>, n: nat, most: int)
    requires forall i | 0 <= i < |xs| :: xs[i] * n <= most
    ensures Sum(xs) * n <= most * |xs|
  {
    if xs != [] {
      var k := |xs| - 1;
      SumTimes(xs[..k], n, most);
      assert Sum(xs) * n == Sum(xs[..k]) * n + xs[k] * n;
      assert most * |xs| == most * k + most;
    }
  }

  /** Equal shares, or least shares, are together no more than the bucket and all least shares. */
  lemma {:induction false} SumBound(xs: seq<int>, limit: nat, least: nat)
    requires forall i | 0 <= i < |xs| :: xs[i] <= least || xs[i] * |xs| <= limit
    ensures Sum(xs) <= limit + |xs| * least
  {
    var n := |xs|;
    var most := limit + least * n;
    Product(0, least, n);
    forall i | 0 <= i < n
      ensures xs[i] * n <= most
    {
      if xs[i] <= least {
        Product(xs[i], least, n);
      }
    }
    SumTimes(xs, n, most);
    if n > 0 {
      Cancel(Sum(xs), most, n);
    }
  }

  method AskOne(g: Group, m: Bev, d: Dir, tick: u32, ghost bevs: set<Bev>) returns (max: int)
    requires World(g, bevs) && m in g.members && m !in g.adding && m.Steady(tick)
    modifies m`rd, m`wr, m`last
    ensures World(g, bevs) && max >= 0 && (g.Of(d).suspended ==> max == 0)
    ensures !g.Of(d).suspended ==> max <= g.minShare || max * |g.members| <= g.Of(d).limit || max == 0
  {
    hide Bev.Valid, Bev.Steady, NoWrap;
    max := g.GetRlimMax(m, d, tick);
  }

  /**
   Every member asks once: together they may transfer what is in the bucket and a least share each,
   and nothing while the group is suspended.
  */
  method Round(g: Group, d: Dir, tick: u32, ghost bevs: set<Bev>) returns (grants: seq<int>)
    requires World(g, bevs) && g.adding == map[] && forall m | m in g.members :: m.Steady(tick)
    modifies bevs
    ensures World(g, bevs) && |grants| == |g.members| && forall i | 0 <= i < |grants| :: grants[i] >= 0
    ensures g.Of(d).suspended ==> Sum(grants) == 0
    ensures !g.Of(d).suspended && g.Of(d).limit >= 0 && g.minShare >= 0 ==>
      Sum(grants) <= g.Of(d).limit + |g.members| * g.minShare
  {
    hide Granted, Bev.Steady;
    grants := [];
    var i := 0;
    while i < |g.members|
      invariant i == |grants| <= |g.members| && World(g, bevs)
      invariant forall k | i <= k < |g.members| :: g.members[k].Steady(tick)
      invariant forall k | 0 <= k < i :: 0 <= grants[k]
      invariant g.Of(d).suspended ==> Sum(grants) == 0
      invariant !g.Of(d).suspended ==>
        forall k | 0 <= k < i :: grants[k] <= g.minShare || grants[k] * |g.members| <= g.Of(d).limit || grants[k] == 0
    {
      var max := AskOne(g, g.members[i], d, tick, bevs);
      assert (grants + [max])[..i] == grants;
      grants := grants + [max];
      i := i + 1;
    }
    if !g.Of(d).suspended && g.Of(d).limit >= 0 && g.minShare >= 0 {
      SumBound(grants, g.Of(d).limit, g.minShare);
    }
  }

  // ---------- what a refund can do ----------

  /** A full bucket of 10 at rate 1, from which -1 bytes are taken: a tick later its limit is 12. */
  method RefundIsKept() returns (b: Bev)
    ensures b.cfg == Some(Limits(Cfg(1, 10), Cfg(1, 10))) && b.rd.limit == 12 && b.wr.limit == 10
  {
    b := new Bev();
    b.SetRateLimit(Some(Limits(Cfg(1, 10), Cfg(1, 10))), 0, false);
    var max := b.OwnMax(Read, 9);
    assert b.rd.limit == Refill(1, Cfg(1, 10), 9) == 10;
    RefillAboveMaximum();
    b.OwnDecrement(Read, -1);
    b.Update(10);
  }

  /**
   A full bucket of 2 ^ 62, into which the user puts one byte back: two ticks later the
   limit has wrapped around to a negative one, and the direction is
   neither suspended nor is its refill timer pending.
  */
  method RefundStalls() returns (b: Bev, max: int)
    ensures b.rd.limit == max < 0 && b.rd.suspended == {} && !b.timer && !b.Valid()
  {
    hide Refill, Ticks, NoWrap;
    var full := Cfg(TWO63 / 2, TWO63 / 2);
    b := new Bev();
    b.SetRateLimit(Some(Limits(full, full)), 0, false);
    b.DecrementLimit(Read, -1);
    WrapsAround();
    assert b.rd.suspended == {};
    max := b.OwnMax(Read, 2);
  }

  lemma {:induction false} WrapsAround()
    ensures var full := Cfg(TWO63 / 2, TWO63 / 2);
            Refill(TWO63 / 2 + 1, full, 2) < 0 && !NoWrap(TWO63 / 2 + 1, full, 2) && Ticks(2, 0) == 2
  {
  }
}
