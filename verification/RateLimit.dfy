/**
 Rate limits of bufferevents and groups of bufferevents: suspending, waking up
 again, and the group's walk over members it cannot always lock
 (bufferevent_ratelim.c, bufferevent.c).
*/
module RateLimit {
  import opened Options
  import opened TokenBucket

  datatype Dir = Read | Write

  function Flip(d: Dir): Dir
  {
    if d.Read? then Write else Read
  }

  /** BEV_SUSPEND_* */
  datatype Flag = WM | BW | BW_GROUP | LOOKUP | FILT_READ

  datatype Limits = Limits(read: Cfg, write: Cfg)
  {
    function Of(d: Dir): Cfg
    {
      if d.Read? then read else write
    }
  }

  /**
   One direction of a bufferevent: its bucket, why it is suspended, whether the user enabled it and
   the backend runs it.
  */
  datatype Side = Side(limit: ssize, suspended: set<Flag>, enabled: bool, active: bool)
  {
    /** The backend runs exactly what is enabled and not suspended. */
    predicate Ok()
    {
      active <==> enabled && suspended == {}
    }
  }

  class Bev {
    var rd: Side
    var wr: Side
    var cfg: Maybe<Limits>
    var last: u32
    var timer: bool         // refill_bucket_event is pending
    var group: Group?

    function Of(d: Dir): Side
      reads this`rd, this`wr
    {
      if d.Read? then rd else wr
    }

    method Put(d: Dir, s: Side)
      modifies this`rd, this`wr
      ensures Of(d) == s && Of(Flip(d)) == old(Of(Flip(d)))
    {
      if d.Read? {
        rd := s;
      } else {
        wr := s;
      }
    }

    /** No wake-up is lost: an exhausted direction is suspended, and while one is, the refill timer runs. */
    ghost predicate Awake()
      reads this`rd, this`wr, this`cfg, this`timer
    {
      && (cfg.Some? ==> cfg.value.read.Ok() && cfg.value.write.Ok())
      && (cfg.Some? && rd.limit <= 0 ==> BW in rd.suspended) && (cfg.Some? && wr.limit <= 0 ==> BW in wr.suspended)
      && (BW in rd.suspended || BW in wr.suspended ==> cfg.Some? && timer)
    }

    ghost predicate Valid()
      reads this`rd, this`wr, this`cfg, this`timer
    {
      rd.Ok() && wr.Ok() && Awake()
    }

    /** The limits are within their maxima: no refund has lifted them above. */
    ghost predicate Capped()
      reads this
    {
      cfg.Some? ==> rd.limit <= cfg.value.read.maximum && wr.limit <= cfg.value.write.maximum
    }

    /**
     No update at this tick can exhaust a direction behind the code's back: it is suspended already,
     or its refill does not wrap around.
    */
    predicate Steady(tick: u32)
      reads this
    {
      cfg.Some? ==>
        && (BW in rd.suspended || NoWrap(rd.limit, cfg.value.read, Ticks(tick, last)))
        && (BW in wr.suspended || NoWrap(wr.limit, cfg.value.write, Ticks(tick, last)))
    }

    constructor ()
      ensures Valid() && group == null && cfg == None
      ensures rd.suspended == wr.suspended == {}
    {
      rd, wr := Side(0, {}, false, false), Side(0, {}, false, false);
      cfg, last, timer, group := None, 0, false, null;
    }

    /** bufferevent_suspend_read, bufferevent_suspend_write */
    method Suspend(d: Dir, what: Flag)
      requires Of(d).Ok()
      modifies this`rd, this`wr
      ensures Of(d).Ok() && Of(d) == old(Of(d)).(suspended := old(Of(d)).suspended + {what}, active := Of(d).active)
      ensures Of(Flip(d)) == old(Of(Flip(d)))
    {
      var s := Of(d);
      if s.suspended == {} {
        s := s.(active := false); // be_ops->disable
      }
      Put(d, s.(suspended := s.suspended + {what}));
    }

    /** bufferevent_unsuspend_read, bufferevent_unsuspend_write */
    method Unsuspend(d: Dir, what: Flag)
      requires Of(d).Ok()
      modifies this`rd, this`wr
      ensures Of(d).Ok() && Of(d) == old(Of(d)).(suspended := old(Of(d)).suspended - {what}, active := Of(d).active)
      ensures Of(Flip(d)) == old(Of(Flip(d)))
    {
      var s := Of(d);
      s := s.(suspended := s.suspended - {what});
      if s.suspended == {} && s.enabled {
        s := s.(active := true); // be_ops->enable
      }
      Put(d, s);
    }

    /** bufferevent_enable for one direction */
    method Enable(d: Dir)
      requires Valid()
      modifies this`rd, this`wr
      ensures Valid() && Of(d) == old(Of(d)).(enabled := true, active := Of(d).active)
      ensures Of(Flip(d)) == old(Of(Flip(d)))
    {
      var s := Of(d).(enabled := true);
      if s.suspended == {} {
        s := s.(active := true);
      }
      Put(d, s);
    }

    /** bufferevent_disable for one direction */
    method Disable(d: Dir)
      requires Valid()
      modifies this`rd, this`wr
      ensures Valid() && Of(d) == old(Of(d)).(enabled := false, active := Of(d).active)
      ensures Of(Flip(d)) == old(Of(Flip(d)))
    {
      Put(d, Of(d).(enabled := false, active := false));
    }

    /** The limit after an update of the bucket. */
    ghost function Refilled(d: Dir, tick: u32): ssize
      requires cfg.Some? && cfg.value.Of(d).Ok()
      reads this
    {
      var n := Ticks(tick, last);
      if n == 0 then Of(d).limit else Refill(Of(d).limit, cfg.value.Of(d), n)
    }

    /** ev_token_bucket_update */
    method Update(tick: u32)
      requires cfg.Some? && cfg.value.read.Ok() && cfg.value.write.Ok()
      modifies this`rd, this`wr, this`last
      ensures rd == old(rd).(limit := old(Refilled(Read, tick))) && wr == old(wr).(limit := old(Refilled(Write, tick)))
      ensures last == if Ticks(tick, old(last)) == 0 then old(last) else tick
    {
      var n := Ticks(tick, last);
      if n == 0 {
        return;
      }
      rd := rd.(limit := Refill(rd.limit, cfg.value.read, n));
      wr := wr.(limit := Refill(wr.limit, cfg.value.write, n));
      last := tick;
    }

    /** What an update means for the invariant. */
    ghost predicate Kept(d: Dir, tick: u32)
      requires cfg.Some? && cfg.value.Of(d).Ok()
      reads this
    {
      && (Of(d).limit > 0 ==> (Refilled(d, tick) > 0 <==> NoWrap(Of(d).limit, cfg.value.Of(d), Ticks(tick, last))))
      && (Of(d).limit <= cfg.value.Of(d).maximum ==> Of(d).limit <= Refilled(d, tick) <= cfg.value.Of(d).maximum)
    }

    lemma {:induction false} UpdateKept(d: Dir, tick: u32)
      requires cfg.Some? && cfg.value.Of(d).Ok()
      ensures Kept(d, tick)
    {
      hide Refill, Ticks;
      var n := Ticks(tick, last);
      if n == 0 {
        assert n * cfg.value.Of(d).rate == 0;
      } else {
        if Of(d).limit > 0 {
          RefillStaysPositive(Of(d).limit, cfg.value.Of(d), n);
        }
        if Of(d).limit <= cfg.value.Of(d).maximum {
          Rises(Of(d).limit, cfg.value.Of(d), n);
        }
      }
    }

    /**
     The bufferevent's own part of _bufferevent_get_rlim_max; it may lose a wake-up exactly if the
     update is not steady.
    */
    method OwnMax(d: Dir, tick: u32) returns (max: int)
      requires Valid()
      modifies this`rd, this`wr, this`last
      ensures Valid() <==> old(Steady(tick))
      ensures old(Capped()) ==> old(Steady(tick)) && Capped() && (cfg.Some? ==> Of(d).limit >= old(Of(d)).limit)
      ensures cfg.Some? ==>
        max == Of(d).limit && rd.limit == old(Refilled(Read, tick)) && wr.limit == old(Refilled(Write, tick))
      ensures cfg.Some? ==> last == if Ticks(tick, old(last)) == 0 then old(last) else tick
      ensures cfg.None? ==> max == MAX_EVER && rd == old(rd) && wr == old(wr)
      ensures rd == old(rd).(limit := rd.limit) && wr == old(wr).(limit := wr.limit)
    {
      hide Ticks, Refill, NoWrap;
      max := MAX_EVER;
      if cfg.Some? {
        UpdateKept(Read, tick);
        UpdateKept(Write, tick);
        CappedIsSteady(tick);
        Update(tick);
        max := Of(d).limit;
      }
    }

    lemma {:induction false} CappedIsSteady(tick: u32)
      ensures Capped() ==> Steady(tick)
    {
    }

    /**
     The bufferevent's own part of _bufferevent_decrement_read_buckets and its sister; negative
     `bytes` are a refund.
    */
    method OwnDecrement(d: Dir, bytes: ssize)
      requires Valid() && (cfg.Some? ==> -TWO63 <= Of(d).limit - bytes < TWO63)
      modifies this`rd, this`wr, this`timer
      ensures Valid()
      ensures cfg.None? ==> rd == old(rd) && wr == old(wr) && timer == old(timer)
      ensures cfg.Some? ==>
        && Of(d).limit == old(Of(d)).limit - bytes && (BW in Of(d).suspended <==> Of(d).limit <= 0)
        && (forall f | f != BW :: f in Of(d).suspended <==> f in old(Of(d)).suspended)
      ensures Of(Flip(d)) == old(Of(Flip(d)))
      ensures cfg.Some? ==>
        timer == if Of(d).limit <= 0 then true else if BW in old(Of(d)).suspended then BW in Of(Flip(d)).suspended else old(timer)
    {
      if cfg.None? {
        return;
      }
      Put(d, Of(d).(limit := Of(d).limit - bytes));
      if Of(d).limit <= 0 {
        Suspend(d, BW);
        timer := true;
      } else if BW in Of(d).suspended {
        if BW !in Of(Flip(d)).suspended {
          timer := false;
        }
        Unsuspend(d, BW);
      }
    }

    /**
     bufferevent_decrement_read_limit and its sister: the user takes bytes off the bucket, or puts
     some back; only crossing 0 does anything.
    */
    method DecrementLimit(d: Dir, decr: ssize)
      requires Valid() && cfg.Some? && -TWO63 <= Of(d).limit - decr < TWO63
      modifies this`rd, this`wr, this`timer
      ensures Valid() && Of(d).limit == old(Of(d)).limit - decr && Of(d).enabled == old(Of(d)).enabled
      ensures BW in Of(d).suspended <==> Of(d).limit <= 0 || (BW in old(Of(d)).suspended && old(Of(d)).limit > 0)
      ensures forall f | f != BW :: f in Of(d).suspended <==> f in old(Of(d)).suspended
      ensures Of(Flip(d)) == old(Of(Flip(d)))
      ensures timer == if old(Of(d)).limit > 0 && Of(d).limit <= 0 then true
                       else if old(Of(d)).limit <= 0 && Of(d).limit > 0 then BW in Of(Flip(d)).suspended else old(timer)
    {
      var was := Of(d).limit;
      Put(d, Of(d).(limit := was - decr));
      if was > 0 && Of(d).limit <= 0 {
        Suspend(d, BW);
        timer := true;
      } else if was <= 0 && Of(d).limit > 0 {
        if BW !in Of(Flip(d)).suspended {
          timer := false;
        }
        Unsuspend(d, BW);
      }
    }

    /** _bev_refill_callback: the timer has fired. */
    method RefillCallback(tick: u32)
      requires Valid() && timer
      modifies this`rd, this`wr, this`last, this`timer
      ensures Valid() <==> old(Steady(tick))
      ensures old(Capped()) ==> old(Steady(tick)) && Capped()
      ensures cfg.None? ==> rd == old(rd) && wr == old(wr)
      ensures cfg.Some? ==>
        Woken(old(rd), rd, old(Refilled(Read, tick))) && Woken(old(wr), wr, old(Refilled(Write, tick)))
    {
      hide Ticks, Refill, NoWrap;
      timer := false;
      if cfg.None? {
        return;
      }
      UpdateKept(Read, tick);
      UpdateKept(Write, tick);
      CappedIsSteady(tick);
      Update(tick);
      var again := false;
      if BW in rd.suspended {
        if rd.limit > 0 {
          Unsuspend(Read, BW);
        } else {
          again := true;
        }
      }
      if BW in wr.suspended {
        if wr.limit > 0 {
          Unsuspend(Write, BW);
        } else {
          again := true;
        }
      }
      if again {
        timer := true;
      }
    }

    /** ev_token_bucket_init: a new bucket starts with one tick's rate, a bucket in use is only clipped. */
    method InitBucket(limits: Limits, tick: u32, reinitialize: bool)
      requires limits.read.Ok() && limits.write.Ok()
      modifies this`rd, this`wr, this`last
      ensures rd == old(rd).(limit := if !reinitialize then limits.read.rate else Least(old(rd.limit), limits.read.maximum))
      ensures wr == old(wr).(limit := if !reinitialize then limits.write.rate else Least(old(wr.limit), limits.write.maximum))
      ensures last == if reinitialize then old(last) else tick
    {
      if reinitialize {
        if rd.limit > limits.read.maximum {
          rd := rd.(limit := limits.read.maximum);
        }
        if wr.limit > limits.write.maximum {
          wr := wr.(limit := limits.write.maximum);
        }
      } else {
        rd, wr, last := rd.(limit := limits.read.rate), wr.(limit := limits.write.rate), tick;
      }
    }

    /** bufferevent_set_rate_limit with a configuration, which may be the `same` object as before, or none */
    method SetRateLimit(limits: Maybe<Limits>, tick: u32, same: bool)
      requires Valid() && (limits.Some? ==> limits.value.read.Ok() && limits.value.write.Ok())
        && (same ==> limits == cfg)
      modifies this`rd, this`wr, this`last, this`timer, this`cfg
      ensures Valid() && cfg == limits
      ensures limits.Some? && !same ==> Capped()
      ensures limits.Some? && same ==> rd == old(rd) && wr == old(wr) && timer == old(timer)
      ensures limits.None? ==>
        !timer && BW !in rd.suspended && BW !in wr.suspended && rd.limit == old(rd.limit) && wr.limit == old(wr.limit)
      ensures limits.Some? && !same ==>
        && rd.limit == (if old(cfg).None? then limits.value.read.rate else Least(old(rd.limit), limits.value.read.maximum))
        && wr.limit == (if old(cfg).None? then limits.value.write.rate else Least(old(wr.limit), limits.value.write.maximum))
        && (BW in rd.suspended <==> rd.limit <= 0) && (BW in wr.suspended <==> wr.limit <= 0)
        && (timer <==> rd.limit <= 0 || wr.limit <= 0)
      ensures last == if limits.Some? && old(cfg).None? then tick else old(last)
      ensures forall f | f != BW :: (f in rd.suspended <==> f in old(rd).suspended) && (f in wr.suspended <==> f in old(wr).suspended)
      ensures rd.enabled == old(rd.enabled) && wr.enabled == old(wr.enabled)
    {
      if limits.None? {
        cfg := None;
        Unsuspend(Read, BW);
        Unsuspend(Write, BW);
        timer := false;
        return;
      }
      if same {
        return;
      }
      var reinit := cfg.Some?;
      cfg := limits;
      InitBucket(limits.value, tick, reinit);
      timer := false;
      var suspended := false;
      if rd.limit > 0 {
        Unsuspend(Read, BW);
      } else {
        Suspend(Read, BW);
        suspended := true;
      }
      if wr.limit > 0 {
        Unsuspend(Write, BW);
      } else {
        Suspend(Write, BW);
        suspended := true;
      }
      if suspended {
        timer := true;
      }
    }
  }

  function Least(a: ssize, b: ssize): (r: ssize)
    ensures r <= a && r <= b && (r == a || r == b)
  {
    if a > b then b else a
  }

  /** A direction after its refill: it runs again as far as its own bucket is concerned, once the limit is positive. */
  predicate Woken(before: Side, after: Side, limit: ssize)
  {
    && after.limit == limit && after.enabled == before.enabled
    && (BW in after.suspended <==> BW in before.suspended && limit <= 0)
    && forall f | f != BW :: f in after.suspended <==> f in before.suspended
  }

  /** MAX_TO_READ_EVER, MAX_TO_WRITE_EVER */
  const MAX_EVER := 16384

  /** A refill never lowers a limit that is within its maximum. */
  lemma {:induction false} Rises(limit: ssize, cfg: Cfg, n: u32)
    requires cfg.Ok() && limit <= cfg.maximum && n <= INT_MAX
    ensures n > 0 ==> limit <= Refill(limit, cfg, n) <= cfg.maximum
  {
    if n > 0 {
      hide Refill;
      RefillIsMin(limit, cfg, n);
      Product(cfg.rate, n, n);
    }
  }

  /** One direction of a group: its bucket, whether it is suspended, whether a wake-up could not reach every member. */
  datatype GSide = GSide(limit: ssize, suspended: bool, pending: bool)
  {
    /** Members may be suspended: somebody is going to wake them up. */
    predicate Minded()
    {
      suspended || pending
    }
  }

  /** What a thread in the middle of adding a member has seen: rsuspend, wsuspend. */
  datatype Seen = Seen(read: bool, write: bool)
  {
    predicate Of(d: Dir)
    {
      if d.Read? then read else write
    }
  }

  class Group {
    var members: seq<Bev>
    var rd: GSide
    var wr: GSide
    var cfg: Limits
    var last: u32
    var minShare: ssize
    // threads inside bufferevent_add_to_rate_limit_group: they hold the
    // member's lock, have let go of the group's, and have yet to suspend it
    var adding: map<Bev, Seen>

    function Of(d: Dir): GSide
      reads this`rd, this`wr
    {
      if d.Read? then rd else wr
    }

    method Put(d: Dir, s: GSide)
      modifies this`rd, this`wr
      ensures Of(d) == s && Of(Flip(d)) == old(Of(Flip(d)))
    {
      if d.Read? {
        rd := s;
      } else {
        wr := s;
      }
    }

    /** bufferevent_rate_limit_group_new: the buckets start with one tick's rate. */
    constructor (limits: Limits, tick: u32)
      requires limits.read.Ok() && limits.write.Ok()
      ensures Valid() && members == [] && adding == map[] && 1 <= minShare <= 64
      ensures rd == GSide(limits.read.rate, false, false) && wr == GSide(limits.write.rate, false, false)
    {
      members, adding, cfg, last := [], map[], limits, tick;
      rd, wr := GSide(limits.read.rate, false, false), GSide(limits.write.rate, false, false);
      minShare := Least(Least(64, limits.read.rate), limits.write.rate); // set_min_share(g, 64)
    }

    /** The member is held up by the group, or about to be. */
    ghost predicate Held(m: Bev, d: Dir)
      reads this`adding, m`rd, m`wr
    {
      BW_GROUP in m.Of(d).suspended || (m in adding && adding[m].Of(d))
    }

    ghost predicate Members()
      reads this`members, this`adding, members
    {
      && Distinct(members)
      && (forall m | m in members :: m.group == this && m.Valid())
      && (forall m | m in adding :: m in members)
    }

    /** No member is held up by a group that has forgotten about it. */
    ghost predicate NoneForgotten(d: Dir)
      reads this`members, this`adding, this`rd, this`wr, members
    {
      forall m | m in members && Held(m, d) :: Of(d).Minded()
    }

    ghost predicate Valid()
      reads this, members
    {
      Members() && NoneForgotten(Read) && NoneForgotten(Write) && cfg.read.Ok() && cfg.write.Ok()
    }

    /** _bev_group_suspend_reading and its sister; the locks of the members in `busy` are held by other threads. */
    method SuspendAll(d: Dir, busy: set<Bev>)
      requires Valid() && adding.Keys <= busy
      modifies this`rd, this`wr, members`rd, members`wr
      ensures Valid() && Of(d) == old(Of(d)).(suspended := true, pending := false) && Of(Flip(d)) == old(Of(Flip(d)))
      ensures forall m | m in members :: Flagged(old(m.Of(d)), m.Of(d), m in busy, true)
      ensures forall m | m in members :: m.Of(Flip(d)) == old(m.Of(Flip(d)))
    {
      Put(d, Of(d).(suspended := true, pending := false));
      SuspendMembers(members, d, busy);
    }

    /** _bev_group_unsuspend_reading and its sister, the walk starting at a random member. */
    method UnsuspendAll(d: Dir, busy: set<Bev>, start: nat) returns (ghost visited: seq<Bev>)
      requires Valid() && adding.Keys <= busy && (members != [] ==> start < |members|)
      modifies this`rd, this`wr, members`rd, members`wr
      ensures Valid() && Of(d) == old(Of(d)).(suspended := false, pending := Of(d).pending)
        && Of(Flip(d)) == old(Of(Flip(d)))
      ensures Of(d).pending <==> exists m | m in members :: m in busy
      ensures forall m | m in members :: Flagged(old(m.Of(d)), m.Of(d), m in busy, false)
      ensures forall m | m in members :: m.Of(Flip(d)) == old(m.Of(Flip(d)))
      ensures visited == if members == [] then [] else members[start..] + members[..start]
    {
      Put(d, Of(d).(suspended := false));
      var again;
      again, visited := UnsuspendMembers(members, d, busy, start);
      Put(d, Of(d).(pending := again));
    }

    /** The group's part of _bufferevent_get_rlim_max for a member whose lock we hold. */
    method Share(m: Bev, d: Dir) returns (share: int)
      requires m in members && m !in adding && m.Of(d).Ok()
      modifies m`rd, m`wr
      ensures (old(Valid()) ==> Valid()) && (m.Valid() <==> old(m.Valid())) && m.Of(Flip(d)) == old(m.Of(Flip(d)))
      ensures m.Of(d).limit == old(m.Of(d).limit)
      ensures Of(d).suspended ==> share == 0 && Flagged(old(m.Of(d)), m.Of(d), false, true)
      ensures !Of(d).suspended ==> m.Of(d) == old(m.Of(d)) && IsShare(Of(d).limit, |members|, minShare, share)
    {
      if Of(d).suspended {
        m.Suspend(d, BW_GROUP);
        return 0;
      }
      share := TruncDiv(Of(d).limit, |members|);
      ghost var q := share;
      assert IsQuotient(Of(d).limit, |members|, q);
      if share < minShare {
        share := minShare;
      }
    }

    /** The group's part of _bufferevent_decrement_read_buckets and its sister. */
    method Decrement(d: Dir, bytes: ssize, busy: set<Bev>, start: nat)
      requires Valid() && adding.Keys <= busy && (members != [] ==> start < |members|)
      requires -TWO63 <= Of(d).limit - bytes < TWO63
      modifies this`rd, this`wr, members`rd, members`wr
      ensures Valid() && Of(d).limit == old(Of(d)).limit - bytes && Of(Flip(d)) == old(Of(Flip(d)))
      ensures Of(d).suspended <==> Of(d).limit <= 0
      ensures forall m | m in members :: m.Of(Flip(d)) == old(m.Of(Flip(d)))
      ensures Of(d).limit <= 0 ==> forall m | m in members :: Flagged(old(m.Of(d)), m.Of(d), m in busy, true)
      ensures Of(d).limit > 0 && old(Of(d)).suspended ==> forall m | m in members :: Flagged(old(m.Of(d)), m.Of(d), m in busy, false)
      ensures Of(d).limit > 0 && !old(Of(d)).suspended ==> forall m | m in members :: m.Of(d) == old(m.Of(d))
    {
      hide Flagged;
      Put(d, Of(d).(limit := Of(d).limit - bytes));
      if Of(d).limit <= 0 {
        SuspendAll(d, busy);
      } else if Of(d).suspended {
        var _ := UnsuspendAll(d, busy, start);
      }
    }

    /** bufferevent_rate_limit_group_decrement_read and its sister: only crossing 0 does anything. */
    method DecrementLimit(d: Dir, decr: ssize, busy: set<Bev>, start: nat)
      requires Valid() && adding.Keys <= busy && (members != [] ==> start < |members|)
      requires -TWO63 <= Of(d).limit - decr < TWO63
      modifies this`rd, this`wr, members`rd, members`wr
      ensures Valid() && Of(d).limit == old(Of(d)).limit - decr && Of(Flip(d)) == old(Of(Flip(d)))
      ensures forall m | m in members :: m.Of(Flip(d)) == old(m.Of(Flip(d))) && m.Of(d).limit == old(m.Of(d)).limit
      ensures if old(Of(d)).limit > 0 && Of(d).limit <= 0 then
                Of(d).suspended && !Of(d).pending && forall m | m in members :: Flagged(old(m.Of(d)), m.Of(d), m in busy, true)
              else if old(Of(d)).limit <= 0 && Of(d).limit > 0 then
                !Of(d).suspended && (Of(d).pending <==> exists m | m in members :: m in busy)
                && forall m | m in members :: Flagged(old(m.Of(d)), m.Of(d), m in busy, false)
              else Of(d) == old(Of(d)).(limit := Of(d).limit) && forall m | m in members :: m.Of(d) == old(m.Of(d))
    {
      var was := Of(d).limit;
      Put(d, Of(d).(limit := was - decr));
      if was > 0 && Of(d).limit <= 0 {
        SuspendAll(d, busy);
      } else if was <= 0 && Of(d).limit > 0 {
        var _ := UnsuspendAll(d, busy, start);
      }
    }

    /** The limit after an update of the group's bucket. */
    ghost function Refilled(d: Dir, tick: u32): ssize
      requires cfg.Of(d).Ok()
      reads this
    {
      var n := Ticks(tick, last);
      if n == 0 then Of(d).limit else Refill(Of(d).limit, cfg.Of(d), n)
    }

    /** One direction of _bev_group_refill_callback, the bucket being updated. */
    method WakeUp(d: Dir, busy: set<Bev>, start: nat)
      requires Valid() && adding.Keys <= busy && (members != [] ==> start < |members|)
      modifies this`rd, this`wr, members`rd, members`wr
      ensures Valid() && Of(Flip(d)) == old(Of(Flip(d))) && Of(d).limit == old(Of(d)).limit
      ensures var due := old(Of(d)).pending || (old(Of(d)).suspended && Of(d).limit >= minShare);
              && (due ==> !Of(d).suspended && (Of(d).pending <==> exists m | m in members :: m in busy))
              && (!due ==> Of(d) == old(Of(d)))
              && forall m | m in members :: if due then Flagged(old(m.Of(d)), m.Of(d), m in busy, false) else m.Of(d) == old(m.Of(d))
      ensures forall m | m in members :: m.Of(Flip(d)) == old(m.Of(Flip(d)))
    {
      hide Flagged;
      if Of(d).pending || (Of(d).suspended && Of(d).limit >= minShare) {
        var _ := UnsuspendAll(d, busy, start);
      }
    }

    /** _bev_group_refill_callback, once a tick */
    method RefillCallback(tick: u32, busy: set<Bev>, startRead: nat, startWrite: nat)
      requires Valid() && adding.Keys <= busy && (members != [] ==> startRead < |members| && startWrite < |members|)
      modifies this`rd, this`wr, this`last, members`rd, members`wr
      ensures Valid() && rd.limit == old(Refilled(Read, tick)) && wr.limit == old(Refilled(Write, tick))
      ensures last == if Ticks(tick, old(last)) == 0 then old(last) else tick
      ensures forall m | m in members :: m.rd.limit == old(m.rd).limit && m.wr.limit == old(m.wr).limit
      ensures if old(rd).pending || (old(rd).suspended && rd.limit >= minShare)
              then !rd.suspended && (rd.pending <==> exists m | m in members :: m in busy)
                   && forall m | m in members && m !in busy :: BW_GROUP !in m.rd.suspended
              else rd == old(rd).(limit := rd.limit)
      ensures if old(wr).pending || (old(wr).suspended && wr.limit >= minShare)
              then !wr.suspended && (wr.pending <==> exists m | m in members :: m in busy)
                   && forall m | m in members && m !in busy :: BW_GROUP !in m.wr.suspended
              else wr == old(wr).(limit := wr.limit)
    {
      var n := Ticks(tick, last);
      if n != 0 {
        rd := rd.(limit := Refill(rd.limit, cfg.read, n));
        wr := wr.(limit := Refill(wr.limit, cfg.write, n));
        last := tick;
      }
      WakeUp(Read, busy, startRead);
      label between:
      WakeUp(Write, busy, startWrite);
      assert forall m | m in members :: m.rd == old@between(m.rd);
    }

    /**
     _bufferevent_get_rlim_max for a member: at most what its own bucket and the group allow,
     nothing while the group is suspended.
    */
    method GetRlimMax(m: Bev, d: Dir, tick: u32) returns (max: int)
      requires Valid() && m in members && m !in adding
      modifies m`rd, m`wr, m`last
      ensures max >= 0 && (Valid() <==> old(m.Steady(tick)))
      ensures old(m.Capped()) ==> old(m.Steady(tick)) && m.Capped()
      ensures m.cfg.Some? ==> m.Of(d).limit == old(m.Refilled(d, tick))
      ensures Of(d).suspended ==> max == 0 && BW_GROUP in m.Of(d).suspended
      ensures var own := if m.cfg.Some? then m.Of(d).limit else MAX_EVER;
              !Of(d).suspended ==> Granted(own, Of(d).limit, |members|, minShare, max)
    {
      max := m.OwnMax(d, tick);
      assert m.Valid() ==> Valid();
      var share := Share(m, d);
      if !Of(d).suspended {
        GrantedIs(max, Of(d).limit, |members|, minShare, share);
      }
      if max > share {
        max := share;
      }
      if max < 0 {
        max := 0;
      }
    }

    /** _bufferevent_decrement_read_buckets and its sister for a member whose lock we hold */
    method DecrementBuckets(m: Bev, d: Dir, bytes: ssize, busy: set<Bev>, start: nat)
      requires Valid() && m in members && m !in busy && adding.Keys <= busy && start < |members|
      requires -TWO63 <= Of(d).limit - bytes < TWO63 && (m.cfg.Some? ==> -TWO63 <= m.Of(d).limit - bytes < TWO63)
      modifies this`rd, this`wr, members`rd, members`wr, m`timer
      ensures Valid() && Of(d).limit == old(Of(d)).limit - bytes && Of(Flip(d)) == old(Of(Flip(d)))
      ensures m.Of(d).limit == old(m.Of(d)).limit - (if m.cfg.Some? then bytes else 0)
      ensures forall x | x in members && x != m :: x.Of(d).limit == old(x.Of(d)).limit
      ensures forall x | x in members :: x.Of(Flip(d)) == old(x.Of(Flip(d)))
      ensures Of(d).limit <= 0 ==> BW_GROUP in m.Of(d).suspended
    {
      m.OwnDecrement(d, bytes);
      assert Valid();
      Decrement(d, bytes, busy, start);
    }

    /** _bev_refill_callback of a member */
    method MemberRefill(m: Bev, tick: u32)
      requires Valid() && m in members && m !in adding && m.timer
      modifies m`rd, m`wr, m`last, m`timer
      ensures Valid() <==> old(m.Steady(tick))
      ensures old(m.Capped()) ==> old(m.Steady(tick)) && m.Capped()
    {
      m.RefillCallback(tick);
    }

    /** bufferevent_add_to_rate_limit_group up to UNLOCK_GROUP: the thread keeps the member's lock. */
    method AddBegin(m: Bev)
      requires Valid() && m !in members && m.group == null && m.Valid()
      requires BW_GROUP !in m.rd.suspended && BW_GROUP !in m.wr.suspended
      modifies this`members, this`adding, m`group
      ensures Valid() && members == old(members) + [m] && adding == old(adding)[m := Seen(rd.suspended, wr.suspended)]
    {
      m.group := this;
      members := members + [m];
      adding := adding[m := Seen(rd.suspended, wr.suspended)];
    }

    /** The rest of it: the member is suspended as the group was when it was added. */
    method AddEnd(m: Bev)
      requires Valid() && m in adding
      modifies this`adding, m`rd, m`wr
      ensures Valid() && adding == old(adding) - {m} && m.rd.limit == old(m.rd).limit && m.wr.limit == old(m.wr).limit
      ensures BW_GROUP in m.rd.suspended <==> BW_GROUP in old(m.rd).suspended || old(adding)[m].read
      ensures BW_GROUP in m.wr.suspended <==> BW_GROUP in old(m.wr).suspended || old(adding)[m].write
    {
      var seen := adding[m];
      if seen.read {
        m.Suspend(Read, BW_GROUP);
      }
      if seen.write {
        m.Suspend(Write, BW_GROUP);
      }
      adding := adding - {m};
    }

    /** bufferevent_remove_from_rate_limit_group_internal */
    method Remove(m: Bev, unsuspend: bool, ghost k: nat)
      requires Valid() && k < |members| && members[k] == m && m !in adding
      modifies this`members, m`group, m`rd, m`wr
      ensures Valid() && members == old(members[..k] + members[k + 1..]) && m.group == null && m.Valid()
      ensures m.rd.limit == old(m.rd).limit && m.wr.limit == old(m.wr).limit
      ensures unsuspend ==> BW_GROUP !in m.rd.suspended && BW_GROUP !in m.wr.suspended
    {
      Unlink(m, k);
      if unsuspend {
        SetFlag(m, Read, false, false);
        SetFlag(m, Write, false, false);
      }
    }

    /** The part of it under the group's lock. */
    method Unlink(m: Bev, ghost k: nat)
      requires Valid() && k < |members| && members[k] == m && m !in adding
      modifies this`members, m`group
      ensures Valid() && members == old(members[..k] + members[k + 1..]) && m !in members && m.group == null
        && m.Valid()
    {
      hide Bev.Valid;
      assert m in members;
      var i := IndexOf(members, m, k);
      Cut(members, i);
      m.group := null;
      members := members[..i] + members[i + 1..];
    }
  }

  /** A list without its element `i`. */
  lemma {:induction false} Cut(ms: seq<Bev>, i: nat)
    requires i < |ms| && Distinct(ms)
    ensures var r := ms[..i] + ms[i + 1..];
            && Distinct(r) && (forall x | x in r :: x in ms && x != ms[i]) && forall x | x in ms && x != ms[i] :: x in r
  {
  }

  /** TAILQ_REMOVE's place in the list */
  method IndexOf(ms: seq<Bev>, m: Bev, ghost k: nat) returns (i: nat)
    requires Distinct(ms) && k < |ms| && ms[k] == m
    ensures i == k
  {
    i := 0;
    while ms[i] != m
      invariant i <= k
      decreases k - i
    {
      i := i + 1;
    }
  }

  /** C's division of a signed number by a positive one. */
  function TruncDiv(a: int, b: nat): (q: int)
    requires b > 0
    ensures IsQuotient(a, b, q)
  {
    if a >= 0 then a / b else -(-a / b)
  }

  /** `a / b`, the remainder having the sign of `a`. */
  predicate IsQuotient(a: int, b: nat, q: int)
  {
    if a >= 0 then q * b <= a < q * b + b else q * b - b < a <= q * b
  }

  /**
   What a member may transfer: no more than its own limit, and no more than its share of the
   group's, or the least share.
  */
  predicate Granted(own: int, limit: int, n: nat, least: int, max: int)
  {
    && 0 <= max && (own < 0 ==> max == 0) && (own >= 0 ==> max <= own)
    && (max > 0 ==> max <= least || max * n <= limit)
    && (own >= 0 && least >= 0 ==> max == own || max >= least)
    && (own >= 0 && limit >= 0 ==> max == own || max == least || limit < max * n + n)
    && (own >= 0 && least >= 0 && limit < 0 ==> max == own || max == least)
  }

  lemma {:induction false} GrantedIs(own: int, limit: int, n: nat, least: int, share: int)
    requires n > 0 && IsShare(limit, n, least, share)
    ensures var max := if own > share then share else own; Granted(own, limit, n, least, if max < 0 then 0 else max)
  {
    var q :| IsQuotient(limit, n, q) && share == if q >= least then q else least;
    var low := if own > share then share else own;
    var max := if low < 0 then 0 else low;
    if limit >= 0 {
      Times(0, q + 1, n);
      if max <= q {
        Times(max, q, n);
      }
      if max >= q {
        Times(q, max, n);
      }
    } else if q > 0 {
      Times(1, q, n);
    }
  }

  lemma {:induction false} Times(a: int, b: int, n: nat)
    ensures a <= b ==> a * n <= b * n
    ensures b * n + n == (b + 1) * n
  {
  }

  /** The share of a bucket among `n` members: an equal part, but at least `least`. */
  ghost predicate IsShare(limit: int, n: nat, least: int, share: int)
  {
    share >= least && exists q :: IsQuotient(limit, n, q) && share == if q >= least then q else least
  }

  /** The group's flag is set or cleared, unless the member cannot be locked. */
  predicate Flagged(before: Side, after: Side, isBusy: bool, flag: bool)
  {
    && after.limit == before.limit && after.enabled == before.enabled
    && after.suspended - {BW_GROUP} == before.suspended - {BW_GROUP}
    && (BW_GROUP in after.suspended <==> if isBusy then BW_GROUP in before.suspended else flag)
  }

  ghost predicate Distinct(ms: seq<Bev>)
  {
    forall i, j | 0 <= i < j < |ms| :: ms[i] != ms[j]
  }

  /** The loop of _bev_group_suspend_reading. */
  method SuspendMembers(ms: seq<Bev>, d: Dir, busy: set<Bev>)
    requires Distinct(ms) && forall m | m in ms :: m.Valid()
    modifies ms`rd, ms`wr
    ensures forall m | m in ms :: m.Valid() && Flagged(old(m.Of(d)), m.Of(d), m in busy, true) && m.Of(Flip(d)) == old(m.Of(Flip(d)))
  {
    hide Flagged, Bev.Valid;
    var i := 0;
    while i < |ms|
      invariant i <= |ms|
      invariant forall k | 0 <= k < |ms| :: ms[k].Valid() && ms[k].Of(Flip(d)) == old(ms[k].Of(Flip(d)))
      invariant forall k | i <= k < |ms| :: ms[k].Of(d) == old(ms[k].Of(d))
      invariant forall k | 0 <= k < i :: Flagged(old(ms[k].Of(d)), ms[k].Of(d), ms[k] in busy, true)
    {
      SetFlag(ms[i], d, ms[i] in busy, true);
      i := i + 1;
    }
  }

  /** One member, under its lock if that can be had. */
  method SetFlag(m: Bev, d: Dir, isBusy: bool, flag: bool)
    requires m.Valid()
    modifies m`rd, m`wr
    ensures m.Valid() && Flagged(old(m.Of(d)), m.Of(d), isBusy, flag) && m.Of(Flip(d)) == old(m.Of(Flip(d)))
  {
    if !isBusy {
      if flag {
        m.Suspend(d, BW_GROUP);
      } else {
        m.Unsuspend(d, BW_GROUP);
      }
    }
  }

  /**
   FOREACH_RANDOM_ORDER in _bev_group_unsuspend_reading: from the start to the end, then from the
   first to the start.
  */
  method UnsuspendMembers(ms: seq<Bev>, d: Dir, busy: set<Bev>, start: nat) returns (again: bool,
      ghost visited: seq<Bev>)
    requires Distinct(ms) && (ms != [] ==> start < |ms|) && forall m | m in ms :: m.Valid()
    modifies ms`rd, ms`wr
    ensures forall m | m in ms :: m.Valid() && Flagged(old(m.Of(d)), m.Of(d), m in busy, false) && m.Of(Flip(d)) == old(m.Of(Flip(d)))
    ensures again <==> exists m | m in ms :: m in busy
    ensures visited == if ms == [] then [] else ms[start..] + ms[..start]
  {
    again, visited := false, [];
    if ms == [] {
      return;
    }
    again, visited := UnsuspendRange(ms, d, busy, start, |ms|);
    var more; ghost var rest;
    more, rest := UnsuspendRange(ms, d, busy, 0, start);
    again, visited := again || more, visited + rest;
  }

  method UnsuspendRange(ms: seq<Bev>, d: Dir, busy: set<Bev>, lo: nat, hi: nat) returns (again: bool,
      ghost visited: seq<Bev>)
    requires Distinct(ms) && lo <= hi <= |ms| && forall m | m in ms :: m.Valid()
    modifies ms`rd, ms`wr
    ensures forall k | 0 <= k < |ms| :: ms[k].Valid() && ms[k].Of(Flip(d)) == old(ms[k].Of(Flip(d)))
    ensures forall k | 0 <= k < lo || hi <= k < |ms| :: ms[k].Of(d) == old(ms[k].Of(d))
    ensures forall k | lo <= k < hi :: Flagged(old(ms[k].Of(d)), ms[k].Of(d), ms[k] in busy, false)
    ensures again <==> exists k | lo <= k < hi :: ms[k] in busy
    ensures visited == ms[lo..hi]
  {
    hide Flagged, Bev.Valid;
    again, visited := false, [];
    var i := lo;
    while i < hi
      invariant lo <= i <= hi && visited == ms[lo..i] && (again <==> exists k | lo <= k < i :: ms[k] in busy)
      invariant forall k | 0 <= k < |ms| :: ms[k].Valid() && ms[k].Of(Flip(d)) == old(ms[k].Of(Flip(d)))
      invariant forall k | 0 <= k < lo || i <= k < |ms| :: ms[k].Of(d) == old(ms[k].Of(d))
      invariant forall k | lo <= k < i :: Flagged(old(ms[k].Of(d)), ms[k].Of(d), ms[k] in busy, false)
    {
      var m := ms[i];
      SetFlag(m, d, m in busy, false);
      if m in busy {
        again := true;
      }
      visited := visited + [m];
      i := i + 1;
    }
  }
}
