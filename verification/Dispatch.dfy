/** Running the callbacks of active events in order of priority (event.c). */
module Dispatch {
  import opened Options
  import opened EventState
  import opened Scheduler

  /** While one callback runs: the calls made, the time, and whether the loop is asked to stop. */
  datatype Script = Script(calls: seq<Call>, now: int, stop: bool)

  /** The event is of the least priority of all active events and, within that, was activated first. */
  ghost predicate FirstInLine(evs: seq<Event>, i: Id)
  {
    && i < |evs| && evs[i].active
    && forall j: Id | j < |evs| && evs[j].active ::
         evs[i].pri < evs[j].pri || (evs[i].pri == evs[j].pri && evs[i].stamp <= evs[j].stamp)
  }

  /** No event of a priority below `p` is active. */
  ghost predicate NoneBelow(evs: seq<Event>, p: nat)
  {
    forall j: Id | j < |evs| && evs[j].active :: evs[j].pri >= p
  }

  /** Between callbacks of priority `p`: nothing more urgent waits, or the loop knows about it. */
  ghost predicate Urgent(b: Base, p: nat)
    reads b
  {
    b.runningPriority == p && (b.eventContinue || NoneBelow(b.evs, p))
  }

  /** A mark for a common timeout that this base does not have counts for nothing. */
  function Marked(tv: Maybe<(int, Maybe<nat>)>, n: nat): (r: Maybe<(int, Maybe<nat>)>)
    ensures r.Some? && r.value.1.Some? ==> r.value.1.value < n
  {
    if tv.Some? && tv.value.1.Some? && tv.value.1.value >= n then Some((tv.value.0, None)) else tv
  }

  /** Adding event `i` changes that event and the timer of its common timeout. */
  ghost predicate AddedTo(before: seq<Event>, after: seq<Event>, i: Id, tv: Maybe<(int, Maybe<nat>)>, absolute: bool,
      now: int, timers: seq<Id>)
  {
    && i < |after| == |before| && after[i] == Added(before[i], tv, absolute, now)
    && OthersStay(before, after, i, if tv.None? then None else tv.value.1, timers)
  }

  /** What a call does to the events: a foreign or internal one is left alone. */
  ghost predicate Made(before: seq<Event>, after: seq<Event>, c: Call, now: int, clock: nat, timers: seq<Id>)
  {
    if c.i >= |before| || before[c.i].internal then after == before
    else
      match c
      case CallAdd(i, tv) => AddedTo(before, after, i, Marked(tv, |timers|), false, now, timers)
      case CallDel(i) => after == before[i := before[i].(inserted := false, active := false, timed := false)]
      case CallActivate(i, byTimeout) => after == before[i := Activated(before[i], byTimeout, clock)]
  }

  /** The events at one moment, and how many activations there have been. */
  datatype Moment = Moment(evs: seq<Event>, clock: nat)

  /** Every active event was activated before. */
  ghost predicate StampedBefore(m: Moment)
  {
    forall i: Id | i < |m.evs| && m.evs[i].active :: m.evs[i].stamp < m.clock
  }

  /** These calls lead from each moment to the next. */
  ghost predicate Played(ms: seq<Moment>, calls: seq<Call>, now: int, timers: seq<Id>)
  {
    && |ms| == |calls| + 1 && StampedBefore(ms[0])
    && forall k, n | 0 <= k < n < |ms| && n == k + 1 ::
         Made(ms[k].evs, ms[n].evs, calls[k], now, ms[k].clock, timers) && ms[k].clock <= ms[n].clock
  }

  lemma {:induction false} PlayedMore(ms: seq<Moment>, calls: seq<Call>, k: nat, now: int, timers: seq<Id>, m: Moment)
    requires k < |calls| && Played(ms, calls[..k], now, timers)
    requires Made(ms[k].evs, m.evs, calls[k], now, ms[k].clock, timers) && ms[k].clock <= m.clock
    ensures Played(ms + [m], calls[..k + 1], now, timers)
  {
    hide Made, StampedBefore;
  }

  lemma {:induction false} NothingPlayed(m: Moment, actives: seq<seq<Id>>, now: int, timers: seq<Id>)
    requires ActivesOk(m.evs, actives, m.clock)
    ensures Played([m], [], now, timers)
  {
  }

  /** One call, if it is made on an event of the user's. */
  method Perform(b: Base, c: Call, now: int, ghost p: nat)
    requires b.Valid() && Urgent(b, p)
    modifies b
    ensures b.history == old(b.history) && b.calls == old(b.calls) + [c]
      && Made(old(b.evs), b.evs, c, now, old(b.clock), b.timers) && old(b.clock) <= b.clock
    ensures b.Valid() && Urgent(b, p) && SameTables(old(b.evs), b.evs) && b.timers == old(b.timers)
      && b.current == old(b.current)
    ensures |b.actives| == |old(b.actives)| && (old(b.eventContinue) ==> b.eventContinue)
    ensures p == 0 ==> b.eventContinue == old(b.eventContinue)
  {
    hide QueueOk, ActivesOk, HeapOk, ListsOk, TimersOk, AllServed;
    b.calls := b.calls + [c];
    if c.i >= |b.evs| || b.evs[c.i].internal {
      return;
    }
    match c {
    case CallAdd(i, tv) =>
      b.Add(i, Marked(tv, |b.lists|), false, now);
    case CallDel(i) =>
      b.Del(i);
    case CallActivate(i, byTimeout) =>
      b.Activate(i, byTimeout);
    }
  }

  /** All calls made while a callback runs. */
  method Play(b: Base, s: Script, ghost p: nat) returns (ghost ms: seq<Moment>)
    requires b.Valid() && Urgent(b, p)
    modifies b
    ensures b.history == old(b.history) && b.calls == old(b.calls) + s.calls
    ensures Played(ms, s.calls, s.now, b.timers) && ms[0] == old(Moment(b.evs, b.clock))
      && ms[|ms| - 1] == Moment(b.evs, b.clock)
    ensures b.Valid() && Urgent(b, p) && SameTables(old(b.evs), b.evs) && b.timers == old(b.timers)
      && b.current == old(b.current)
    ensures |b.actives| == |old(b.actives)| && (old(b.eventContinue) ==> b.eventContinue)
    ensures p == 0 ==> b.eventContinue == old(b.eventContinue)
  {
    hide QueueOk, ActivesOk, HeapOk, ListsOk, TimersOk, AllServed, Made, Played;
    ms := [Moment(b.evs, b.clock)];
    NothingPlayed(ms[0], b.actives, s.now, b.timers);
    assert s.calls[..0] == [];
    var k := 0;
    while k < |s.calls|
      invariant 0 <= k <= |s.calls| && b.calls == old(b.calls) + s.calls[..k]
      invariant |ms| == k + 1 && Played(ms, s.calls[..k], s.now, b.timers) && ms[0] == old(Moment(b.evs, b.clock))
        && ms[k] == Moment(b.evs, b.clock)
      invariant b.Valid() && Urgent(b, p) && SameTables(old(b.evs), b.evs) && b.timers == old(b.timers)
        && b.current == old(b.current)
      invariant |b.actives| == |old(b.actives)| && (old(b.eventContinue) ==> b.eventContinue)
      invariant p == 0 ==> b.eventContinue == old(b.eventContinue)
      invariant b.history == old(b.history)
    {
      Perform(b, s.calls[k], s.now, p);
      PlayedMore(ms, s.calls, k, s.now, b.timers, Moment(b.evs, b.clock));
      ms := ms + [Moment(b.evs, b.clock)];
      assert s.calls[..k + 1] == s.calls[..k] + [s.calls[k]];
      k := k + 1;
    }
    assert s.calls[..k] == s.calls;
  }

  /**
   When a persistent event runs next: an interval after it was due (or, if it fired for another
   reason, after now), not in the past.
  */
  function NextRun(byTimeout: bool, due: int, now: int, delay: int): (at: int)
    ensures delay >= 0 ==> at >= now
    ensures at == now + delay || (byTimeout && at == due + delay)
    ensures byTimeout && due + delay >= now ==> at == due + delay
  {
    var at := (if byTimeout then due else now) + delay;
    if at < now then now + delay else at
  }

  /**
   The timeout that a persistent event gets before its callback runs: none if it has no interval, or
   one of 0 that is not marked with a common timeout.
  */
  function NextTimeout(e: Event, now: int, n: nat): (r: Maybe<(int, Maybe<nat>)>)
    ensures r.Some? && r.value.1.Some? ==> r.value.1.value < n
  {
    if e.persist && e.interval.Some? && (e.interval.value.0 != 0 || e.interval.value.1.Some?)
    then Marked(Some((NextRun(e.byTimeout, e.deadline, now, e.interval.value.0), e.interval.value.1)), n)
    else None
  }

  /** The event is scheduled for its next run, if it is a persistent one with an interval. */
  ghost predicate Rescheduled(before: seq<Event>, after: seq<Event>, i: Id, now: int, timers: seq<Id>)
  {
    i < |before| &&
    var next := NextTimeout(before[i], now, |timers|);
    if next.None? then after == before else AddedTo(before, after, i, next, true, now, timers)
  }

  /** The part of event_persist_closure under the lock. */
  method PersistClosure(b: Base, i: Id, now: int, ghost p: nat)
    requires b.Valid() && Urgent(b, p) && i < |b.evs| && !b.evs[i].internal && b.evs[i].persist
    modifies b
    ensures b.history == old(b.history) && b.calls == old(b.calls)
    ensures b.Valid() && Urgent(b, p) && SameTables(old(b.evs), b.evs) && b.timers == old(b.timers)
      && b.current == old(b.current)
    ensures |b.actives| == |old(b.actives)| && b.eventContinue == old(b.eventContinue)
    ensures Rescheduled(old(b.evs), b.evs, i, now, b.timers)
  {
    hide QueueOk, ActivesOk, HeapOk, ListsOk, TimersOk, AllServed;
    var e := b.evs[i];
    if e.interval.Some? && (e.interval.value.0 != 0 || e.interval.value.1.Some?) {
      b.Add(i, Marked(Some((NextRun(e.byTimeout, e.deadline, now, e.interval.value.0), e.interval.value.1)), |b.lists|), true, now);
    }
  }

  /** The head of the first queue that is not empty is first in line. */
  lemma {:induction false} HeadIsFirst(evs: seq<Event>, actives: seq<seq<Id>>, clock: nat, p: nat)
    requires ActivesOk(evs, actives, clock) && p < |actives| && actives[p] != [] && NoneBelow(evs, p)
    ensures FirstInLine(evs, actives[p][0]) && evs[actives[p][0]].pri == p
  {
    var i := actives[p][0];
    assert ActiveOk(evs, actives[p], p) && i in actives[p];
    assert IsActive(evs, p, i);
    forall j: Id | j < |evs| && evs[j].active
      ensures evs[i].pri < evs[j].pri || (evs[i].pri == evs[j].pri && evs[i].stamp <= evs[j].stamp)
    {
      if evs[j].pri == p {
        assert IsActive(evs, p, j) && j in actives[p];
        var k :| 0 <= k < |actives[p]| && actives[p][k] == j;
        assert StampOf(evs, i) <= StampOf(evs, j);
      }
    }
  }

  /** A priority whose queue is empty has no active event. */
  lemma {:induction false} QueueEmpty(evs: seq<Event>, actives: seq<seq<Id>>, clock: nat, p: nat)
    requires ActivesOk(evs, actives, clock) && p < |actives| && actives[p] == [] && NoneBelow(evs, p)
    ensures NoneBelow(evs, p + 1)
  {
    assert ActiveOk(evs, actives[p], p);
    forall j: Id | j < |evs| && evs[j].active
      ensures evs[j].pri >= p + 1
    {
      assert IsActive(evs, p, j) <==> j in actives[p];
    }
  }

  /** An event whose callback is about to run: it stays added only if it is persistent. */
  function TakenOut(e: Event): Event
  {
    if e.persist && !e.internal then e.(active := false) else e.(inserted := false, active := false, timed := false)
  }

  /**
   One callback from start to end, the calls made while it runs leading through
   the moments `ms`: the event is taken out; a user's event is scheduled
   again before its callback; a queue's timer ends by firing what is due.
  */
  ghost predicate Course(st: Started, s: Script, after: seq<Event>, timers: seq<Id>, ms: seq<Moment>)
  {
    && st.i < |st.seen| && Played(ms, s.calls, s.now, timers)
    && var out, last := st.seen[st.i := TakenOut(st.seen[st.i])], ms[|ms| - 1].evs;
       if st.i in timers
       then
         && ms[0].evs == out
         && forall c | 0 <= c < |timers| && timers[c] == st.i ::
              FiredList(last, after, c, timers[c], s.now, ms[|ms| - 1].clock)
       else Rescheduled(out, ms[0].evs, st.i, s.now, timers) && after == last
  }

  /** Running this callback leads to these events. */
  ghost predicate Ran(st: Started, s: Script, after: seq<Event>, timers: seq<Id>)
  {
    exists ms :: Course(st, s, after, timers, ms)
  }

  /** No call of a script is about the event. */
  predicate LeftAlone(calls: seq<Call>, i: Id)
  {
    forall k | 0 <= k < |calls| :: calls[k].i != i
  }

  /** Calls about other events leave a user's event alone. */
  lemma {:induction false} Untouched(ms: seq<Moment>, calls: seq<Call>, now: int, timers: seq<Id>, i: Id, n: nat)
    requires Played(ms, calls, now, timers) && n <= |calls| && LeftAlone(calls, i) && i !in timers
    requires ms != [] && i < |ms[0].evs|
    ensures |ms| == |calls| + 1 && i < |ms[n].evs| && ms[n].evs[i] == ms[0].evs[i]
  {
    if n > 0 {
      Untouched(ms, calls, now, timers, i, n - 1);
      assert Made(ms[n - 1].evs, ms[n].evs, calls[n - 1], now, ms[n - 1].clock, timers);
    }
  }

  /**
   A one-shot event is not added, not active and has no timeout once its callback has run, unless
   that adds it again.
  */
  lemma {:induction false} RunsOnce(st: Started, s: Script, after: seq<Event>, timers: seq<Id>)
    requires Ran(st, s, after, timers) && st.i !in timers && LeftAlone(s.calls, st.i)
    requires st.i < |st.seen| && !st.seen[st.i].persist && !st.seen[st.i].internal
    ensures st.i < |after| && !after[st.i].inserted && !after[st.i].active && !after[st.i].timed
  {
    var ms :| Course(st, s, after, timers, ms);
    Untouched(ms, s.calls, s.now, timers, st.i, |s.calls|);
  }

  /**
   A persistent event stays added.  With an interval it has its next deadline when
   its callback has run: one interval after the last one if that is what made it
   run and is still to come, and otherwise one interval from now.
  */
  lemma {:induction false} RunsAgain(st: Started, s: Script, after: seq<Event>, timers: seq<Id>)
    requires Ran(st, s, after, timers) && st.i !in timers && LeftAlone(s.calls, st.i)
    requires st.i < |st.seen| && st.seen[st.i].persist && !st.seen[st.i].internal
    ensures st.i < |after| && !after[st.i].active && (st.seen[st.i].inserted ==> after[st.i].inserted)
    ensures var e := st.seen[st.i];
            e.interval.Some? && e.interval.value.0 > 0 ==>
              && after[st.i].timed && after[st.i].interval == e.interval
              && after[st.i].deadline ==
                   if e.byTimeout && e.deadline + e.interval.value.0 >= s.now then e.deadline + e.interval.value.0
                   else s.now + e.interval.value.0
  {
    var ms :| Course(st, s, after, timers, ms);
    Untouched(ms, s.calls, s.now, timers, st.i, |s.calls|);
  }

  /** An active event leaves its queue (for good, if it is not persistent), and its callback counts as running. */
  method TakeOut(b: Base, i: Id, ghost p: nat)
    requires b.Valid() && Urgent(b, p) && b.current == None && FirstInLine(b.evs, i)
    modifies b
    ensures b.calls == old(b.calls) && b.history == old(b.history) + [Started(i, old(b.evs))] && i < |old(b.evs)|
      && b.evs == old(b.evs)[i := TakenOut(old(b.evs)[i])]
    ensures b.Valid() && b.current == Some(i) && Urgent(b, p) && SameTables(old(b.evs), b.evs)
      && b.timers == old(b.timers)
    ensures |b.actives| == |old(b.actives)| && b.eventContinue == old(b.eventContinue) && |b.lists| == |old(b.lists)|
  {
    hide QueueOk, ActivesOk, HeapOk, ListsOk, TimersOk, AllServed;
    ghost var evs0, lists0 := b.evs, b.lists;
    b.history := b.history + [Started(i, b.evs)];
    InternalFirst(b.evs, b.timers, i);
    if b.evs[i].persist && !b.evs[i].internal {
      b.RemoveActive(i);
      ChangedServed(evs0, b.lists, b.timers, b.current, i, b.evs[i]);
    } else {
      b.Del(i);
    }
    b.current := Some(i);
    RunningServed(evs0, b.evs, lists0, b.lists, b.timers, i);
  }

  /** The callback has returned. */
  method Return(b: Base, i: Id, ghost p: nat)
    requires b.Valid() && Urgent(b, p) && b.current == Some(i) && i !in b.timers
    modifies b`current
    ensures b.Valid() && b.current == None && Urgent(b, p)
  {
    hide QueueOk, ActivesOk, HeapOk, ListsOk;
    forall c | 0 <= c < |b.lists|
      ensures Served(b.evs, b.lists[c], b.timers[c], None)
    {
      assert Served(b.evs, b.lists[c], b.timers[c], b.current);
    }
    b.current := None;
  }

  /** The callback of a common timeout's timer. */
  method RunTimer(b: Base, c: nat, s: Script, ghost p: nat) returns (ghost ms: seq<Moment>)
    requires b.Valid() && Urgent(b, p) && c < |b.timers| && b.current == Some(b.timers[c]) && p == 0
    modifies b
    ensures b.history == old(b.history) && b.calls == old(b.calls) + s.calls
    ensures Played(ms, s.calls, s.now, b.timers) && ms[0].evs == old(b.evs)
    ensures c < |b.timers| && FiredList(ms[|ms| - 1].evs, b.evs, c, b.timers[c], s.now, ms[|ms| - 1].clock)
    ensures b.Valid() && b.current == None && Urgent(b, p) && SameTables(old(b.evs), b.evs) && b.timers == old(b.timers)
    ensures |b.actives| == |old(b.actives)| && b.eventContinue == old(b.eventContinue)
  {
    hide QueueOk, ActivesOk, HeapOk, ListsOk, TimersOk, AllServed, FiredList, Played;
    TimerIs(b.evs, b.timers, c);
    ms := Play(b, s, p);
    b.CommonTimeoutCallback(c, s.now);
    b.current := None;
  }

  /** The callback of a user's event, scheduled again first if it is persistent. */
  method RunUser(b: Base, i: Id, s: Script, ghost p: nat) returns (ghost ms: seq<Moment>)
    requires b.Valid() && Urgent(b, p) && b.current == Some(i) && i !in b.timers && i < |b.evs| && !b.evs[i].internal
    modifies b
    ensures b.history == old(b.history) && b.calls == old(b.calls) + s.calls
    ensures Played(ms, s.calls, s.now, b.timers) && Rescheduled(old(b.evs), ms[0].evs, i, s.now, b.timers)
      && ms[|ms| - 1].evs == b.evs
    ensures b.Valid() && b.current == None && Urgent(b, p) && SameTables(old(b.evs), b.evs) && b.timers == old(b.timers)
    ensures |b.actives| == |old(b.actives)| && (p == 0 ==> b.eventContinue == old(b.eventContinue))
  {
    hide QueueOk, ActivesOk, HeapOk, ListsOk, TimersOk, AllServed, Rescheduled, Played;
    if b.evs[i].persist {
      PersistClosure(b, i, s.now, p);
    } else {
      OnceOnly(b.evs, i, s.now, b.timers);
    }
    ms := Play(b, s, p);
    Return(b, i, p);
  }

  lemma {:induction false} OnceOnly(evs: seq<Event>, i: Id, now: int, timers: seq<Id>)
    requires i < |evs| && !evs[i].persist
    ensures Rescheduled(evs, evs, i, now, timers)
  {
  }

  /** One event of the queue, first in line: taken out, and its callback run. */
  method RunOne(b: Base, i: Id, s: Script, ghost p: nat)
    requires b.Valid() && Urgent(b, p) && b.current == None && FirstInLine(b.evs, i)
    requires i < |b.evs| && (p == 0 || !b.evs[i].internal)
    modifies b
    ensures b.history == old(b.history) + [Started(i, old(b.evs))] && b.calls == old(b.calls) + s.calls
    ensures Ran(Started(i, old(b.evs)), s, b.evs, b.timers)
    ensures b.Valid() && b.current == None && Urgent(b, p) && SameTables(old(b.evs), b.evs) && b.timers == old(b.timers)
    ensures |b.actives| == |old(b.actives)| && (p == 0 ==> b.eventContinue == old(b.eventContinue))
  {
    hide QueueOk, ActivesOk, HeapOk, ListsOk, TimersOk, AllServed, FirstInLine, NoneBelow, Rescheduled, Played;
    hide FiredList, Ran;
    var c := TimerNumber(b, i);
    ghost var evs0 := b.evs;
    if c < |b.timers| {
      TimerIs(b.evs, b.timers, c);
    } else {
      InternalIsTimer(evs0, b.timers, i);
    }
    TakeOut(b, i, p);
    ghost var ms;
    if c < |b.timers| {
      ms := RunTimer(b, c, s, p);
      TimerRan(Started(i, evs0), s, b.evs, b.timers, ms, c);
    } else {
      ms := RunUser(b, i, s, p);
      UserRan(Started(i, evs0), s, b.evs, b.timers, ms);
    }
  }

  lemma {:induction false} TimerRan(st: Started, s: Script, after: seq<Event>, timers: seq<Id>, ms: seq<Moment>, c: nat)
    requires st.i < |st.seen| && Played(ms, s.calls, s.now, timers) && c < |timers| && timers[c] == st.i
    requires forall d | 0 <= d < |timers| && timers[d] == st.i :: d == c
    requires ms[0].evs == st.seen[st.i := TakenOut(st.seen[st.i])]
      && FiredList(ms[|ms| - 1].evs, after, c, timers[c], s.now, ms[|ms| - 1].clock)
    ensures Ran(st, s, after, timers)
  {
    hide Played, FiredList;
    assert Course(st, s, after, timers, ms);
  }

  lemma {:induction false} UserRan(st: Started, s: Script, after: seq<Event>, timers: seq<Id>, ms: seq<Moment>)
    requires st.i < |st.seen| && Played(ms, s.calls, s.now, timers) && st.i !in timers
    requires Rescheduled(st.seen[st.i := TakenOut(st.seen[st.i])], ms[0].evs, st.i, s.now, timers)
      && ms[|ms| - 1].evs == after
    ensures Ran(st, s, after, timers)
  {
    hide Played, Rescheduled;
    assert Course(st, s, after, timers, ms);
  }

  lemma {:induction false} InternalIsTimer(evs: seq<Event>, timers: seq<Id>, i: Id)
    requires TimersOk(evs, timers) && i < |evs| && i !in timers
    ensures !evs[i].internal
  {
  }

  /** The event whose callback runs may be a queue's timer: the queue counts as served meanwhile. */
  lemma {:induction false} RunningServed(evs0: seq<Event>, evs1: seq<Event>, lists0: seq<seq<Id>>,
      lists1: seq<seq<Id>>, timers: seq<Id>, i: Id)
    requires |timers| == |lists0| == |lists1| && TimersOk(evs0, timers) && AllServed(evs0, lists0, timers, None)
    requires i < |evs0| == |evs1| && evs1 == evs0[i := evs1[i]] && evs1[i].deadline == evs0[i].deadline
    requires if evs0[i].internal then lists1 == lists0 else AllServed(evs1, lists1, timers, None)
    ensures AllServed(evs1, lists1, timers, Some(i))
  {
    forall c | 0 <= c < |lists1|
      ensures Served(evs1, lists1[c], timers[c], Some(i))
    {
      assert Served(evs0, lists0[c], timers[c], None) && IsTimer(evs0, timers[c]);
      assert !evs0[i].internal ==> Served(evs1, lists1[c], timers[c], None);
    }
  }

  /** The common timeout whose timer this event is; the number of timers if it is none. */
  method TimerNumber(b: Base, i: Id) returns (c: nat)
    ensures c <= |b.timers| && (c < |b.timers| ==> b.timers[c] == i) && (c == |b.timers| ==> i !in b.timers)
  {
    c := 0;
    while c < |b.timers| && b.timers[c] != i
      invariant c <= |b.timers| && i !in b.timers[..c]
    {
      c := c + 1;
    }
  }

  /** Each of these callbacks belonged to the active event that came first when it was started. */
  ghost predicate InOrder(started: seq<Started>)
  {
    forall k | 0 <= k < |started| :: FirstInLine(started[k].seen, started[k].i)
  }

  /** All of these events are of priority `p`. */
  ghost predicate OfPriority(started: seq<Started>, p: nat)
  {
    forall k | 0 <= k < |started| :: started[k].i < |started[k].seen| && started[k].seen[started[k].i].pri == p
  }

  /** The events of the user's among them. */
  function Users(started: seq<Started>): (n: nat)
    ensures n <= |started|
  {
    if started == [] then 0 else
      var last := started[|started| - 1];
      Users(started[..|started| - 1]) + if last.i < |last.seen| && !last.seen[last.i].internal then 1 else 0
  }

  lemma {:induction false} StartedMore(started: seq<Started>, s: Started, p: nat)
    requires InOrder(started) && OfPriority(started, p) && FirstInLine(s.seen, s.i) && s.i < |s.seen|
      && s.seen[s.i].pri == p
    ensures InOrder(started + [s]) && OfPriority(started + [s], p)
    ensures Users(started + [s]) == Users(started) + if s.seen[s.i].internal then 0 else 1
  {
    hide FirstInLine;
    assert (started + [s])[..|started|] == started;
  }

  lemma {:induction false} StartedBoth(a: seq<Started>, b: seq<Started>)
    requires InOrder(a) && InOrder(b)
    ensures InOrder(a + b) && Users(a + b) == Users(a) + Users(b)
    decreases |b|
  {
    hide FirstInLine;
    if b == [] {
      assert a + b == a;
    } else {
      var most := b[..|b| - 1];
      assert (a + b)[..|a + b| - 1] == a + most;
      StartedBoth(a, most);
    }
  }

  /** The calls made while these callbacks ran. */
  function AllCalls(scripts: seq<Script>): seq<Call>
  {
    if scripts == [] then [] else AllCalls(scripts[..|scripts| - 1]) + scripts[|scripts| - 1].calls
  }

  lemma {:induction false} CallsSnoc(scripts: seq<Script>, k: nat)
    requires k < |scripts|
    ensures AllCalls(scripts[..k + 1]) == AllCalls(scripts[..k]) + scripts[k].calls
  {
    assert scripts[..k + 1][..k] == scripts[..k];
  }

  lemma {:induction false} CallsBoth(scripts: seq<Script>, used: nat, n: nat)
    requires used + n <= |scripts|
    ensures AllCalls(scripts[..used + n]) == AllCalls(scripts[..used]) + AllCalls(scripts[used..][..n])
    decreases n
  {
    hide AllCalls;
    if n == 0 {
      NoneStarted(0);
      assert scripts[used..][..0] == [];
    } else {
      CallsBoth(scripts, used, n - 1);
      CallsSnoc(scripts, used + n - 1);
      CallsSnoc(scripts[used..], n - 1);
      assert scripts[used..][n - 1] == scripts[used + n - 1];
    }
  }

  /** The events that the callback behind `started[..k]` saw, or those in the end. */
  function SeenBy(started: seq<Started>, k: nat, after: seq<Event>): seq<Event>
  {
    if k < |started| then started[k].seen else after
  }

  ghost predicate RanAt(started: seq<Started>, scripts: seq<Script>, k: nat, after: seq<Event>, timers: seq<Id>)
    requires k < |started| && k < |scripts|
  {
    Ran(started[k], scripts[k], SeenBy(started, k + 1, after), timers)
  }

  /** Each callback leads to the events that the next one saw, the first from `before`, and the last to `after`. */
  ghost predicate Chained(before: seq<Event>, started: seq<Started>, scripts: seq<Script>, after: seq<Event>,
      timers: seq<Id>)
  {
    && |started| <= |scripts| && SeenBy(started, 0, after) == before
    && forall k | 0 <= k < |started| :: RanAt(started, scripts, k, after, timers)
  }

  lemma {:induction false} NoChain(evs: seq<Event>, scripts: seq<Script>, timers: seq<Id>)
    ensures Chained(evs, [], scripts, evs, timers)
  {
  }

  lemma {:induction false} ChainMore(before: seq<Event>, started: seq<Started>, scripts: seq<Script>, st: Started,
      after: seq<Event>, timers: seq<Id>)
    requires Chained(before, started, scripts, st.seen, timers) && |started| < |scripts|
      && Ran(st, scripts[|started|], after, timers)
    ensures Chained(before, started + [st], scripts, after, timers)
  {
    hide Ran;
    var more := started + [st];
    forall k | 0 <= k < |more|
      ensures RanAt(more, scripts, k, after, timers)
    {
      assert k < |started| ==> RanAt(started, scripts, k, st.seen, timers);
    }
  }

  lemma {:induction false} ChainBoth(before: seq<Event>, a: seq<Started>, mid: seq<Event>, b: seq<Started>,
      scripts: seq<Script>,
      after: seq<Event>, timers: seq<Id>)
    requires Chained(before, a, scripts, mid, timers) && Chained(mid, b, scripts[|a|..], after, timers)
    ensures Chained(before, a + b, scripts, after, timers)
  {
    hide Ran;
    var more := a + b;
    forall k | 0 <= k < |more|
      ensures RanAt(more, scripts, k, after, timers)
    {
      if k < |a| {
        assert RanAt(a, scripts, k, mid, timers);
      } else {
        assert RanAt(b, scripts[|a|..], k - |a|, after, timers);
      }
    }
  }

  /** The script is over, or asks the loop to stop. */
  predicate Stopped(scripts: seq<Script>, used: nat)
  {
    used == |scripts| || (0 < used <= |scripts| && scripts[used - 1].stop)
  }

  /**
   event_process_active_single_queue, one script for each callback.  Callbacks
   of this priority are started, each of the event that is first in line, until
   the queue is empty or something more urgent is active; the result is how many
   of them are the user's, or -1 if the loop was stopped.
  */
  method ProcessQueue(b: Base, p: nat, scripts: seq<Script>) returns (count: int, used: nat,
      ghost started: seq<Started>)
    requires b.Valid() && b.current == None && p < |b.actives| && b.runningPriority == p && !b.eventContinue
      && NoneBelow(b.evs, p)
    modifies b
    ensures b.Valid() && b.current == None && Urgent(b, p) && |b.actives| == |old(b.actives)|
    ensures b.history == old(b.history) + started && |started| == used <= |scripts| && InOrder(started)
      && OfPriority(started, p)
    ensures b.calls == old(b.calls) + AllCalls(scripts[..used])
    ensures if count < 0 then count == -1 && Stopped(scripts, used) else count == Users(started)
    ensures count == 0 ==> !b.eventContinue
    ensures count >= 0 ==> b.eventContinue || b.actives[p] == []
    ensures Chained(old(b.evs), started, scripts, b.evs, b.timers) && b.timers == old(b.timers)
    ensures old(b.actives)[p] != [] && scripts != [] ==> used > 0
  {
    hide QueueOk, ActivesOk, HeapOk, ListsOk, TimersOk, AllServed, FirstInLine, InOrder, OfPriority, Users, AllCalls;
    hide Chained, Ran;
    count, used, started := 0, 0, [];
    NoneStarted(p);
    NoChain(b.evs, scripts, b.timers);
    assert scripts[..0] == [];
    while b.actives[p] != []
      invariant b.Valid() && b.current == None && Urgent(b, p) && !b.eventContinue && |b.actives| == |old(b.actives)|
      invariant b.history == old(b.history) + started && |started| == used <= |scripts| && InOrder(started)
        && OfPriority(started, p)
      invariant b.calls == old(b.calls) + AllCalls(scripts[..used])
      invariant count == Users(started) && (count > 0 || p == 0 || used == 0)
      invariant Chained(old(b.evs), started, scripts, b.evs, b.timers) && b.timers == old(b.timers)
      invariant if used == 0 then b.evs == old(b.evs) && b.actives == old(b.actives) else old(b.actives)[p] != []
      decreases |scripts| - used
    {
      if used == |scripts| {
        return -1, used, started; // nothing more is known of the run
      }
      var i := b.actives[p][0];
      HeadIsFirst(b.evs, b.actives, b.clock, p);
      First(b.evs, i);
      ghost var st, before := Started(i, b.evs), started;
      StartedMore(started, st, p);
      started := started + [st];
      InternalFirst(b.evs, b.timers, i);
      if !b.evs[i].internal {
        count := count + 1;
      }
      RunOne(b, i, scripts[used], p);
      ChainMore(old(b.evs), before, scripts, st, b.evs, b.timers);
      CallsSnoc(scripts, used);
      used := used + 1;
      if scripts[used - 1].stop {
        return -1, used, started;
      }
      if b.eventContinue {
        break;
      }
    }
  }

  lemma {:induction false} NoneStarted(p: nat)
    ensures InOrder([]) && OfPriority([], p) && Users([]) == 0 && AllCalls([]) == []
  {
  }

  lemma {:induction false} First(evs: seq<Event>, i: Id)
    requires FirstInLine(evs, i)
    ensures i < |evs| && evs[i].active
  {
  }

  lemma {:induction false} InternalFirst(evs: seq<Event>, timers: seq<Id>, i: Id)
    requires TimersOk(evs, timers) && i < |evs|
    ensures evs[i].internal ==> evs[i].pri == 0 && (evs[i].timed ==> evs[i].common.None?)
  {
    if evs[i].internal {
      var c :| 0 <= c < |timers| && timers[c] == i;
      assert IsTimer(evs, timers[c]);
    }
  }

  /** No event at least as urgent as the last one started is active. */
  ghost predicate NoneAsUrgent(evs: seq<Event>, started: seq<Started>)
  {
    started != [] &&
      var last := started[|started| - 1];
      last.i < |last.seen| && NoneBelow(evs, last.seen[last.i].pri + 1)
  }

  lemma {:induction false} LastPriority(evs: seq<Event>, started: seq<Started>, log: seq<Started>, p: nat)
    requires OfPriority(log, p) && log != [] && NoneBelow(evs, p + 1)
    ensures NoneAsUrgent(evs, started + log)
  {
    hide NoneBelow;
  }

  /**
   event_process_active: every callback that is started belongs to the active
   event that comes first by priority and order of activation.  It goes on until
   the least priority with an event of the user's is done, or something more
   urgent is active; the result is how many of the user's events ran, or -1.
  */
  method ProcessActive(b: Base, scripts: seq<Script>) returns (c: int, used: nat, ghost started: seq<Started>)
    requires b.Valid() && b.current == None && !b.eventContinue
    modifies b
    ensures b.Valid() && b.current == None && b.runningPriority == -1
    ensures b.history == old(b.history) + started && |started| == used <= |scripts| && InOrder(started)
    ensures b.calls == old(b.calls) + AllCalls(scripts[..used])
    ensures if c < 0 then c == -1 && Stopped(scripts, used) else c == Users(started)
    ensures c == 0 ==> !b.eventContinue && forall j: Id | j < |b.evs| :: !b.evs[j].active
    ensures c > 0 ==> b.eventContinue || NoneAsUrgent(b.evs, started)
    ensures Chained(old(b.evs), started, scripts, b.evs, b.timers) && b.timers == old(b.timers)
  {
    hide QueueOk, ActivesOk, HeapOk, ListsOk, TimersOk, AllServed, FirstInLine, InOrder, OfPriority, Users;
    hide NoneAsUrgent, NoneBelow, Stopped, AllCalls;
    hide Chained, Ran;
    NoChain(b.evs, scripts, b.timers);
    c, used, started := 0, 0, [];
    NoneStarted(0);
    assert scripts[..0] == [];
    AllAbove(b.evs);
    var i: nat := 0;
    while i < |b.actives|
      invariant i <= |b.actives| && b.Valid() && b.current == None && !b.eventContinue && NoneBelow(b.evs, i)
      invariant used <= |scripts| && b.calls == old(b.calls) + AllCalls(scripts[..used])
      invariant c == 0 == Users(started) && b.history == old(b.history) + started && |started| == used <= |scripts|
        && InOrder(started)
      invariant Chained(old(b.evs), started, scripts, b.evs, b.timers) && b.timers == old(b.timers)
      decreases |b.actives| - i
    {
      if b.actives[i] != [] {
        b.runningPriority := i;
        var n; ghost var log;
        ghost var mid := b.evs;
        c, n, log := ProcessQueue(b, i, scripts[used..]);
        StartedBoth(started, log);
        Joined(old(b.history), started, log, scripts, used, n);
        CallsBoth(scripts, used, n);
        ChainBoth(old(b.evs), started, mid, log, scripts, b.evs, b.timers);
        if c > 0 && !b.eventContinue {
          QueueEmpty(b.evs, b.actives, b.clock, i);
          LastPriority(b.evs, started, log, i);
        }
        used, started := used + n, started + log;
        if c != 0 {
          break;
        }
      }
      QueueEmpty(b.evs, b.actives, b.clock, i);
      i := i + 1;
    }
    if c == 0 {
      NothingLeft(b.evs, b.actives, b.clock);
    }
    b.runningPriority := -1;
  }

  lemma {:induction false} Joined(before: seq<Started>, started: seq<Started>, log: seq<Started>,
      scripts: seq<Script>, used: nat, n: nat)
    requires used <= |scripts| && n == |log| <= |scripts| - used
    ensures before + started + log == before + (started + log) && |started + log| == |started| + n
    ensures Stopped(scripts[used..], n) ==> Stopped(scripts, used + n)
  {
  }

  lemma {:induction false} AllAbove(evs: seq<Event>)
    ensures NoneBelow(evs, 0)
  {
  }

  lemma {:induction false} NothingLeft(evs: seq<Event>, actives: seq<seq<Id>>, clock: nat)
    requires ActivesOk(evs, actives, clock) && NoneBelow(evs, |actives|)
    ensures forall j: Id | j < |evs| :: !evs[j].active
  {
  }

  /** The deadlines that the loop goes by: the clock has been corrected. */
  ghost predicate Corrected(before: seq<Event>, after: seq<Event>, now: int, eventTv: int)
  {
    if now >= eventTv then after == before else Moved(before, after, eventTv - now)
  }

  /** The event is in the heap and its deadline has come. */
  predicate Due(evs: seq<Event>, i: Id, now: int)
  {
    InHeap(evs, i) && evs[i].deadline <= now
  }

  /**
   What is active before callbacks run: what was, what the backend reports, and
   what is due in the heap.  What is new queues behind what was active, with
   stamps from `clock` on: first what is reported, then what is due, the earlier
   deadline first.
  */
  ghost predicate MadeReady(before: seq<Event>, ready: seq<Event>, reported: seq<Id>, now: int, clock: nat)
  {
    && |ready| == |before|
    && (forall i: Id | i < |ready| && before[i].active :: ready[i].active)
    && (forall k | 0 <= k < |reported| && reported[k] < |ready| && !before[reported[k]].internal :: ready[reported[k]].active)
    && (forall i: Id | i < |ready| && Due(before, i, now) ::
          ready[i].active && ready[i].byTimeout && !ready[i].timed && !ready[i].inserted && ready[i].stamp >= clock)
    && (forall i: Id | i < |ready| && !Due(before, i, now) :: ready[i].timed == before[i].timed)
    && (forall i: Id | i < |ready| && i !in reported && !Due(before, i, now) :: ready[i] == before[i])
    && (forall i: Id | i < |ready| && ready[i].active && !Due(before, i, now) ::
          if before[i].active then ready[i].stamp == before[i].stamp else ready[i].stamp >= clock)
    && (forall i: Id, j: Id | i < |ready| && j < |ready| && ready[i].active && !before[i].active && !Due(before, i, now)
                              && Due(before, j, now) :: ready[i].stamp < ready[j].stamp)
    && ByDeadline(before, ready, HeapDue(before, now))
  }

  /** After the backend's events have been activated. */
  ghost predicate Reported(before: seq<Event>, after: seq<Event>, reported: seq<Id>, n: nat, from: nat, clock: nat)
    requires n <= |reported|
  {
    && |after| == |before| && from <= clock
    && (forall i: Id | i < |after| :: after[i].timed == before[i].timed && after[i].common == before[i].common
                                      && after[i].deadline == before[i].deadline && after[i].internal == before[i].internal
                                      && (before[i].active ==> after[i].active && after[i].stamp == before[i].stamp)
                                      && (after[i].active && !before[i].active ==> from <= after[i].stamp < clock))
    && (forall k | 0 <= k < n && reported[k] < |after| && !before[reported[k]].internal :: after[reported[k]].active)
    && forall i: Id | i < |after| && i !in reported :: after[i] == before[i]
  }

  lemma {:induction false} ReadyNow(before: seq<Event>, mid: seq<Event>, ready: seq<Event>, reported: seq<Id>, now: int,
      from: nat, clock: nat)
    requires Reported(before, mid, reported, |reported|, from, clock) && Fired(mid, ready, HeapDue(mid, now), clock)
    ensures MadeReady(before, ready, reported, now, from)
  {
    SameDue(before, mid, now);
    forall i: Id | i < |ready|
      ensures Due(before, i, now) <==> i in HeapDue(mid, now)
    {
    }
  }

  lemma {:induction false} SameDue(before: seq<Event>, mid: seq<Event>, now: int)
    requires |before| == |mid|
    requires forall i: Id | i < |mid| :: mid[i].timed == before[i].timed && mid[i].common == before[i].common
                                         && mid[i].deadline == before[i].deadline
    ensures HeapDue(mid, now) == HeapDue(before, now)
  {
  }

  lemma {:induction false} ReportedStep(before: seq<Event>, mid: seq<Event>, after: seq<Event>, reported: seq<Id>,
      k: nat, from: nat, clock: nat, later: nat)
    requires k < |reported| && Reported(before, mid, reported, k, from, clock) && clock <= later
    requires var i := reported[k];
             if i < |mid| && !mid[i].internal
             then after == mid[i := Activated(mid[i], false, clock)] && (mid[i].active || clock < later)
             else after == mid
    ensures Reported(before, after, reported, k + 1, from, later)
  {
  }

  lemma {:induction false} NoneReported(evs: seq<Event>, reported: seq<Id>, clock: nat)
    ensures Reported(evs, evs, reported, 0, clock, clock)
  {
  }

  /** What the backend reports is activated, and what is due. */
  method MakeReady(b: Base, reported: seq<Id>, later: int)
    requires b.Valid() && b.current == None && b.runningPriority == -1 && !b.eventContinue
    modifies b
    ensures b.Valid() && b.current == None && b.runningPriority == -1 && !b.eventContinue
    ensures b.history == old(b.history) && b.calls == old(b.calls)
    ensures MadeReady(old(b.evs), b.evs, reported, later, old(b.clock))
  {
    hide QueueOk, ActivesOk, HeapOk, ListsOk, TimersOk, AllServed, MadeReady, Reported, Activated, Fired, HeapDue;
    NoneReported(b.evs, reported, b.clock);
    var k := 0;
    while k < |reported|
      invariant 0 <= k <= |reported| && b.Valid() && b.current == None && b.runningPriority == -1 && !b.eventContinue
      invariant b.history == old(b.history) && b.calls == old(b.calls)
      invariant Reported(old(b.evs), b.evs, reported, k, old(b.clock), b.clock)
    {
      ghost var was, clock := b.evs, b.clock;
      if reported[k] < |b.evs| && !b.evs[reported[k]].internal {
        b.Activate(reported[k], false);
      }
      ReportedStep(old(b.evs), was, b.evs, reported, k, old(b.clock), clock, b.clock);
      k := k + 1;
    }
    ghost var mid, clock := b.evs, b.clock;
    b.TimeoutProcess(later);
    ReadyNow(old(b.evs), mid, b.evs, reported, later, old(b.clock), clock);
  }

  /**
   One turn of event_base_loop: correct the clock, choose how long to wait,
   take what the backend reports, activate what is due, run callbacks.  The
   wait never passes a deadline; everything reported or due is active when the
   first callback starts, and callbacks start in order.
  */
  method LoopOnce(b: Base, clockNow: int, eventTv: int, reported: seq<Id>, later: int, scripts: seq<Script>)
    returns (wait: Maybe<int>, c: int, used: nat, ghost deadlines: seq<Event>, ghost ready: seq<Event>, ghost started: seq<Started>)
    requires b.Valid() && b.current == None && b.runningPriority == -1
    modifies b
    ensures b.Valid() && b.current == None && b.runningPriority == -1
    ensures Corrected(old(b.evs), deadlines, clockNow, eventTv)
    ensures old(b.countActive) != 0 ==> wait == Some(0)
    ensures old(b.countActive) == 0 ==> (wait.None? <==> forall i: Id | i < |deadlines| :: !deadlines[i].timed)
    ensures old(b.countActive) == 0 && wait.Some? ==>
      wait.value >= 0 && WaitsFor(deadlines, clockNow, clockNow + wait.value)
    ensures MadeReady(deadlines, ready, reported, later, old(b.clock))
    ensures b.history == old(b.history) + started && |started| == used <= |scripts| && InOrder(started)
    ensures b.calls == old(b.calls) + AllCalls(scripts[..used])
    ensures Chained(ready, started, scripts, b.evs, b.timers)
    ensures if c < 0 then c == -1 && Stopped(scripts, used) else c == Users(started)
    ensures c == 0 ==> forall j: Id | j < |b.evs| :: !b.evs[j].active
    ensures c > 0 ==> b.eventContinue || NoneAsUrgent(b.evs, started)
  {
    hide QueueOk, ActivesOk, HeapOk, ListsOk, TimersOk, AllServed, InOrder, Users, NoneAsUrgent, MadeReady, Moved;
    hide AllCalls, Chained;
    b.eventContinue := false;
    var _ := b.TimeoutCorrect(clockNow, eventTv);
    deadlines := b.evs;
    if b.countActive == 0 {
      wait := b.TimeoutNext(clockNow);
    } else {
      wait := Some(0);
    }
    MakeReady(b, reported, later);
    ready := b.evs;
    c, used, started := 0, 0, [];
    NoneStarted(0);
    NoChain(ready, scripts, b.timers);
    assert scripts[..0] == [];
    if b.countActive != 0 {
      c, used, started := ProcessActive(b, scripts);
    } else {
      NoneActive(b.evs);
    }
  }
}
