/**
 The event scheduler (event.c): common timeout queues beside the heap of
 timeouts, and dispatch of active events by priority.
*/
module Scheduler {
  import opened Options
  import opened EventState

  /** The timer events of the common timeouts: internal, priority 0, never in a common timeout queue themselves. */
  ghost predicate TimersOk(evs: seq<Event>, timers: seq<Id>)
  {
    && (forall c, d | 0 <= c < d < |timers| :: timers[c] != timers[d])
    && (forall c | 0 <= c < |timers| :: IsTimer(evs, timers[c]))
    && (forall i: Id | i < |evs| && evs[i].internal :: i in timers)
  }

  predicate IsTimer(evs: seq<Event>, t: Id)
  {
    t < |evs| && evs[t].internal && evs[t].pri == 0 && !evs[t].io && (evs[t].timed ==> evs[t].common.None?)
  }

  /** A waiting queue is served: its timer is due no later than its first event, or is active, or is running. */
  predicate Served(evs: seq<Event>, l: seq<Id>, t: Id, current: Maybe<Id>)
  {
    l != [] ==>
      || (InHeap(evs, t) && DeadlineOf(evs, t) <= DeadlineOf(evs, l[0]))
      || (t < |evs| && evs[t].active)
      || current == Some(t)
  }

  ghost predicate AllServed(evs: seq<Event>, lists: seq<seq<Id>>, timers: seq<Id>, current: Maybe<Id>)
    requires |timers| == |lists|
  {
    forall c | 0 <= c < |lists| :: Served(evs, lists[c], timers[c], current)
  }

  /** A callback that was started: the event, and all events as they were just before. */
  datatype Started = Started(i: Id, seen: seq<Event>)

  /** What a callback, or another thread while it runs, does to the base. */
  datatype Call =
    | CallAdd(i: Id, tv: Maybe<(int, Maybe<nat>)>)
    | CallDel(i: Id)
    | CallActivate(i: Id, byTimeout: bool)

  class Base {
    var evs: seq<Event>
    var queue: seq<Id>
    var actives: seq<seq<Id>>
    var heap: set<Id>
    var lists: seq<seq<Id>>
    var timers: seq<Id>
    var count: int
    var countActive: int
    var clock: nat                // activations so far
    var current: Maybe<Id>        // the event whose callback is running
    var runningPriority: int
    var eventContinue: bool
    ghost var history: seq<Started> // every callback started so far
    ghost var calls: seq<Call>      // every call made by callbacks so far

    /** Flags, queues and counters agree, every queue is in its order. */
    ghost predicate Queues()
      reads this
    {
      && QueueOk(evs, queue) && ActivesOk(evs, actives, clock) && HeapOk(evs, heap) && ListsOk(evs, lists)
      && count == Count(evs) && countActive == CountActive(evs)
      && |timers| == |lists| && TimersOk(evs, timers) && 0 < |actives|
      && (forall i: Id | i < |evs| :: evs[i].pri < |actives|)
    }

    ghost predicate Valid()
      reads this
    {
      Queues() && AllServed(evs, lists, timers, current)
    }

    /** event_base_new, event_base_priority_init */
    constructor (nPriorities: nat)
      requires nPriorities > 0
      ensures Valid() && evs == [] && current == None && countActive == 0 && |actives| == nPriorities && !eventContinue
      ensures history == [] && calls == []
    {
      evs, queue, heap, lists, timers := [], [], {}, [], [];
      actives := seq(nPriorities, _ => []);
      count, countActive, clock, current, runningPriority, eventContinue := 0, 0, 0, None, -1, false;
      history, calls := [], [];
    }

    /** event_assign: a new event of the user's, in no queue */
    method Assign(pri: nat, io: bool, persist: bool) returns (i: Id)
      requires Valid() && pri < |actives|
      modifies this`evs
      ensures Valid() && i == |old(evs)| && evs == old(evs) + [NewEvent(pri, false, io, persist)]
    {
      hide QueueOk, ActivesOk, HeapOk, ListsOk, TimersOk, AllServed;
      i := |evs|;
      OneMoreEvent(evs, queue, actives, clock, heap, lists, timers, current, NewEvent(pri, false, io, persist));
      evs := evs + [NewEvent(pri, false, io, persist)];
    }

    /** event_base_init_common_timeout: a new queue with its internal timer */
    method InitCommonTimeout() returns (c: nat)
      requires Valid()
      modifies this`evs, this`lists, this`timers
      ensures Valid() && c == |old(lists)| && lists == old(lists) + [[]] && timers == old(timers) + [|old(evs)|]
      ensures evs == old(evs) + [NewEvent(0, true, false, false)]
    {
      hide QueueOk, ActivesOk, HeapOk, ListsOk, TimersOk, AllServed;
      c := |lists|;
      OneMoreEvent(evs, queue, actives, clock, heap, lists, timers, current, NewEvent(0, true, false, false));
      evs, lists, timers := evs + [NewEvent(0, true, false, false)], lists + [[]], timers + [|evs|];
    }

    /** event_queue_remove(EVLIST_INSERTED) */
    method RemoveInserted(i: Id)
      requires Queues() && i < |evs| && evs[i].inserted
      modifies this`evs, this`queue, this`count
      ensures Queues() && evs == old(evs)[i := old(evs)[i].(inserted := false)]
    {
      hide QueueOk, ActivesOk, HeapOk, ListsOk, TimersOk;
      var e := evs[i].(inserted := false);
      QueueRemoved(evs, queue, i);
      ActivesStay(evs, actives, clock, i, e);
      HeapStays(evs, heap, i, e);
      ListsStay(evs, lists, i, e);
      TimersStay(evs, timers, i, e);
      CountSet(evs, i, e);
      if !evs[i].internal {
        count := count - 1;
      }
      evs, queue := evs[i := e], Without(queue, i);
    }

    /** event_queue_insert(EVLIST_INSERTED) */
    method InsertInserted(i: Id)
      requires Queues() && i < |evs| && !evs[i].inserted && !evs[i].internal
      modifies this`evs, this`queue, this`count
      ensures Queues() && evs == old(evs)[i := old(evs)[i].(inserted := true)]
    {
      hide QueueOk, ActivesOk, HeapOk, ListsOk, TimersOk;
      var e := evs[i].(inserted := true);
      QueueInserted(evs, queue, i);
      ActivesStay(evs, actives, clock, i, e);
      HeapStays(evs, heap, i, e);
      ListsStay(evs, lists, i, e);
      TimersStay(evs, timers, i, e);
      CountSet(evs, i, e);
      if !evs[i].internal {
        count := count + 1;
      }
      evs, queue := evs[i := e], queue + [i];
    }

    /** event_queue_remove(EVLIST_ACTIVE) */
    method RemoveActive(i: Id)
      requires Queues() && i < |evs| && evs[i].active
      modifies this`evs, this`actives, this`count, this`countActive
      ensures Queues() && evs == old(evs)[i := old(evs)[i].(active := false)]
      ensures actives == old(actives)[old(evs)[i].pri := Without(old(actives)[old(evs)[i].pri], i)]
    {
      hide QueueOk, ActivesOk, HeapOk, ListsOk, TimersOk;
      var e := evs[i].(active := false);
      QueueStays(evs, queue, i, e);
      ActiveRemoved(evs, actives, clock, i);
      HeapStays(evs, heap, i, e);
      ListsStay(evs, lists, i, e);
      TimersStay(evs, timers, i, e);
      CountSet(evs, i, e);
      if !evs[i].internal {
        count := count - 1;
      }
      countActive := countActive - 1;
      actives := actives[e.pri := Without(actives[e.pri], i)];
      evs := evs[i := e];
    }

    /** event_queue_insert(EVLIST_ACTIVE) */
    method InsertActive(i: Id, byTimeout: bool)
      requires Queues() && i < |evs| && !evs[i].active
      modifies this`evs, this`actives, this`count, this`countActive, this`clock
      ensures Queues()
        && evs == old(evs)[i := old(evs)[i].(active := true, byTimeout := byTimeout, stamp := old(clock))]
      ensures actives == old(actives)[evs[i].pri := old(actives)[evs[i].pri] + [i]] && clock == old(clock) + 1
    {
      hide QueueOk, ActivesOk, HeapOk, ListsOk, TimersOk;
      var e := evs[i].(active := true, byTimeout := byTimeout, stamp := clock);
      QueueStays(evs, queue, i, e);
      ActiveInserted(evs, actives, clock, i, e);
      HeapStays(evs, heap, i, e);
      ListsStay(evs, lists, i, e);
      TimersStay(evs, timers, i, e);
      CountSet(evs, i, e);
      if !evs[i].internal {
        count := count + 1;
      }
      countActive := countActive + 1;
      actives := actives[e.pri := actives[e.pri] + [i]];
      evs, clock := evs[i := e], clock + 1;
    }

    /** event_queue_remove(EVLIST_TIMEOUT) */
    method RemoveTimeout(i: Id)
      requires Queues() && i < |evs| && evs[i].timed
      modifies this`evs, this`heap, this`lists, this`count
      ensures Queues() && evs == old(evs)[i := old(evs)[i].(timed := false)]
      ensures lists == LessOne(old(lists), old(evs)[i].common, i)
    {
      hide QueueOk, ActivesOk, HeapOk, ListsOk, TimersOk;
      var e := evs[i].(timed := false);
      QueueStays(evs, queue, i, e);
      ActivesStay(evs, actives, clock, i, e);
      HeapRemoved(evs, heap, i);
      ListsRemoved(evs, lists, i);
      TimersStay(evs, timers, i, e);
      CountSet(evs, i, e);
      if !evs[i].internal {
        count := count - 1;
      }
      if evs[i].common.Some? {
        var c := evs[i].common.value;
        NotInHeap(evs, heap, i);
        lists := lists[c := Without(lists[c], i)];
      } else {
        heap := heap - {i};
      }
      evs := evs[i := e];
    }

    /** insert_common_timeout_inorder: the place found by a search from the end. */
    method FindPlace(c: nat, deadline: int) returns (k: nat)
      requires c < |lists| && ListOk(evs, lists[c], c)
      ensures Fits(evs, lists[c], k, deadline)
    {
      k := |lists[c]|;
      while k > 0
        invariant k <= |lists[c]| && forall x | k <= x < |lists[c]| :: deadline < DeadlineOf(evs, lists[c][x])
      {
        if deadline >= DeadlineOf(evs, lists[c][k - 1]) {
          return;
        }
        k := k - 1;
      }
    }

    /** event_queue_insert(EVLIST_TIMEOUT) of an event with its new timeout */
    method InsertTimeout(i: Id, deadline: int, common: Maybe<nat>) returns (ghost k: nat)
      requires Queues() && i < |evs| && !evs[i].timed && (common.Some? ==> common.value < |lists| && !evs[i].internal)
      modifies this`evs, this`heap, this`lists, this`count
      ensures Queues() && evs == old(evs)[i := old(evs)[i].(timed := true, deadline := deadline, common := common)]
      ensures common.Some? ==> Fits(old(evs), old(lists)[common.value], k, deadline)
      ensures lists == if common.Some? then old(lists)[common.value := old(lists)[common.value][..k] + [i] + old(lists)[common.value][k..]]
                       else old(lists)
    {
      hide QueueOk, ActivesOk, HeapOk, TimersOk;
      var e := evs[i].(timed := true, deadline := deadline, common := common);
      QueueStays(evs, queue, i, e);
      ActivesStay(evs, actives, clock, i, e);
      HeapInserted(evs, heap, i, e);
      TimersStay(evs, timers, i, e);
      CountSet(evs, i, e);
      k := 0;
      if !evs[i].internal {
        count := count + 1;
      }
      if common.Some? {
        var c := common.value;
        var place := FindPlace(c, deadline);
        k := place;
        ListsInserted(evs, lists, i, e, k);
        lists := lists[c := lists[c][..place] + [i] + lists[c][place..]];
      } else {
        ListsInserted(evs, lists, i, e, 0);
        heap := heap + {i};
      }
      evs := evs[i := e];
    }

    /** event_del_internal */
    method Del(i: Id)
      requires Queues() && i < |evs|
      modifies this`evs, this`queue, this`actives, this`heap, this`lists, this`count, this`countActive
      ensures Queues() && evs == old(evs)[i := old(evs)[i].(inserted := false, active := false, timed := false)]
      ensures lists == if old(evs)[i].timed then LessOne(old(lists), old(evs)[i].common, i) else old(lists)
      ensures old(Valid()) && !old(evs)[i].internal ==> Valid()
      ensures |actives| == |old(actives)| && |lists| == |old(lists)|
    {
      hide QueueOk, ActivesOk, HeapOk, ListsOk, TimersOk;
      ghost var evs0, lists0 := evs, lists;
      if evs[i].timed {
        RemoveTimeout(i);
      }
      if evs[i].active {
        RemoveActive(i);
      }
      if evs[i].inserted {
        RemoveInserted(i);
      }
      assert evs == evs0[i := evs0[i].(inserted := false, active := false, timed := false)];
      if !evs0[i].internal && AllServed(evs0, lists0, timers, current) {
        LostOneServed(evs0, lists0, timers, current, i, evs[i]);
      }
    }

    /** event_active_nolock */
    method Activate(i: Id, byTimeout: bool)
      requires Queues() && i < |evs|
      modifies this`evs, this`actives, this`count, this`countActive, this`clock, this`eventContinue
      ensures Queues() && evs == old(evs)[i := Activated(old(evs)[i], byTimeout, old(clock))]
      ensures eventContinue == (old(eventContinue) || (!old(evs)[i].active && evs[i].pri < runningPriority))
      ensures actives == if old(evs)[i].active then old(actives) else old(actives)[evs[i].pri := old(actives)[evs[i].pri] + [i]]
      ensures clock == old(clock) + if old(evs)[i].active then 0 else 1
      ensures AllServed(old(evs), lists, timers, current) ==> AllServed(evs, lists, timers, current)
    {
      hide QueueOk, ActivesOk, HeapOk, ListsOk, TimersOk;
      ghost var evs0 := evs;
      if evs[i].active {
        evs := evs[i := evs[i].(byTimeout := evs[i].byTimeout || byTimeout)];
        FlagsStay(evs0, queue, actives, heap, lists, timers, clock, i, evs[i]);
      } else {
        if evs[i].pri < runningPriority {
          eventContinue := true;
        }
        InsertActive(i, byTimeout);
      }
      ActivatedServed(evs0, lists, timers, current, i, evs[i]);
    }

    /** The timeout part of event_add_internal. */
    method SetTimeout(i: Id, deadline: int, common: Maybe<nat>) returns (ghost k: nat)
      requires Queues() && i < |evs| && (common.Some? ==> common.value < |lists| && !evs[i].internal)
      modifies this`evs, this`queue, this`actives, this`heap, this`lists, this`count, this`countActive
      ensures Queues() && evs == old(evs)[i := Timed(old(evs)[i], deadline, common)]
      ensures var less := if old(evs)[i].timed then LessOne(old(lists), old(evs)[i].common, i) else old(lists);
              && |less| == |old(lists)| && (common.Some? ==> k <= |less[common.value]|)
              && lists == if common.Some? then less[common.value := less[common.value][..k] + [i] + less[common.value][k..]] else less
      ensures |actives| == |old(actives)| && |lists| == |old(lists)|
    {
      hide QueueOk, ActivesOk, HeapOk, ListsOk, TimersOk, LessOne;
      ghost var evs0 := evs;
      Unschedule(i);
      k := InsertTimeout(i, deadline, common);
      assert evs == evs0[i := Timed(evs0[i], deadline, common)];
    }

    /** An old timeout is taken back, and so is its activation if the callback has not run. */
    method Unschedule(i: Id)
      requires Queues() && i < |evs|
      modifies this`evs, this`queue, this`actives, this`heap, this`lists, this`count, this`countActive
      ensures Queues()
      ensures var e := old(evs)[i]; evs == old(evs)[i := e.(timed := false, active := e.active && !e.byTimeout)]
      ensures lists == if old(evs)[i].timed then LessOne(old(lists), old(evs)[i].common, i) else old(lists)
      ensures |actives| == |old(actives)| && |lists| == |old(lists)|
    {
      hide QueueOk, ActivesOk, HeapOk, ListsOk, TimersOk;
      if evs[i].timed {
        RemoveTimeout(i);
      }
      if evs[i].active && evs[i].byTimeout {
        RemoveActive(i); // rescheduled before its callback could run
      }
    }

    /** common_timeout_schedule: the queue's timer is set to its first deadline. */
    method Schedule(c: nat)
      requires Queues() && c < |lists| && lists[c] != []
      requires forall d | 0 <= d < |lists| && d != c :: Served(evs, lists[d], timers[d], current)
      modifies this`evs, this`queue, this`actives, this`heap, this`lists, this`count, this`countActive
      ensures Valid() && lists == old(lists) && InHeap(evs, timers[c])
        && DeadlineOf(evs, timers[c]) == DeadlineOf(old(evs), lists[c][0])
      ensures timers[c] < |old(evs)|
        && evs == old(evs)[timers[c] := Timed(old(evs)[timers[c]], DeadlineOf(old(evs), lists[c][0]), None)]
      ensures |actives| == |old(actives)| && |lists| == |old(lists)|
    {
      hide QueueOk, ActivesOk, HeapOk, ListsOk;
      ghost var evs0 := evs;
      assert IsTimer(evs, timers[c]);
      var t, at := timers[c], DeadlineOf(evs, lists[c][0]);
      ghost var _ := SetTimeout(t, at, None);
      ScheduledServed(evs0, lists, timers, current, c, evs[t]);
    }

    /** event_add_internal: an interval, or (`absolute`) a deadline, with the common timeout it is marked with. */
    method Add(i: Id, tv: Maybe<(int, Maybe<nat>)>, absolute: bool, now: int)
      requires Valid() && i < |evs| && !evs[i].internal
      requires tv.Some? && tv.value.1.Some? ==> tv.value.1.value < |lists|
      modifies this`evs, this`queue, this`actives, this`heap, this`lists, this`count, this`countActive
      ensures Valid() && |evs| == |old(evs)|
      ensures evs[i] == Added(old(evs)[i], tv, absolute, now) && OthersStay(old(evs), evs, i, if tv.None? then None else tv.value.1, timers)
      ensures NoneStarts(old(evs), evs)
      ensures |actives| == |old(actives)| && |lists| == |old(lists)|
    {
      hide QueueOk, ActivesOk, HeapOk, ListsOk, TimersOk, Timed;
      ghost var evs0 := evs;
      if evs[i].io && !(evs[i].inserted || evs[i].active) {
        InsertInserted(i);
        ChangedServed(evs0, lists, timers, current, i, evs[i]);
      }
      if tv.Some? {
        if evs[i].persist && !absolute {
          RememberInterval(i, tv.value);
        }
        SetUserTimeout(i, if absolute then tv.value.0 else now + tv.value.0, tv.value.1);
      }
    }

    /** A persistent event's ev_io_timeout */
    method RememberInterval(i: Id, tv: (int, Maybe<nat>))
      requires Valid() && i < |evs| && !evs[i].internal
      modifies this`evs
      ensures Valid() && evs == old(evs)[i := old(evs)[i].(interval := Some(tv))]
    {
      hide QueueOk, ActivesOk, HeapOk, ListsOk, TimersOk;
      ghost var evs0 := evs;
      evs := evs[i := evs[i].(interval := Some(tv))];
      FlagsStay(evs0, queue, actives, heap, lists, timers, clock, i, evs[i]);
      ChangedServed(evs0, lists, timers, current, i, evs[i]);
    }

    /** A user's event gets a new timeout; if it now heads its queue, the queue's timer follows. */
    method SetUserTimeout(i: Id, at: int, common: Maybe<nat>)
      requires Valid() && i < |evs| && !evs[i].internal && (common.Some? ==> common.value < |lists|)
      modifies this`evs, this`queue, this`actives, this`heap, this`lists, this`count, this`countActive
      ensures Valid() && |evs| == |old(evs)| && evs[i] == Timed(old(evs)[i], at, common)
        && OthersStay(old(evs), evs, i, common, timers)
      ensures NoneStarts(old(evs), evs)
      ensures |actives| == |old(actives)| && |lists| == |old(lists)|
    {
      hide QueueOk, ActivesOk, HeapOk, ListsOk, TimersOk, LessOne, Timed, Served;
      ghost var evs1, lists1 := evs, lists;
      ghost var k := SetTimeout(i, at, common);
      TimedIs(evs1[i], at, common);
      SetServed(evs1, lists1, timers, current, i, evs[i], k);
      HeadOnly(evs, lists, i);
      if common.Some? {
        var c := common.value;
        ghost var less := if evs1[i].timed then LessOne(lists1, evs1[i].common, i) else lists1;
        Head(less[c], k, i);
        TimerIs(evs, timers, c);
        if lists[c][0] == i {
          Schedule(c);
          TimedIs(old(evs)[timers[c]], 0, None);
        }
      }
    }

    /** A timeout has elapsed: event_del_internal, then event_active_nolock. */
    method Expire(i: Id)
      requires Valid() && i < |evs|
      modifies this`evs, this`queue, this`actives, this`heap, this`lists, this`count, this`countActive, this`clock, this`eventContinue
      ensures Valid() && |evs| == |old(evs)| && evs == old(evs)[i := Expired(old(evs)[i], old(clock))]
        && clock > old(clock)
      ensures lists == if old(evs)[i].timed then LessOne(old(lists), old(evs)[i].common, i) else old(lists)
      ensures heap == old(heap) - {i}
      ensures runningPriority <= 0 ==> eventContinue == old(eventContinue)
      ensures |actives| == |old(actives)| && |lists| == |old(lists)|
    {
      hide QueueOk, ActivesOk, ListsOk, TimersOk;
      ghost var evs0, lists0, heap0 := evs, lists, heap;
      Del(i);
      Activate(i, true);
      ExpiredServed(evs0, lists0, timers, current, i, evs[i]);
      HeapLess(evs0, heap0, evs, heap, i);
    }

    /** min_heap_top: an event of the heap with the least deadline. */
    method HeapTop() returns (i: Id)
      requires Queues() && heap != {}
      ensures i in heap && i < |evs| && forall j | j in heap :: DeadlineOf(evs, i) <= DeadlineOf(evs, j)
    {
      ghost var m := Least(evs, heap);
      i :| i in heap && forall j | j in heap :: DeadlineOf(evs, i) <= DeadlineOf(evs, j);
      assert InHeap(evs, i);
    }

    /** timeout_process */
    method TimeoutProcess(now: int)
      requires Valid()
      modifies this`evs, this`queue, this`actives, this`heap, this`lists, this`count, this`countActive, this`clock, this`eventContinue
      ensures Valid() && |evs| == |old(evs)|
      ensures runningPriority <= 0 ==> eventContinue == old(eventContinue)
      ensures forall j | j in heap :: DeadlineOf(evs, j) > now
      ensures Fired(old(evs), evs, HeapDue(old(evs), now), old(clock)) && clock >= old(clock)
      ensures |actives| == |old(actives)| && |lists| == |old(lists)|
    {
      hide QueueOk, ActivesOk, HeapOk, ListsOk, TimersOk, Expired, Firing, Fired, HeapDue;
      ghost var due, done: set<Id> := HeapDue(evs, now), {};
      NoneFired(evs, due, clock);
      while heap != {}
        invariant Valid() && |evs| == |old(evs)| && |actives| == |old(actives)| && |lists| == |old(lists)|
        invariant runningPriority <= 0 ==> eventContinue == old(eventContinue)
        invariant Firing(old(evs), evs, due, done, old(clock), clock) && clock >= old(clock)
        decreases |heap|
      {
        ghost var evs1, clock1 := evs, clock;
        var i := HeapTop();
        if evs[i].deadline > now {
          break;
        }
        NextInHeap(old(evs), evs, heap, due, done, old(clock), clock, now, i);
        Expire(i);
        FiredOne(old(evs), evs1, evs, due, done, old(clock), clock1, clock, i);
        done := done + {i};
      }
      HeapDone(old(evs), evs, heap, due, done, old(clock), clock, now);
    }

    /** common_timeout_callback: the queue's timer has fired, and its callback is running. */
    method CommonTimeoutCallback(c: nat, now: int)
      requires Valid() && c < |lists| && current == Some(timers[c])
      modifies this`evs, this`queue, this`actives, this`heap, this`lists, this`count, this`countActive, this`clock, this`eventContinue
      ensures Valid() && AllServed(evs, lists, timers, None) && SameTables(old(evs), evs)
      ensures runningPriority <= 0 ==> eventContinue == old(eventContinue)
      ensures forall x | 0 <= x < |lists[c]| :: DeadlineOf(evs, lists[c][x]) > now
      ensures FiredList(old(evs), evs, c, timers[c], now, old(clock))
      ensures |actives| == |old(actives)| && |lists| == |old(lists)|
    {
      hide QueueOk, ActivesOk, HeapOk, TimersOk, Expired, FiredList, Firing, Fired, ListDue;
      TimerApart(evs, timers, c);
      TimerIs(evs, timers, c);
      ghost var due, done: set<Id> := ListDue(evs, c, now), {};
      NoneFired(evs, due, clock);
      while lists[c] != [] && DeadlineOf(evs, lists[c][0]) <= now
        invariant Valid() && |lists| == |old(lists)| && current == Some(timers[c]) && |actives| == |old(actives)|
        invariant SameTables(old(evs), evs) && (runningPriority <= 0 ==> eventContinue == old(eventContinue))
        invariant Firing(old(evs), evs, due, done, old(clock), clock)
        decreases |lists[c]|
      {
        ghost var evs1, clock1 := evs, clock;
        var i := lists[c][0];
        assert ListOk(evs, lists[c], c) && i in lists[c];
        assert InList(evs, c, i);
        NextInList(old(evs), evs, lists[c], c, due, done, old(clock), clock, now);
        WithoutIt(lists[c], i);
        Expire(i);
        FiredOne(old(evs), evs1, evs, due, done, old(clock), clock1, clock, i);
        done := done + {i};
      }
      assert ListOk(evs, lists[c], c);
      ListDone(old(evs), evs, lists[c], c, timers[c], due, done, old(clock), clock, now);
      OthersServed(evs, lists, timers, c);
      if lists[c] != [] {
        ghost var evs1 := evs;
        TimerIs(evs, timers, c);
        TimerApart(evs, timers, c);
        Schedule(c);
        FiredStays(old(evs), evs1, evs, c, timers[c], now, old(clock));
        TimerApart(evs, timers, c);
        WithoutCurrent(evs, lists, timers, c);
      }
    }

    /** timeout_next: how long the loop may wait; forever without a timeout. */
    method TimeoutNext(now: int) returns (wait: Maybe<int>)
      requires Valid() && current == None && countActive == 0
      ensures wait.None? <==> forall i: Id | i < |evs| :: !evs[i].timed
      ensures wait.Some? ==> wait.value >= 0 && WaitsFor(evs, now, now + wait.value)
    {
      NoneActive(evs);
      if heap == {} {
        ListsWait(evs, heap, lists, timers, now);
        return None;
      }
      var top := HeapTop();
      ListsWait(evs, heap, lists, timers, evs[top].deadline);
      assert InHeap(evs, top);
      assert evs[top].timed;
      if evs[top].deadline <= now {
        return Some(0);
      }
      return Some(evs[top].deadline - now);
    }

    /** timeout_correct: if the clock went back, every deadline moves back with it.  The result is event_tv. */
    method TimeoutCorrect(now: int, eventTv: int) returns (tv: int)
      requires Valid()
      modifies this`evs
      ensures Valid() && tv == now
      ensures now >= eventTv ==> evs == old(evs)
      ensures now < eventTv ==> Moved(old(evs), evs, eventTv - now)
    {
      hide QueueOk, ActivesOk, TimersOk, AllServed;
      if now >= eventTv {
        return now;
      }
      var off := eventTv - now;
      ghost var evs0 := evs;
      ShiftHeap(off);
      ghost var done := ShiftLists(evs0, off);
      MovedIs(evs0, evs, heap, lists, off, done);
      MovedOk(evs0, evs, queue, actives, clock, heap, lists, timers, current, off);
      return now;
    }

    /** timeout_correct's loop over the heap. */
    method ShiftHeap(off: int)
      requires HeapOk(evs, heap)
      modifies this`evs
      ensures Shifted(old(evs), evs, off, heap)
    {
      HeapKnown(evs, heap);
      var rest := heap;
      while rest != {}
        invariant rest <= heap && Shifted(old(evs), evs, off, heap - rest)
        decreases |rest|
      {
        var i :| i in rest;
        evs := evs[i := evs[i].(deadline := evs[i].deadline - off)];
        rest := rest - {i};
      }
    }

    /** timeout_correct's loop over the common timeouts. */
    method ShiftLists(ghost evs0: seq<Event>, off: int) returns (ghost done: set<Id>)
      requires HeapOk(evs0, heap) && ListsOk(evs0, lists) && Shifted(evs0, evs, off, heap)
      modifies this`evs
      ensures Shifted(evs0, evs, off, done) && forall i: Id :: i in done <==> i in heap || InFirst(lists, |lists|, i)
    {
      hide Shifted, ListOk;
      done := heap;
      var c := 0;
      while c < |lists|
        invariant c <= |lists| && Shifted(evs0, evs, off, done)
        invariant forall i: Id :: i in done <==> i in heap || InFirst(lists, c, i)
      {
        NotInFirst(evs0, heap, lists, c, done);
        done := ShiftList(evs0, c, off, done);
        c := c + 1;
        assert forall i: Id :: InFirst(lists, c, i) <==> InFirst(lists, c - 1, i) || i in lists[c - 1];
      }
    }

    /** One common timeout queue of timeout_correct. */
    method ShiftList(ghost evs0: seq<Event>, c: nat, off: int, ghost done0: set<Id>) returns (ghost done: set<Id>)
      requires c < |lists| && ListOk(evs0, lists[c], c) && Shifted(evs0, evs, off, done0)
      requires forall i: Id | i in done0 :: !InList(evs0, c, i)
      modifies this`evs
      ensures Shifted(evs0, evs, off, done)
      ensures forall i: Id :: i in done <==> i in done0 || i in lists[c]
    {
      done := done0;
      var x := 0;
      while x < |lists[c]|
        invariant x <= |lists[c]| && Shifted(evs0, evs, off, done)
        invariant forall i: Id :: i in done <==> i in done0 || i in lists[c][..x]
      {
        var i := lists[c][x];
        assert i in lists[c];
        assert InList(evs0, c, i);
        evs := evs[i := evs[i].(deadline := evs[i].deadline - off)];
        done := done + {i};
        assert lists[c][..x + 1] == lists[c][..x] + [i];
        x := x + 1;
      }
      assert lists[c][..x] == lists[c];
    }
  }

  /** The deadlines of the events in `done` are `off` earlier. */
  ghost predicate Shifted(before: seq<Event>, after: seq<Event>, off: int, done: set<Id>)
  {
    && |after| == |before|
    && forall i: Id | i < |after| :: after[i] == if i in done then before[i].(deadline := before[i].deadline - off) else before[i]
  }

  /** The deadlines of all waiting events are `off` earlier. */
  predicate Moved(before: seq<Event>, after: seq<Event>, off: int)
  {
    && |after| == |before|
    && forall i: Id | i < |after| :: after[i] == if before[i].timed then before[i].(deadline := before[i].deadline - off) else before[i]
  }

  /** The event is in one of the first `n` queues. */
  ghost predicate InFirst(lists: seq<seq<Id>>, n: nat, i: Id)
  {
    exists d :: 0 <= d < n && d < |lists| && i in lists[d]
  }

  /** An event is in one place only. */
  lemma {:induction false} NotInFirst(evs: seq<Event>, heap: set<Id>, lists: seq<seq<Id>>, c: nat, done: set<Id>)
    requires HeapOk(evs, heap) && ListsOk(evs, lists) && c < |lists|
    requires forall i: Id :: i in done <==> i in heap || InFirst(lists, c, i)
    ensures ListOk(evs, lists[c], c) && forall i: Id | i in done :: !InList(evs, c, i)
  {
    forall i: Id | i in done
      ensures !InList(evs, c, i)
    {
      if i in heap {
        assert InHeap(evs, i);
      } else {
        var d :| 0 <= d < c && i in lists[d];
        assert ListOk(evs, lists[d], d);
        assert InList(evs, d, i);
      }
    }
  }

  lemma {:induction false} MovedIs(before: seq<Event>, after: seq<Event>, heap: set<Id>, lists: seq<seq<Id>>,
      off: int, done: set<Id>)
    requires HeapOk(before, heap) && ListsOk(before, lists) && Shifted(before, after, off, done)
    requires forall i: Id :: i in done <==> i in heap || InFirst(lists, |lists|, i)
    ensures Moved(before, after, off)
  {
    forall i: Id | i < |before|
      ensures i in done <==> before[i].timed
    {
      assert i in heap <==> InHeap(before, i);
      forall d | 0 <= d < |lists|
        ensures i in lists[d] <==> InList(before, d, i)
      {
        assert ListOk(before, lists[d], d);
      }
      if before[i].timed && before[i].common.Some? {
        assert InList(before, before[i].common.value, i);
      }
    }
  }

  /** Moving all deadlines alike keeps every queue in order and served. */
  lemma {:induction false} MovedOk(before: seq<Event>, after: seq<Event>, queue: seq<Id>, actives: seq<seq<Id>>,
      clock: nat,
      heap: set<Id>, lists: seq<seq<Id>>, timers: seq<Id>, current: Maybe<Id>, off: int)
    requires Moved(before, after, off) && |timers| == |lists|
    requires QueueOk(before, queue) && ActivesOk(before, actives, clock) && HeapOk(before, heap)
      && ListsOk(before, lists)
    requires TimersOk(before, timers) && AllServed(before, lists, timers, current)
    ensures QueueOk(after, queue) && ActivesOk(after, actives, clock) && HeapOk(after, heap) && ListsOk(after, lists)
    ensures TimersOk(after, timers) && AllServed(after, lists, timers, current)
    ensures Count(after) == Count(before) && CountActive(after) == CountActive(before)
  {
    assert forall i: Id :: IsInserted(after, i) == IsInserted(before, i) && InHeap(after, i) == InHeap(before, i);
    forall p | 0 <= p < |actives|
      ensures ActiveOk(after, actives[p], p)
    {
      assert ActiveOk(before, actives[p], p);
      assert forall i: Id :: IsActive(after, p, i) == IsActive(before, p, i) && StampOf(after, i) == StampOf(before, i);
    }
    forall c | 0 <= c < |lists|
      ensures ListOk(after, lists[c], c) && Served(after, lists[c], timers[c], current)
    {
      MovedList(before, after, lists[c], c, off);
      assert ListOk(before, lists[c], c) && Served(before, lists[c], timers[c], current);
    }
    assert forall c | 0 <= c < |timers| :: IsTimer(before, timers[c]) ==> IsTimer(after, timers[c]);
    MovedCount(before, after);
  }

  lemma {:induction false} MovedList(before: seq<Event>, after: seq<Event>, l: seq<Id>, c: nat, off: int)
    requires Moved(before, after, off) && ListOk(before, l, c)
    ensures ListOk(after, l, c) && (l != [] ==> DeadlineOf(after, l[0]) == DeadlineOf(before, l[0]) - off)
  {
    assert forall i: Id :: InList(after, c, i) == InList(before, c, i);
    forall x | 0 <= x < |l|
      ensures DeadlineOf(after, l[x]) == DeadlineOf(before, l[x]) - off
    {
      assert l[x] in l;
      assert InList(before, c, l[x]);
    }
  }

  lemma {:induction false} MovedCount(before: seq<Event>, after: seq<Event>)
    requires |before| == |after|
    requires forall i: Id | i < |before| :: after[i] == before[i].(deadline := after[i].deadline)
    ensures Count(after) == Count(before) && CountActive(after) == CountActive(before)
  {
    if before != [] {
      MovedCount(before[1..], after[1..]);
    }
  }

  /** The loop wakes up at `at`: when the first event is due that has a timeout, or now if that is past. */
  ghost predicate WaitsFor(evs: seq<Event>, now: int, at: int)
  {
    && (forall i: Id | i < |evs| && evs[i].timed :: at <= Later(now, evs[i].deadline))
    && exists i: Id :: i < |evs| && evs[i].timed && at == Later(now, evs[i].deadline)
  }

  function Later(a: int, b: int): (m: int)
    ensures m >= a && m >= b && (m == a || m == b)
  {
    if a < b then b else a
  }

  /** An event whose timeout has elapsed. */
  function Expired(e: Event, stamp: nat): (r: Event)
    ensures r.active && r.byTimeout && !r.timed && !r.inserted && r.deadline == e.deadline
  {
    e.(inserted := false, timed := false, active := true, byTimeout := true, stamp := stamp)
  }

  /** The events of the heap, and of common timeout `c`, that are due. */
  ghost function HeapDue(evs: seq<Event>, now: int): (due: set<Id>)
    ensures forall j | j in due :: j < |evs|
  {
    set j: Id | j < |evs| && InHeap(evs, j) && DeadlineOf(evs, j) <= now
  }

  ghost function ListDue(evs: seq<Event>, c: nat, now: int): (due: set<Id>)
    ensures forall j | j in due :: j < |evs|
  {
    set j: Id | j < |evs| && InList(evs, c, j) && DeadlineOf(evs, j) <= now
  }

  /** The earlier deadline was activated first. */
  ghost predicate ByDeadline(before: seq<Event>, after: seq<Event>, fired: set<Id>)
  {
    forall i, j | i in fired && j in fired && DeadlineOf(before, i) < DeadlineOf(before, j) ::
      StampOf(after, i) < StampOf(after, j)
  }

  /** Exactly these events have run out, in order of their deadlines, behind all that was activated before `from`. */
  ghost predicate Fired(before: seq<Event>, after: seq<Event>, due: set<Id>, from: nat)
  {
    && |after| == |before|
    && (forall j: Id | j < |after| :: after[j] == if j in due then Expired(before[j], after[j].stamp) else before[j])
    && (forall j: Id | j < |after| && j in due :: after[j].stamp >= from) && ByDeadline(before, after, due)
  }

  /** Exactly the due events of common timeout `c` have run out; nothing else has changed but the queue's timer `t`. */
  ghost predicate FiredList(before: seq<Event>, after: seq<Event>, c: nat, t: Id, now: int, from: nat)
  {
    t < |before| == |after| && Fired(before, after[t := before[t]], ListDue(before, c, now), from)
  }

  /** On the way there: those in `done` have run out, no later than any other. */
  ghost predicate Firing(before: seq<Event>, after: seq<Event>, due: set<Id>, done: set<Id>, from: nat, clock: nat)
  {
    && Fired(before, after, done, from) && done <= due && from <= clock
    && (forall j: Id | j < |after| && j in done :: after[j].stamp < clock)
    && (forall j | j in due :: j < |before|)
    && forall i, j | i in done && j in due && j !in done :: DeadlineOf(before, i) <= DeadlineOf(before, j)
  }

  lemma {:induction false} NoneFired(evs: seq<Event>, due: set<Id>, clock: nat)
    requires forall j | j in due :: j < |evs|
    ensures Firing(evs, evs, due, {}, clock, clock)
  {
  }

  lemma {:induction false} FiredOne(before: seq<Event>, mid: seq<Event>, after: seq<Event>, due: set<Id>, done: set<Id>,
      from: nat, clock: nat, later: nat, i: Id)
    requires Firing(before, mid, due, done, from, clock) && i in due && i !in done && clock < later
    requires forall j | j in due && j !in done :: DeadlineOf(before, i) <= DeadlineOf(before, j)
    requires i < |mid| && after == mid[i := Expired(mid[i], clock)]
    ensures Firing(before, after, due, done + {i}, from, later) && SameTables(mid, after)
  {
  }

  /** The head of the queue is the next one. */
  lemma {:induction false} NextInList(before: seq<Event>, mid: seq<Event>, l: seq<Id>, c: nat, due: set<Id>,
      done: set<Id>,
      from: nat, clock: nat, now: int)
    requires Firing(before, mid, due, done, from, clock) && due == ListDue(before, c, now)
    requires ListOk(mid, l, c) && l != [] && DeadlineOf(mid, l[0]) <= now
    ensures l[0] in due && l[0] !in done
    ensures forall j | j in due && j !in done :: DeadlineOf(before, l[0]) <= DeadlineOf(before, j)
  {
    assert l[0] in l;
    assert InList(mid, c, l[0]);
    forall j | j in due && j !in done
      ensures DeadlineOf(before, l[0]) <= DeadlineOf(before, j)
    {
      assert InList(mid, c, j) && j in l;
    }
  }

  lemma {:induction false} ListDone(before: seq<Event>, after: seq<Event>, l: seq<Id>, c: nat, t: Id, due: set<Id>,
      done: set<Id>, from: nat, clock: nat, now: int)
    requires Firing(before, after, due, done, from, clock) && due == ListDue(before, c, now) && t < |before|
    requires ListOk(after, l, c) && (l != [] ==> DeadlineOf(after, l[0]) > now)
    requires forall j: Id | InList(before, c, j) :: j != t
    ensures FiredList(before, after, c, t, now, from)
    ensures forall x | 0 <= x < |l| :: DeadlineOf(after, l[x]) > now
  {
    forall j | j in due
      ensures j in done
    {
      assert InList(after, c, j) ==> j in l;
      assert j in l ==> DeadlineOf(after, j) > now;
    }
    assert done == due;
    assert after[t := before[t]] == after;
  }

  lemma {:induction false} FiredStays(before: seq<Event>, mid: seq<Event>, after: seq<Event>, c: nat, t: Id, now: int,
      from: nat)
    requires FiredList(before, mid, c, t, now, from) && |mid| == |after| && after == mid[t := after[t]]
    ensures FiredList(before, after, c, t, now, from)
  {
    hide Fired, ListDue;
    assert after[t := before[t]] == mid[t := before[t]];
  }

  /** The top of the heap is the next one. */
  lemma {:induction false} NextInHeap(before: seq<Event>, mid: seq<Event>, heap: set<Id>, due: set<Id>, done: set<Id>,
      from: nat, clock: nat, now: int, i: Id)
    requires Firing(before, mid, due, done, from, clock) && due == HeapDue(before, now) && HeapOk(mid, heap)
    requires i in heap && DeadlineOf(mid, i) <= now && forall j | j in heap :: DeadlineOf(mid, i) <= DeadlineOf(mid, j)
    ensures i in due && i !in done
    ensures forall j | j in due && j !in done :: DeadlineOf(before, i) <= DeadlineOf(before, j)
  {
    assert InHeap(mid, i);
    forall j | j in due && j !in done
      ensures DeadlineOf(before, i) <= DeadlineOf(before, j)
    {
      assert InHeap(mid, j);
    }
  }

  lemma {:induction false} HeapDone(before: seq<Event>, after: seq<Event>, heap: set<Id>, due: set<Id>, done: set<Id>,
      from: nat, clock: nat, now: int)
    requires Firing(before, after, due, done, from, clock) && due == HeapDue(before, now) && HeapOk(after, heap)
    requires heap == {}
      || exists i :: i in heap && DeadlineOf(after, i) > now
                     && forall j | j in heap :: DeadlineOf(after, i) <= DeadlineOf(after, j)
    ensures Fired(before, after, due, from) && forall j | j in heap :: DeadlineOf(after, j) > now
  {
    forall j | j in due
      ensures j in done
    {
      assert InHeap(after, j) ==> j in heap;
    }
    assert done == due;
  }

  lemma {:induction false} ExpiredServed(evs: seq<Event>, lists: seq<seq<Id>>, timers: seq<Id>, current: Maybe<Id>,
      i: Id, e: Event)
    requires |timers| == |lists| && ListsOk(evs, lists) && TimersOk(evs, timers)
      && AllServed(evs, lists, timers, current)
    requires i < |evs| && e.active && e.deadline == evs[i].deadline
    ensures AllServed(evs[i := e], if evs[i].timed then LessOne(lists, evs[i].common, i) else lists, timers, current)
  {
    var ls := if evs[i].timed then LessOne(lists, evs[i].common, i) else lists;
    forall c | 0 <= c < |ls|
      ensures Served(evs[i := e], ls[c], timers[c], current)
    {
      assert Served(evs, lists[c], timers[c], current) && ListOk(evs, lists[c], c);
      HeadMoves(evs, lists[c], c, i);
    }
  }

  lemma {:induction false} HeapLess(evs: seq<Event>, heap: set<Id>, evs2: seq<Event>, heap2: set<Id>, i: Id)
    requires HeapOk(evs, heap) && HeapOk(evs2, heap2) && i < |evs| == |evs2| && evs2 == evs[i := evs2[i]]
      && !evs2[i].timed
    ensures heap2 == heap - {i}
  {
    forall k: Id
      ensures k in heap2 <==> k in heap - {i}
    {
      assert InHeap(evs2, k) <==> InHeap(evs, k) && k != i;
    }
  }

  lemma {:induction false} HeapKnown(evs: seq<Event>, heap: set<Id>)
    requires HeapOk(evs, heap)
    ensures forall j | j in heap :: j < |evs| && evs[j].timed && evs[j].common.None?
  {
    assert forall j | j in heap :: InHeap(evs, j);
  }

  /** A set of events has one with the least deadline. */
  lemma {:induction false} Least(evs: seq<Event>, s: set<Id>) returns (m: Id)
    requires s != {}
    ensures m in s && forall j | j in s :: DeadlineOf(evs, m) <= DeadlineOf(evs, j)
    decreases |s|
  {
    var x :| x in s;
    var rest := s - {x};
    if rest == {} {
      m := x;
      assert s == {x};
    } else {
      var y := Least(evs, rest);
      m := if DeadlineOf(evs, x) <= DeadlineOf(evs, y) then x else y;
    }
  }

  /** The queues other than `c` do not rely on the running callback of `c`'s timer. */
  lemma {:induction false} OthersServed(evs: seq<Event>, lists: seq<seq<Id>>, timers: seq<Id>, c: nat)
    requires |timers| == |lists| && c < |lists| && TimersOk(evs, timers)
      && AllServed(evs, lists, timers, Some(timers[c]))
    ensures forall d | 0 <= d < |lists| && (d != c || lists[d] == []) :: Served(evs, lists[d], timers[d], None)
    ensures lists[c] == [] ==> AllServed(evs, lists, timers, None)
  {
    forall d | 0 <= d < |lists| && (d != c || lists[d] == [])
      ensures Served(evs, lists[d], timers[d], None)
    {
      assert Served(evs, lists[d], timers[d], Some(timers[c]));
    }
  }

  lemma {:induction false} TimerApart(evs: seq<Event>, timers: seq<Id>, c: nat)
    requires c < |timers| && TimersOk(evs, timers)
    ensures forall d: nat, j: Id | InList(evs, d, j) :: j != timers[c]
  {
    assert IsTimer(evs, timers[c]);
  }

  lemma {:induction false} WithoutCurrent(evs: seq<Event>, lists: seq<seq<Id>>, timers: seq<Id>, c: nat)
    requires |timers| == |lists| && c < |lists| && TimersOk(evs, timers)
      && AllServed(evs, lists, timers, Some(timers[c]))
    requires lists[c] != [] ==> InHeap(evs, timers[c]) && DeadlineOf(evs, timers[c]) <= DeadlineOf(evs, lists[c][0])
    ensures AllServed(evs, lists, timers, None)
  {
    forall d | 0 <= d < |lists|
      ensures Served(evs, lists[d], timers[d], None)
    {
      assert Served(evs, lists[d], timers[d], Some(timers[c]));
    }
  }

  lemma {:induction false} NoneActive(evs: seq<Event>)
    requires CountActive(evs) == 0
    ensures forall i: Id | i < |evs| :: !evs[i].active
  {
    if evs != [] {
      NoneActive(evs[1..]);
      forall i: Id | i < |evs|
        ensures !evs[i].active
      {
        assert i > 0 ==> evs[i] == evs[1..][i - 1];
      }
    }
  }

  /** No event is due before the first deadline of the heap. */
  lemma {:induction false} ListsWait(evs: seq<Event>, heap: set<Id>, lists: seq<seq<Id>>, timers: seq<Id>, first: int)
    requires |timers| == |lists| && HeapOk(evs, heap) && ListsOk(evs, lists) && AllServed(evs, lists, timers, None)
    requires forall i: Id | i < |evs| :: !evs[i].active
    requires forall j | j in heap :: first <= DeadlineOf(evs, j)
    ensures forall i: Id | i < |evs| && evs[i].timed :: first <= evs[i].deadline && heap != {}
  {
    forall i: Id | i < |evs| && evs[i].timed
      ensures first <= evs[i].deadline && heap != {}
    {
      if evs[i].common.None? {
        assert InHeap(evs, i) && i in heap;
      } else {
        var c := evs[i].common.value;
        assert ListOk(evs, lists[c], c) && InList(evs, c, i) && i in lists[c];
        assert Served(evs, lists[c], timers[c], None);
        assert timers[c] in heap;
        var k :| 0 <= k < |lists[c]| && lists[c][k] == i;
        assert DeadlineOf(evs, lists[c][0]) <= DeadlineOf(evs, lists[c][k]);
      }
    }
  }

  lemma {:induction false} TimedIs(e: Event, at: int, common: Maybe<nat>)
    ensures forall a, c ::
      && Timed(e, a, c).internal == e.internal && Timed(e, a, c).inserted == e.inserted && Timed(e, a, c).pri == e.pri
      && Timed(e, a, c).stamp == e.stamp && (Timed(e, a, c).active ==> e.active)
    ensures Timed(e, at, common).timed && Timed(e, at, common).common == common && Timed(e, at, common).deadline == at
  {
  }

  /** An event heads no queue but that of its own common timeout. */
  lemma {:induction false} HeadOnly(evs: seq<Event>, lists: seq<seq<Id>>, i: Id)
    requires ListsOk(evs, lists) && i < |evs|
    ensures forall d | 0 <= d < |lists| && evs[i].common != Some(d) && lists[d] != [] :: lists[d][0] != i
  {
    forall d | 0 <= d < |lists| && evs[i].common != Some(d) && lists[d] != []
      ensures lists[d][0] != i
    {
      assert ListOk(evs, lists[d], d) && lists[d][0] in lists[d];
      assert InList(evs, d, lists[d][0]);
    }
  }

  lemma {:induction false} TimerIs(evs: seq<Event>, timers: seq<Id>, c: nat)
    requires TimersOk(evs, timers) && c < |timers|
    ensures timers[c] < |evs| && evs[timers[c]].internal
    ensures forall d | 0 <= d < |timers| && timers[d] == timers[c] :: d == c
  {
    assert IsTimer(evs, timers[c]);
  }

  /** The queue whose timer is set anew is served; so are the others. */
  lemma {:induction false} ScheduledServed(evs: seq<Event>, lists: seq<seq<Id>>, timers: seq<Id>, current: Maybe<Id>,
      c: nat, e: Event)
    requires |timers| == |lists| && c < |lists| && lists[c] != [] && TimersOk(evs, timers) && ListsOk(evs, lists)
    requires forall d | 0 <= d < |lists| && d != c :: Served(evs, lists[d], timers[d], current)
    requires timers[c] < |evs| && e.timed && e.common.None? && e.deadline == DeadlineOf(evs, lists[c][0])
    ensures AllServed(evs[timers[c] := e], lists, timers, current)
  {
    var r := evs[timers[c] := e];
    assert IsTimer(evs, timers[c]);
    forall d | 0 <= d < |lists|
      ensures Served(r, lists[d], timers[d], current)
    {
      assert ListOk(evs, lists[d], d);
      if lists[d] != [] {
        assert lists[d][0] in lists[d];
        assert InList(evs, d, lists[d][0]) && lists[d][0] != timers[c];
      }
    }
  }

  /** A user's event may change its flags. */
  lemma {:induction false} ChangedServed(evs: seq<Event>, lists: seq<seq<Id>>, timers: seq<Id>, current: Maybe<Id>,
      i: Id, e: Event)
    requires |timers| == |lists| && TimersOk(evs, timers) && AllServed(evs, lists, timers, current)
    requires i < |evs| && !evs[i].internal && e.deadline == evs[i].deadline
    ensures AllServed(evs[i := e], lists, timers, current)
  {
    forall c | 0 <= c < |lists|
      ensures Served(evs[i := e], lists[c], timers[c], current)
    {
      assert Served(evs, lists[c], timers[c], current) && IsTimer(evs, timers[c]);
    }
  }

  /** A queue with a new event at place `k`. */
  function Spliced(lists: seq<seq<Id>>, common: Maybe<nat>, k: nat, i: Id): seq<seq<Id>>
  {
    if common.Some? && common.value < |lists| && k <= |lists[common.value]| then
      lists[common.value := lists[common.value][..k] + [i] + lists[common.value][k..]]
    else lists
  }

  /** After a user's event has been given a new timeout, every queue is served that the event does not head. */
  lemma {:induction false} SetServed(evs: seq<Event>, lists: seq<seq<Id>>, timers: seq<Id>, current: Maybe<Id>, i: Id,
      e: Event, k: nat)
    requires |timers| == |lists| && ListsOk(evs, lists) && TimersOk(evs, timers)
      && AllServed(evs, lists, timers, current)
    requires i < |evs| && !evs[i].internal && e.timed
    ensures var less := if evs[i].timed then LessOne(lists, evs[i].common, i) else lists;
            var ls := Spliced(less, e.common, k, i);
            |ls| == |lists| && forall c | 0 <= c < |ls| && (ls[c] != [] ==> ls[c][0] != i) :: Served(evs[i := e], ls[c], timers[c], current)
  {
    var less := if evs[i].timed then LessOne(lists, evs[i].common, i) else lists;
    var ls := Spliced(less, e.common, k, i);
    forall c | 0 <= c < |ls| && (ls[c] != [] ==> ls[c][0] != i)
      ensures Served(evs[i := e], ls[c], timers[c], current)
    {
      assert Served(evs, lists[c], timers[c], current) && IsTimer(evs, timers[c]) && ListOk(evs, lists[c], c);
      HeadMoves(evs, lists[c], c, i);
      if ls[c] != [] && e.common == Some(c) && k <= |less[c]| && less[c] != [] {
        assert ls[c][0] == if k == 0 then i else less[c][0];
      }
    }
  }

  lemma {:induction false} Head(l: seq<Id>, k: nat, i: Id)
    requires k <= |l|
    ensures var n := l[..k] + [i] + l[k..]; n != [] && n[0] == if k == 0 then i else l[0]
  {
  }

  /** The events are the same ones. */
  predicate SameTables(before: seq<Event>, after: seq<Event>)
  {
    && |after| == |before|
    && forall j: Id | j < |after| :: after[j].pri == before[j].pri && after[j].internal == before[j].internal
  }

  /** No event has become active; priorities and the order of activation are the same. */
  predicate NoneStarts(before: seq<Event>, after: seq<Event>)
  {
    && |after| == |before|
    && forall j: Id | j < |after| ::
         (after[j].active ==> before[j].active) && after[j].pri == before[j].pri && after[j].stamp == before[j].stamp
         && after[j].internal == before[j].internal
  }

  /** An event that has been activated. */
  function Activated(e: Event, byTimeout: bool, clock: nat): (r: Event)
    ensures r.active && (byTimeout ==> r.byTimeout) && (e.active && e.byTimeout ==> r.byTimeout)
  {
    if e.active then e.(byTimeout := e.byTimeout || byTimeout) else e.(active := true, byTimeout := byTimeout, stamp := clock)
  }

  /** An event that has been given a timeout. */
  function Timed(e: Event, at: int, common: Maybe<nat>): Event
  {
    e.(timed := true, deadline := at, common := common, active := e.active && !e.byTimeout)
  }

  /** No event but `i` and the timer of its common timeout has changed. */
  predicate OthersStay(before: seq<Event>, after: seq<Event>, i: Id, common: Maybe<nat>, timers: seq<Id>)
  {
    && |after| == |before|
    && forall j: Id | j < |after| && j != i && !(common.Some? && common.value < |timers| && j == timers[common.value]) ::
         after[j] == before[j]
  }

  /** An event that has been added, with an interval or (`absolute`) a deadline. */
  function Added(e: Event, tv: Maybe<(int, Maybe<nat>)>, absolute: bool, now: int): Event
  {
    var listed := if e.io && !e.active then e.(inserted := true) else e;
    if tv.None? then listed
    else
      var kept := if e.persist && !absolute then listed.(interval := Some(tv.value)) else listed;
      Timed(kept, if absolute then tv.value.0 else now + tv.value.0, tv.value.1)
  }

  lemma {:induction false} FlagsStay(evs: seq<Event>, queue: seq<Id>, actives: seq<seq<Id>>, heap: set<Id>,
      lists: seq<seq<Id>>,
      timers: seq<Id>, clock: nat, i: Id, e: Event)
    requires QueueOk(evs, queue) && ActivesOk(evs, actives, clock) && HeapOk(evs, heap) && ListsOk(evs, lists)
      && TimersOk(evs, timers)
    requires i < |evs| && e == evs[i].(byTimeout := e.byTimeout, interval := e.interval)
    ensures QueueOk(evs[i := e], queue) && ActivesOk(evs[i := e], actives, clock) && HeapOk(evs[i := e], heap)
    ensures ListsOk(evs[i := e], lists) && TimersOk(evs[i := e], timers)
    ensures Count(evs[i := e]) == Count(evs) && CountActive(evs[i := e]) == CountActive(evs)
  {
    QueueStays(evs, queue, i, e);
    ActivesStay(evs, actives, clock, i, e);
    HeapStays(evs, heap, i, e);
    ListsStay(evs, lists, i, e);
    TimersStay(evs, timers, i, e);
    CountSet(evs, i, e);
  }

  /** Taking a user's event out leaves every queue served. */
  lemma {:induction false} LostOneServed(evs: seq<Event>, lists: seq<seq<Id>>, timers: seq<Id>, current: Maybe<Id>,
      i: Id, e: Event)
    requires |timers| == |lists| && ListsOk(evs, lists) && TimersOk(evs, timers)
      && AllServed(evs, lists, timers, current)
    requires i < |evs| && !evs[i].internal && e.deadline == evs[i].deadline
    ensures AllServed(evs[i := e], if evs[i].timed then LessOne(lists, evs[i].common, i) else lists, timers, current)
  {
    var ls := if evs[i].timed then LessOne(lists, evs[i].common, i) else lists;
    forall c | 0 <= c < |ls|
      ensures Served(evs[i := e], ls[c], timers[c], current)
    {
      assert Served(evs, lists[c], timers[c], current) && IsTimer(evs, timers[c]) && ListOk(evs, lists[c], c);
      HeadMoves(evs, lists[c], c, i);
    }
  }

  /** Without one of its events a queue's first deadline is no earlier. */
  lemma {:induction false} HeadMoves(evs: seq<Event>, l: seq<Id>, c: nat, i: Id)
    requires ListOk(evs, l, c)
    ensures var r := Without(l, i); r != [] ==> l != [] && DeadlineOf(evs, l[0]) <= DeadlineOf(evs, r[0])
  {
    if l != [] && i in l {
      var k := PlaceOf(l, i);
      var r := Without(l, i);
      if r != [] {
        assert r[0] == if k == 0 then l[1] else l[0];
      }
    }
  }

  lemma {:induction false} ActivatedServed(evs: seq<Event>, lists: seq<seq<Id>>, timers: seq<Id>, current: Maybe<Id>,
      i: Id, e: Event)
    requires |timers| == |lists| && i < |evs| && e.active && e.timed == evs[i].timed && e.common == evs[i].common
      && e.deadline == evs[i].deadline
    ensures AllServed(evs, lists, timers, current) ==> AllServed(evs[i := e], lists, timers, current)
  {
    forall c | 0 <= c < |lists| && Served(evs, lists[c], timers[c], current)
      ensures Served(evs[i := e], lists[c], timers[c], current)
    {
    }
  }

  function NewEvent(pri: nat, internal: bool, io: bool, persist: bool): Event
  {
    Event(pri, internal, io, persist, None, false, false, false, 0, None, false, 0)
  }

  /** A new event, which is in no queue; an internal one is the timer of a new common timeout. */
  lemma {:induction false} OneMoreEvent(evs: seq<Event>, queue: seq<Id>, actives: seq<seq<Id>>, clock: nat,
      heap: set<Id>,
      lists: seq<seq<Id>>, timers: seq<Id>, current: Maybe<Id>, e: Event)
    requires QueueOk(evs, queue) && ActivesOk(evs, actives, clock) && HeapOk(evs, heap) && ListsOk(evs, lists)
    requires |timers| == |lists| && TimersOk(evs, timers) && AllServed(evs, lists, timers, current)
    requires !e.inserted && !e.active && !e.timed && (e.internal ==> e.pri == 0 && !e.io)
    ensures var r := evs + [e];
            var ls, ts := if e.internal then lists + [[]] else lists, if e.internal then timers + [|evs|] else timers;
            && QueueOk(r, queue) && ActivesOk(r, actives, clock) && HeapOk(r, heap) && ListsOk(r, ls)
            && TimersOk(r, ts) && AllServed(r, ls, ts, current) && Count(r) == Count(evs) && CountActive(r) == CountActive(evs)
  {
    var r := evs + [e];
    var ls, ts := if e.internal then lists + [[]] else lists, if e.internal then timers + [|evs|] else timers;
    hide ActiveOk, ListOk, Served, IsTimer, Count, CountActive;
    assert forall i: Id :: IsInserted(r, i) == IsInserted(evs, i) && InHeap(r, i) == InHeap(evs, i);
    forall p | 0 <= p < |actives|
      ensures ActiveOk(r, actives[p], p)
    {
      MoreActive(evs, actives[p], p, e);
    }
    forall c | 0 <= c < |ls|
      ensures ListOk(r, ls[c], c) && Served(r, ls[c], ts[c], current)
    {
      if c < |lists| {
        MoreList(evs, lists[c], c, timers[c], current, e);
      } else {
        NewList(evs, lists, e, ts[c], current);
      }
    }
    MoreTimers(evs, timers, e);
    CountMore(evs, e);
  }

  lemma {:induction false} MoreActive(evs: seq<Event>, q: seq<Id>, p: nat, e: Event)
    requires ActiveOk(evs, q, p) && !e.active
    ensures ActiveOk(evs + [e], q, p)
  {
    var r := evs + [e];
    assert forall i: Id :: IsActive(r, p, i) == IsActive(evs, p, i);
    forall k | 0 <= k < |q|
      ensures StampOf(r, q[k]) == StampOf(evs, q[k])
    {
      assert q[k] in q;
      assert IsActive(evs, p, q[k]);
    }
  }

  lemma {:induction false} MoreList(evs: seq<Event>, l: seq<Id>, c: nat, t: Id, current: Maybe<Id>, e: Event)
    requires ListOk(evs, l, c) && Served(evs, l, t, current) && IsTimer(evs, t) && !e.timed
    ensures ListOk(evs + [e], l, c) && Served(evs + [e], l, t, current)
  {
    var r := evs + [e];
    assert forall i: Id :: InList(r, c, i) == InList(evs, c, i);
    forall k | 0 <= k < |l|
      ensures DeadlineOf(r, l[k]) == DeadlineOf(evs, l[k])
    {
      assert l[k] in l;
      assert InList(evs, c, l[k]);
    }
  }

  lemma {:induction false} NewList(evs: seq<Event>, lists: seq<seq<Id>>, e: Event, t: Id, current: Maybe<Id>)
    requires ListsOk(evs, lists) && !e.timed
    ensures ListOk(evs + [e], [], |lists|) && Served(evs + [e], [], t, current)
  {
    assert forall i: Id :: !InList(evs + [e], |lists|, i);
  }

  lemma {:induction false} MoreTimers(evs: seq<Event>, timers: seq<Id>, e: Event)
    requires TimersOk(evs, timers) && !e.timed && (e.internal ==> e.pri == 0 && !e.io)
    ensures TimersOk(evs + [e], if e.internal then timers + [|evs|] else timers)
  {
    var ts := if e.internal then timers + [|evs|] else timers;
    assert forall c | 0 <= c < |timers| :: IsTimer(evs, timers[c]);
    assert forall c | 0 <= c < |timers| :: ts[c] == timers[c];
    assert forall i: Id | i in timers :: i in ts;
  }

  lemma {:induction false} CountMore(evs: seq<Event>, e: Event)
    requires !e.inserted && !e.active && !e.timed
    ensures Count(evs + [e]) == Count(evs) && CountActive(evs + [e]) == CountActive(evs)
  {
    if evs == [] {
      assert [e][1..] == [] && [] + [e] == [e];
    } else {
      assert (evs + [e])[1..] == evs[1..] + [e];
      CountMore(evs[1..], e);
    }
  }

  /** The queue of `common` without `i`. */
  function LessOne(lists: seq<seq<Id>>, common: Maybe<nat>, i: Id): seq<seq<Id>>
  {
    if common.Some? && common.value < |lists| then lists[common.value := Without(lists[common.value], i)] else lists
  }

  lemma {:induction false} TimersStay(evs: seq<Event>, timers: seq<Id>, i: Id, e: Event)
    requires TimersOk(evs, timers) && i < |evs| && e.internal == evs[i].internal && e.pri == evs[i].pri
      && e.io == evs[i].io
    requires e.internal && e.timed ==> e.common.None? || (evs[i].timed && e.common == evs[i].common)
    ensures TimersOk(evs[i := e], timers)
  {
    assert forall c | 0 <= c < |timers| :: IsTimer(evs, timers[c]);
  }

  lemma {:induction false} NotInHeap(evs: seq<Event>, heap: set<Id>, i: Id)
    requires HeapOk(evs, heap) && i < |evs| && evs[i].common.Some?
    ensures heap - {i} == heap
  {
    assert !InHeap(evs, i);
  }

  // ---------- a timeout from event_add to its end ----------

  /** A timeout runs out when its time has come, and not before. */
  method RunsOut(b: Base, i: Id, delay: int, now: int, later: int)
    requires b.Valid() && i < |b.evs| && !b.evs[i].internal
    modifies b
    ensures b.Valid() && i < |b.evs|
    ensures if now + delay <= later
            then b.evs[i].active && b.evs[i].byTimeout && !b.evs[i].timed && !b.evs[i].inserted
            else b.evs[i].timed && b.evs[i].deadline == now + delay && (b.evs[i].active ==> old(b.evs[i].active))
  {
    hide Base.Queues, AllServed, ByDeadline;
    b.Add(i, Some((delay, None)), false, now);
    b.TimeoutProcess(later);
  }

  /** The same in common timeout `c`: when the time has come its timer is active. */
  method RunsOutListed(b: Base, i: Id, delay: int, c: nat, now: int, later: int)
    requires b.Valid() && i < |b.evs| && !b.evs[i].internal && c < |b.lists| && b.current == None
    modifies b
    ensures b.Valid() && i < |b.evs| && c < |b.lists|
    ensures i in b.lists[c] && b.evs[i].timed && b.evs[i].deadline == now + delay
    ensures b.evs[i].active ==> old(b.evs[i].active)
    ensures now + delay <= later ==> b.timers[c] < |b.evs| && b.evs[b.timers[c]].active
  {
    hide ByDeadline;
    b.Add(i, Some((delay, Some(c))), false, now);
    b.TimeoutProcess(later);
    assert InList(b.evs, c, i) && ListOk(b.evs, b.lists[c], c);
    assert Served(b.evs, b.lists[c], b.timers[c], None);
  }
}
