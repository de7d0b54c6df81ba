/** The queues of an event_base (event.c) as values, and what a change of one event does to them. */
module EventState {
  import opened Options

  /** An event's place in the table of all events. */
  type Id = nat

  /** struct event: its flags, its timeout, and when it was activated last. */
  datatype Event = Event(
    pri: nat, internal: bool, io: bool, persist: bool,
    interval: Maybe<(int, Maybe<nat>)>, // ev_io_timeout of a persistent event, with its common timeout
    inserted: bool, active: bool, timed: bool,
    deadline: int,            // ev_timeout in microseconds
    common: Maybe<nat>,       // the common timeout that ev_timeout is marked with
    byTimeout: bool,          // ev_res has EV_TIMEOUT
    stamp: nat)

  ghost predicate Distinct(s: seq<Id>)
  {
    forall i, j | 0 <= i < j < |s| :: s[i] != s[j]
  }

  predicate IsInserted(evs: seq<Event>, i: Id) { i < |evs| && evs[i].inserted }

  predicate IsActive(evs: seq<Event>, p: nat, i: Id) { i < |evs| && evs[i].active && evs[i].pri == p }

  predicate InHeap(evs: seq<Event>, i: Id) { i < |evs| && evs[i].timed && evs[i].common.None? }

  predicate InList(evs: seq<Event>, c: nat, i: Id) { i < |evs| && evs[i].timed && evs[i].common == Some(c) }

  function StampOf(evs: seq<Event>, i: Id): nat { if i < |evs| then evs[i].stamp else 0 }

  function DeadlineOf(evs: seq<Event>, i: Id): int { if i < |evs| then evs[i].deadline else 0 }

  /** The list of inserted events. */
  ghost predicate QueueOk(evs: seq<Event>, q: seq<Id>)
  {
    Distinct(q) && forall i: Id :: i in q <==> IsInserted(evs, i)
  }

  /** The queue of active events of one priority, in the order of activation. */
  ghost predicate ActiveOk(evs: seq<Event>, q: seq<Id>, p: nat)
  {
    && Distinct(q) && (forall i: Id :: i in q <==> IsActive(evs, p, i))
    && forall i, j | 0 <= i < j < |q| :: StampOf(evs, q[i]) < StampOf(evs, q[j])
  }

  ghost predicate ActivesOk(evs: seq<Event>, actives: seq<seq<Id>>, clock: nat)
  {
    && (forall p | 0 <= p < |actives| :: ActiveOk(evs, actives[p], p))
    && (forall i: Id | i < |evs| && evs[i].active :: evs[i].pri < |actives| && evs[i].stamp < clock)
  }

  ghost predicate HeapOk(evs: seq<Event>, heap: set<Id>)
  {
    forall i: Id :: i in heap <==> InHeap(evs, i)
  }

  /** One common timeout queue, sorted by deadline. */
  ghost predicate ListOk(evs: seq<Event>, l: seq<Id>, c: nat)
  {
    && Distinct(l) && (forall i: Id :: i in l <==> InList(evs, c, i))
    && forall i, j | 0 <= i < j < |l| :: DeadlineOf(evs, l[i]) <= DeadlineOf(evs, l[j])
  }

  ghost predicate ListsOk(evs: seq<Event>, lists: seq<seq<Id>>)
  {
    && (forall c | 0 <= c < |lists| :: ListOk(evs, lists[c], c))
    && (forall i: Id | i < |evs| && evs[i].timed && evs[i].common.Some? :: evs[i].common.value < |lists|)
  }

  /** Queue memberships of an event that the user knows of. */
  function Memberships(e: Event): nat
  {
    if e.internal then 0 else (if e.inserted then 1 else 0) + (if e.active then 1 else 0) + (if e.timed then 1 else 0)
  }

  /** event_count as it should be. */
  function Count(evs: seq<Event>): nat
  {
    if evs == [] then 0 else Memberships(evs[0]) + Count(evs[1..])
  }

  /** event_count_active as it should be. */
  function CountActive(evs: seq<Event>): nat
  {
    if evs == [] then 0 else (if evs[0].active then 1 else 0) + CountActive(evs[1..])
  }

  /** event_haveevents: the count is 0 exactly if no event of the user's is added, active or has a timeout. */
  lemma {:induction false} NoEvents(evs: seq<Event>)
    ensures Count(evs) == 0 <==>
      forall i: Id | i < |evs| && !evs[i].internal :: !evs[i].inserted && !evs[i].active && !evs[i].timed
    ensures CountActive(evs) == 0 <==> forall i: Id | i < |evs| :: !evs[i].active
  {
    if evs != [] {
      NoEvents(evs[1..]);
      assert forall i: Id | 0 < i < |evs| :: evs[i] == evs[1..][i - 1];
      assert forall i: Id | i < |evs[1..]| :: evs[1..][i] == evs[i + 1];
    }
  }

  lemma {:induction false} CountSet(evs: seq<Event>, i: Id, e: Event)
    requires i < |evs|
    ensures Count(evs[i := e]) == Count(evs) - Memberships(evs[i]) + Memberships(e)
    ensures CountActive(evs[i := e]) == CountActive(evs) - (if evs[i].active then 1 else 0) + (if e.active then 1 else 0)
  {
    var r := evs[i := e];
    if i == 0 {
      assert r[1..] == evs[1..];
    } else {
      assert r[1..] == evs[1..][i - 1 := e];
      CountSet(evs[1..], i - 1, e);
    }
  }

  // ---------- a change that leaves a queue alone ----------

  lemma {:induction false} QueueStays(evs: seq<Event>, q: seq<Id>, i: Id, e: Event)
    requires QueueOk(evs, q) && i < |evs| && e.inserted == evs[i].inserted
    ensures QueueOk(evs[i := e], q)
  {
    assert forall k: Id :: IsInserted(evs[i := e], k) == IsInserted(evs, k);
  }

  lemma {:induction false} ActivesStay(evs: seq<Event>, actives: seq<seq<Id>>, clock: nat, i: Id, e: Event)
    requires ActivesOk(evs, actives, clock) && i < |evs| && e.active == evs[i].active && e.pri == evs[i].pri
      && e.stamp == evs[i].stamp
    ensures ActivesOk(evs[i := e], actives, clock)
  {
    var r := evs[i := e];
    forall p | 0 <= p < |actives|
      ensures ActiveOk(r, actives[p], p)
    {
      assert ActiveOk(evs, actives[p], p);
      assert forall k: Id :: IsActive(r, p, k) == IsActive(evs, p, k);
      assert forall k :: StampOf(r, k) == StampOf(evs, k);
    }
  }

  lemma {:induction false} HeapStays(evs: seq<Event>, heap: set<Id>, i: Id, e: Event)
    requires HeapOk(evs, heap) && i < |evs| && e.timed == evs[i].timed && (e.timed ==> e.common == evs[i].common)
    ensures HeapOk(evs[i := e], heap)
  {
    assert forall k: Id :: InHeap(evs[i := e], k) == InHeap(evs, k);
  }

  lemma {:induction false} ListsStay(evs: seq<Event>, lists: seq<seq<Id>>, i: Id, e: Event)
    requires ListsOk(evs, lists) && i < |evs| && e.timed == evs[i].timed
    requires e.timed ==> e.common == evs[i].common && (e.common.Some? ==> e.deadline == evs[i].deadline)
    ensures ListsOk(evs[i := e], lists)
  {
    var r := evs[i := e];
    forall c | 0 <= c < |lists|
      ensures ListOk(r, lists[c], c)
    {
      ListStays(evs, lists[c], c, i, e);
    }
  }

  lemma {:induction false} ListStays(evs: seq<Event>, l: seq<Id>, c: nat, i: Id, e: Event)
    requires ListOk(evs, l, c) && i < |evs|
    requires InList(evs, c, i) <==> e.timed && e.common == Some(c)
    requires InList(evs, c, i) ==> e.deadline == evs[i].deadline
    ensures ListOk(evs[i := e], l, c)
  {
    var r := evs[i := e];
    assert forall k: Id :: InList(r, c, k) == InList(evs, c, k);
    forall k | 0 <= k < |l|
      ensures DeadlineOf(r, l[k]) == DeadlineOf(evs, l[k])
    {
      assert l[k] in l;
    }
  }

  // ---------- a list with one id more or less ----------

  /** TAILQ_REMOVE */
  function Without(s: seq<Id>, i: Id): (r: seq<Id>)
  {
    if s == [] then [] else if s[0] == i then s[1..] else [s[0]] + Without(s[1..], i)
  }

  lemma {:induction false} WithoutIt(s: seq<Id>, i: Id)
    requires Distinct(s) && i in s
    ensures exists k | 0 <= k < |s| :: s[k] == i && Without(s, i) == s[..k] + s[k + 1..]
    ensures Distinct(Without(s, i)) && |Without(s, i)| == |s| - 1 && forall k: Id :: k in Without(s, i) <==> k in s && k != i
  {
    var k := PlaceOf(s, i);
    var r := s[..k] + s[k + 1..];
    assert forall x: Id | x in s && x != i :: x in r;
    assert i !in r;
  }

  lemma {:induction false} PlaceOf(s: seq<Id>, i: Id) returns (k: nat)
    requires i in s
    ensures k < |s| && s[k] == i && Without(s, i) == s[..k] + s[k + 1..]
  {
    if s[0] == i {
      k := 0;
    } else {
      k := PlaceOf(s[1..], i);
      k := k + 1;
      assert s[1..][..k - 1] == s[1..k] && s[1..][k..] == s[k + 1..];
      assert [s[0]] + s[1..k] == s[..k];
    }
  }

  /** `x` comes before `y`. */
  ghost predicate Before(s: seq<Id>, x: Id, y: Id)
  {
    exists a, b :: 0 <= a < b < |s| && s[a] == x && s[b] == y
  }

  /** A sublist keeps the order of its elements. */
  lemma {:induction false} CutOrder(s: seq<Id>, k: nat)
    requires k < |s|
    ensures var r := s[..k] + s[k + 1..]; forall i, j | 0 <= i < j < |r| :: Before(s, r[i], r[j])
  {
    var r := s[..k] + s[k + 1..];
    forall i, j | 0 <= i < j < |r|
      ensures Before(s, r[i], r[j])
    {
      var a, b := if i < k then i else i + 1, if j < k then j else j + 1;
      assert r[i] == s[a] && r[j] == s[b];
    }
  }

  /** A list with a new element at place `k`. */
  lemma {:induction false} Spliced(l: seq<Id>, k: nat, i: Id)
    requires Distinct(l) && i !in l && k <= |l|
    ensures var n := l[..k] + [i] + l[k..];
            && Distinct(n) && (forall x: Id :: x in n <==> x in l || x == i) && |n| == |l| + 1
            && (forall x | 0 <= x < |n| :: n[x] == if x < k then l[x] else if x == k then i else l[x - 1])
  {
    var n := l[..k] + [i] + l[k..];
    forall x | 0 <= x < |l|
      ensures l[x] in n
    {
      assert l[x] == n[if x < k then x else x + 1];
    }
    assert n[k] == i;
  }

  lemma {:induction false} QueueRemoved(evs: seq<Event>, q: seq<Id>, i: Id)
    requires QueueOk(evs, q) && i < |evs| && evs[i].inserted
    ensures QueueOk(evs[i := evs[i].(inserted := false)], Without(q, i))
  {
    assert IsInserted(evs, i);
    WithoutIt(q, i);
    var r := evs[i := evs[i].(inserted := false)];
    assert forall k: Id :: IsInserted(r, k) <==> IsInserted(evs, k) && k != i;
  }

  lemma {:induction false} QueueInserted(evs: seq<Event>, q: seq<Id>, i: Id)
    requires QueueOk(evs, q) && i < |evs| && !evs[i].inserted
    ensures QueueOk(evs[i := evs[i].(inserted := true)], q + [i])
  {
    assert !IsInserted(evs, i);
    var r := evs[i := evs[i].(inserted := true)];
    assert forall k: Id :: IsInserted(r, k) <==> IsInserted(evs, k) || k == i;
  }

  lemma {:induction false} ActiveRemoved(evs: seq<Event>, actives: seq<seq<Id>>, clock: nat, i: Id)
    requires ActivesOk(evs, actives, clock) && i < |evs| && evs[i].active
    ensures evs[i].pri < |actives|
    ensures ActivesOk(evs[i := evs[i].(active := false)], actives[evs[i].pri := Without(actives[evs[i].pri], i)], clock)
  {
    var p0 := evs[i].pri;
    var r, a := evs[i := evs[i].(active := false)], actives[p0 := Without(actives[p0], i)];
    assert ActiveOk(evs, actives[p0], p0) && IsActive(evs, p0, i);
    WithoutIt(actives[p0], i);
    assert forall k :: StampOf(r, k) == StampOf(evs, k);
    forall p | 0 <= p < |a|
      ensures ActiveOk(r, a[p], p)
    {
      assert ActiveOk(evs, actives[p], p);
      assert forall k: Id :: IsActive(r, p, k) <==> IsActive(evs, p, k) && k != i;
      if p == p0 {
        var k := PlaceOf(actives[p], i);
        CutOrder(actives[p], k);
      }
    }
  }

  lemma {:induction false} ActiveInserted(evs: seq<Event>, actives: seq<seq<Id>>, clock: nat, i: Id, e: Event)
    requires ActivesOk(evs, actives, clock) && i < |evs| && !evs[i].active && evs[i].pri < |actives|
    requires e.active && e.pri == evs[i].pri && e.stamp == clock
    ensures ActivesOk(evs[i := e], actives[e.pri := actives[e.pri] + [i]], clock + 1)
  {
    var r, a := evs[i := e], actives[e.pri := actives[e.pri] + [i]];
    forall p | 0 <= p < |a|
      ensures ActiveOk(r, a[p], p)
    {
      assert ActiveOk(evs, actives[p], p);
      assert !IsActive(evs, p, i);
      assert forall k: Id :: IsActive(r, p, k) <==> IsActive(evs, p, k) || (k == i && p == e.pri);
      forall k | 0 <= k < |actives[p]|
        ensures StampOf(r, actives[p][k]) == StampOf(evs, actives[p][k]) < clock
      {
        assert actives[p][k] in actives[p];
        assert IsActive(evs, p, actives[p][k]);
      }
    }
  }

  lemma {:induction false} HeapRemoved(evs: seq<Event>, heap: set<Id>, i: Id)
    requires HeapOk(evs, heap) && i < |evs| && evs[i].timed
    ensures HeapOk(evs[i := evs[i].(timed := false)], heap - {i})
  {
    var r := evs[i := evs[i].(timed := false)];
    assert forall k: Id :: InHeap(r, k) <==> InHeap(evs, k) && k != i;
  }

  lemma {:induction false} HeapInserted(evs: seq<Event>, heap: set<Id>, i: Id, e: Event)
    requires HeapOk(evs, heap) && i < |evs| && !evs[i].timed && e.timed
    ensures HeapOk(evs[i := e], if e.common.None? then heap + {i} else heap)
  {
    var r := evs[i := e];
    assert forall k: Id :: InHeap(r, k) <==> InHeap(evs, k) || (k == i && e.common.None?);
  }

  lemma {:induction false} ListsRemoved(evs: seq<Event>, lists: seq<seq<Id>>, i: Id)
    requires ListsOk(evs, lists) && i < |evs| && evs[i].timed
    ensures evs[i].common.Some? ==> evs[i].common.value < |lists|
    ensures ListsOk(evs[i := evs[i].(timed := false)],
              if evs[i].common.Some? then lists[evs[i].common.value := Without(lists[evs[i].common.value], i)] else lists)
  {
    hide ListOk;
    var r := evs[i := evs[i].(timed := false)];
    var ls := if evs[i].common.Some? then lists[evs[i].common.value := Without(lists[evs[i].common.value], i)] else lists;
    forall c | 0 <= c < |ls|
      ensures ListOk(r, ls[c], c)
    {
      assert ListOk(evs, lists[c], c);
      ListRemoved(evs, lists[c], c, i);
    }
  }

  /** One common timeout queue, event `i` having no timeout any more. */
  lemma {:induction false} ListRemoved(evs: seq<Event>, l: seq<Id>, c: nat, i: Id)
    requires ListOk(evs, l, c) && i < |evs| && evs[i].timed
    ensures ListOk(evs[i := evs[i].(timed := false)], if evs[i].common == Some(c) then Without(l, i) else l, c)
  {
    hide Without;
    var r := evs[i := evs[i].(timed := false)];
    var l' := if evs[i].common == Some(c) then Without(l, i) else l;
    assert i in l <==> InList(evs, c, i);
    if i in l {
      WithoutIt(l, i);
      StaysSorted(evs, l, i);
    }
    forall k: Id
      ensures k in l' <==> InList(r, c, k)
    {
      assert k in l <==> InList(evs, c, k);
    }
    forall a, b | 0 <= a < b < |l'|
      ensures DeadlineOf(r, l'[a]) <= DeadlineOf(r, l'[b])
    {
      assert DeadlineOf(evs, l'[a]) <= DeadlineOf(evs, l'[b]);
    }
  }

  lemma {:induction false} StaysSorted(evs: seq<Event>, l: seq<Id>, i: Id)
    requires Distinct(l) && i in l && forall a, b | 0 <= a < b < |l| :: DeadlineOf(evs, l[a]) <= DeadlineOf(evs, l[b])
    ensures var r := Without(l, i); forall a, b | 0 <= a < b < |r| :: DeadlineOf(evs, r[a]) <= DeadlineOf(evs, r[b])
  {
    hide Without, DeadlineOf;
    var k := PlaceOf(l, i);
    var r := Without(l, i);
    forall a, b | 0 <= a < b < |r|
      ensures DeadlineOf(evs, r[a]) <= DeadlineOf(evs, r[b])
    {
      assert r[a] == l[if a < k then a else a + 1] && r[b] == l[if b < k then b else b + 1];
    }
  }

  /** Place `k` is where deadline `t` belongs in a sorted list. */
  predicate Fits(evs: seq<Event>, l: seq<Id>, k: nat, t: int)
  {
    && k <= |l|
    && (forall x | 0 <= x < k :: DeadlineOf(evs, l[x]) <= t)
    && (forall x | k <= x < |l| :: t <= DeadlineOf(evs, l[x]))
  }

  /** `i` at place `k` of a common timeout queue, where its deadline belongs. */
  lemma {:induction false} ListsInserted(evs: seq<Event>, lists: seq<seq<Id>>, i: Id, e: Event, k: nat)
    requires ListsOk(evs, lists) && i < |evs| && !evs[i].timed && e.timed
    requires e.common.Some? ==> e.common.value < |lists| && Fits(evs, lists[e.common.value], k, e.deadline)
    ensures ListsOk(evs[i := e],
              if e.common.Some? then lists[e.common.value := lists[e.common.value][..k] + [i] + lists[e.common.value][k..]] else lists)
  {
    hide ListOk;
    var ls := if e.common.Some? then lists[e.common.value := lists[e.common.value][..k] + [i] + lists[e.common.value][k..]] else lists;
    forall c | 0 <= c < |ls|
      ensures ListOk(evs[i := e], ls[c], c)
    {
      if e.common == Some(c) {
        ListInserted(evs, lists[c], c, i, e, k);
      } else {
        ListStays(evs, lists[c], c, i, e);
      }
    }
  }

  lemma {:induction false} ListInserted(evs: seq<Event>, l: seq<Id>, c: nat, i: Id, e: Event, k: nat)
    requires ListOk(evs, l, c) && i < |evs| && !evs[i].timed && e.timed && e.common == Some(c)
      && Fits(evs, l, k, e.deadline)
    ensures ListOk(evs[i := e], l[..k] + [i] + l[k..], c)
  {
    var r := evs[i := e];
    assert !InList(evs, c, i);
    assert forall x: Id :: InList(r, c, x) <==> InList(evs, c, x) || x == i;
    Spliced(l, k, i);
    var n := l[..k] + [i] + l[k..];
    forall x | 0 <= x < |l|
      ensures DeadlineOf(r, l[x]) == DeadlineOf(evs, l[x])
    {
      assert l[x] in l;
    }
    forall x, y | 0 <= x < y < |n|
      ensures DeadlineOf(r, n[x]) <= DeadlineOf(r, n[y])
    {
    }
  }
}
