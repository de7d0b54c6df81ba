/**
 What an evdns_base knows about its requests and nameservers, as values
 (evdns.c): the rings of inflight requests, the waiting ring, and the ring of
 nameservers, each written from its head on.
*/
module RequestState {
  import opened Options

  type Id = nat

  /** struct request: its transaction id, its nameserver, how often it was sent, and what will happen to it next. */
  datatype Req = Req(transId: nat, ns: Maybe<Id>, txCount: nat, transmitMe: bool, timer: bool)

  /** struct nameserver: whether it is believed to be up, whether its socket is blocked, timeouts in a row. */
  datatype Server = Server(up: bool, choked: bool, timedOut: nat)

  const NO_ID := 0xffff

  // ---------- rings ----------

  ghost predicate Distinct(ring: seq<Id>)
  {
    forall i, j | 0 <= i < j < |ring| :: ring[i] != ring[j]
  }

  /** evdns_request_remove: the ring without its element `i`. */
  function Without(ring: seq<Id>, i: nat): (r: seq<Id>)
    requires i < |ring|
    ensures |r| == |ring| - 1
  {
    ring[..i] + ring[i + 1..]
  }

  /** The number of requests in all rings. */
  function Total(heads: seq<seq<Id>>): nat
  {
    if heads == [] then 0 else |heads[0]| + Total(heads[1..])
  }

  lemma {:induction false} TotalSet(heads: seq<seq<Id>>, b: nat, ring: seq<Id>)
    requires b < |heads|
    ensures Total(heads[b := ring]) == Total(heads) - |heads[b]| + |ring|
  {
    var changed := heads[b := ring];
    if b == 0 {
      assert changed[1..] == heads[1..];
    } else {
      assert changed[1..] == heads[1..][b - 1 := ring];
      TotalSet(heads[1..], b - 1, ring);
    }
  }

  lemma {:induction false} TotalEmpty(heads: seq<seq<Id>>)
    requires forall b | 0 <= b < |heads| :: heads[b] == []
    ensures Total(heads) == 0
  {
    if heads != [] {
      TotalEmpty(heads[1..]);
    }
  }

  // ---------- the lists ----------

  /** Ring `b` of `n`: requests with a nameserver whose ids belong there, no id twice. */
  ghost predicate RingOk(ring: seq<Id>, reqs: map<Id, Req>, b: nat, n: nat)
    requires n > 0
  {
    && (forall i | 0 <= i < |ring| :: ring[i] in reqs && InRing(reqs[ring[i]], b, n))
    && forall i, j | 0 <= i < j < |ring| :: reqs[ring[i]].transId != reqs[ring[j]].transId
  }

  predicate InRing(r: Req, b: nat, n: nat)
    requires n > 0
  {
    r.ns.Some? && r.transId < NO_ID && r.transId % n == b
  }

  ghost predicate RingsOk(heads: seq<seq<Id>>, reqs: map<Id, Req>)
  {
    heads != [] && forall b | 0 <= b < |heads| :: RingOk(heads[b], reqs, b, |heads|)
  }

  /** The waiting ring: requests without a nameserver, each once. */
  ghost predicate WaitingOk(waiting: seq<Id>, reqs: map<Id, Req>)
  {
    Distinct(waiting) && forall i | 0 <= i < |waiting| :: waiting[i] in reqs && reqs[waiting[i]].ns.None?
  }

  /**
   Where request `id` is kept: with a nameserver in the ring of its transaction id, without one in
   the waiting ring.
  */
  ghost predicate Placed(heads: seq<seq<Id>>, waiting: seq<Id>, reqs: map<Id, Req>, id: Id)
    requires heads != [] && id in reqs
  {
    if reqs[id].ns.Some? then id in heads[reqs[id].transId % |heads|] else id in waiting
  }

  /** Every request is in exactly one place, the one its fields say. */
  ghost predicate ListsOk(heads: seq<seq<Id>>, waiting: seq<Id>, reqs: map<Id, Req>)
  {
    RingsOk(heads, reqs) && WaitingOk(waiting, reqs) && forall id | id in reqs :: Placed(heads, waiting, reqs, id)
  }

  /** No inflight request has transaction id `t`. */
  predicate Unused(heads: seq<seq<Id>>, reqs: map<Id, Req>, t: nat)
  {
    forall b, i | 0 <= b < |heads| && 0 <= i < |heads[b]| && heads[b][i] in reqs :: reqs[heads[b][i]].transId != t
  }

  /** request_find_from_trans_id, declaratively: the inflight request with this id. */
  ghost predicate Found(reqs: map<Id, Req>, t: nat, r: Maybe<Id>)
  {
    if r.Some? then r.value in reqs && reqs[r.value].ns.Some? && reqs[r.value].transId == t
    else forall id | id in reqs :: reqs[id].ns.Some? ==> reqs[id].transId != t
  }

  /** Two inflight requests never share an id, so a lookup has one possible result. */
  lemma {:induction false} FoundOnce(heads: seq<seq<Id>>, waiting: seq<Id>, reqs: map<Id, Req>, t: nat, r: Maybe<Id>,
      q: Maybe<Id>)
    requires ListsOk(heads, waiting, reqs) && Found(reqs, t, r) && Found(reqs, t, q)
    ensures r == q
  {
    if r.Some? && q.Some? {
      SameId(heads, waiting, reqs, r.value, q.value);
    }
  }

  lemma {:induction false} SameId(heads: seq<seq<Id>>, waiting: seq<Id>, reqs: map<Id, Req>, x: Id, y: Id)
    requires ListsOk(heads, waiting, reqs) && x in reqs && y in reqs
    requires reqs[x].ns.Some? && reqs[y].ns.Some? && reqs[x].transId == reqs[y].transId
    ensures x == y
  {
    var b := reqs[x].transId % |heads|;
    assert Placed(heads, waiting, reqs, x) && Placed(heads, waiting, reqs, y);
    assert RingOk(heads[b], reqs, b, |heads|);
    var i :| 0 <= i < |heads[b]| && heads[b][i] == x;
    var j :| 0 <= j < |heads[b]| && heads[b][j] == y;
  }

  // ---------- free transaction ids ----------

  function RingIds(ring: seq<Id>, reqs: map<Id, Req>): set<nat>
  {
    if ring == [] then {} else (if ring[0] in reqs then {reqs[ring[0]].transId} else {}) + RingIds(ring[1..], reqs)
  }

  function UsedIds(heads: seq<seq<Id>>, reqs: map<Id, Req>): set<nat>
  {
    if heads == [] then {} else RingIds(heads[0], reqs) + UsedIds(heads[1..], reqs)
  }

  lemma {:induction false} RingIdsAre(ring: seq<Id>, reqs: map<Id, Req>)
    ensures |RingIds(ring, reqs)| <= |ring|
    ensures forall i | 0 <= i < |ring| && ring[i] in reqs :: reqs[ring[i]].transId in RingIds(ring, reqs)
  {
    if ring != [] {
      RingIdsAre(ring[1..], reqs);
      var first := if ring[0] in reqs then {reqs[ring[0]].transId} else {};
      UnionSize(first, RingIds(ring[1..], reqs));
      forall i | 0 <= i < |ring| && ring[i] in reqs
        ensures reqs[ring[i]].transId in RingIds(ring, reqs)
      {
        if i > 0 {
          assert ring[1..][i - 1] == ring[i];
        }
      }
    }
  }

  lemma {:induction false} UnionSize(a: set<nat>, b: set<nat>)
    ensures |a + b| <= |a| + |b|
  {
    assert a + b == a + (b - a);
    assert |a + (b - a)| == |a| + |b - a|;
    assert b == (b - a) + (b * a);
    assert |b| == |b - a| + |b * a|;
  }

  lemma {:induction false} UsedIdsAre(heads: seq<seq<Id>>, reqs: map<Id, Req>)
    ensures |UsedIds(heads, reqs)| <= Total(heads)
    ensures forall b, i | 0 <= b < |heads| && 0 <= i < |heads[b]| && heads[b][i] in reqs ::
              reqs[heads[b][i]].transId in UsedIds(heads, reqs)
  {
    if heads != [] {
      RingIdsAre(heads[0], reqs);
      UsedIdsAre(heads[1..], reqs);
      UnionSize(RingIds(heads[0], reqs), UsedIds(heads[1..], reqs));
      forall b, i | 0 <= b < |heads| && 0 <= i < |heads[b]| && heads[b][i] in reqs
        ensures reqs[heads[b][i]].transId in UsedIds(heads, reqs)
      {
        if b > 0 {
          assert heads[1..][b - 1] == heads[b];
        }
      }
    }
  }

  function Below(n: nat): (s: set<nat>)
    ensures |s| == n && forall t: nat :: t in s <==> t < n
  {
    if n == 0 then {} else Below(n - 1) + {n - 1}
  }

  /** With fewer than 65535 requests in flight, some id is free. */
  lemma {:induction false} FreeId(heads: seq<seq<Id>>, reqs: map<Id, Req>) returns (t: nat)
    requires Total(heads) < NO_ID
    ensures t < NO_ID && Unused(heads, reqs, t)
  {
    hide Below, UsedIds, Total;
    UsedIdsAre(heads, reqs);
    var free := Below(NO_ID) - UsedIds(heads, reqs);
    if free == {} {
      forall x | x in Below(NO_ID)
        ensures x in UsedIds(heads, reqs)
      {
        assert x !in free;
      }
      Subset(Below(NO_ID), UsedIds(heads, reqs));
    }
    t :| t in free;
  }

  lemma {:induction false} Subset(a: set<nat>, b: set<nat>)
    requires a <= b
    ensures |a| <= |b|
  {
    assert b == a + (b - a);
  }

  // ---------- what the operations do to the lists ----------

  /** The same requests in the same places: only fields that do not place a request differ. */
  ghost predicate SamePlaces(a: map<Id, Req>, b: map<Id, Req>)
  {
    a.Keys == b.Keys && forall id | id in a :: b[id].transId == a[id].transId && (b[id].ns.Some? <==> a[id].ns.Some?)
  }

  lemma {:induction false} ListsStay(heads: seq<seq<Id>>, waiting: seq<Id>, a: map<Id, Req>, b: map<Id, Req>)
    requires ListsOk(heads, waiting, a) && SamePlaces(a, b)
    ensures ListsOk(heads, waiting, b)
  {
    forall k | 0 <= k < |heads|
      ensures RingOk(heads[k], b, k, |heads|)
    {
      assert RingOk(heads[k], a, k, |heads|);
    }
    forall id | id in b
      ensures Placed(heads, waiting, b, id)
    {
      assert Placed(heads, waiting, a, id);
    }
  }

  /** A ring does not notice what happens to a request that is not in it. */
  lemma {:induction false} RingStays(ring: seq<Id>, a: map<Id, Req>, b: map<Id, Req>, k: nat, n: nat)
    requires n > 0 && RingOk(ring, a, k, n) && forall i | 0 <= i < |ring| :: ring[i] in b && b[ring[i]] == a[ring[i]]
    ensures RingOk(ring, b, k, n)
  {
  }

  lemma {:induction false} RingGrows(ring: seq<Id>, reqs: map<Id, Req>, b: nat, n: nat, id: Id)
    requires n > 0 && RingOk(ring, reqs, b, n) && id in reqs && InRing(reqs[id], b, n)
    requires forall i | 0 <= i < |ring| :: reqs[ring[i]].transId != reqs[id].transId
    ensures RingOk(ring + [id], reqs, b, n)
  {
  }

  /** A new request, with an id that nobody uses, goes into the ring of its id. */
  lemma {:induction false} InsertedInflight(heads: seq<seq<Id>>, waiting: seq<Id>, reqs: map<Id, Req>, id: Id, r: Req)
    requires ListsOk(heads, waiting, reqs) && id !in reqs
    requires r.ns.Some? && r.transId < NO_ID && Unused(heads, reqs, r.transId)
    ensures var b := r.transId % |heads|; ListsOk(heads[b := heads[b] + [id]], waiting, reqs[id := r])
  {
    var n := |heads|;
    var b := r.transId % n;
    var after, with := heads[b := heads[b] + [id]], reqs[id := r];
    forall k | 0 <= k < n
      ensures RingOk(after[k], with, k, n)
    {
      assert RingOk(heads[k], reqs, k, n);
      RingStays(heads[k], reqs, with, k, n);
      if k == b {
        forall i | 0 <= i < |heads[b]|
          ensures with[heads[b][i]].transId != with[id].transId
        {
          assert heads[b][i] in reqs;
        }
        RingGrows(heads[b], with, b, n, id);
      }
    }
    forall x | x in with
      ensures Placed(after, waiting, with, x)
    {
      if x != id {
        assert Placed(heads, waiting, reqs, x);
      } else {
        assert after[b][|heads[b]|] == id;
      }
    }
  }

  /** A request without a nameserver goes into the waiting ring, anywhere. */
  lemma {:induction false} InsertedWaiting(heads: seq<seq<Id>>, w: seq<Id>, v: seq<Id>, reqs: map<Id, Req>, id: Id,
      r: Req)
    requires ListsOk(heads, w + v, reqs) && id !in reqs && r.ns.None?
    ensures ListsOk(heads, w + [id] + v, reqs[id := r])
  {
    var waiting, longer, with := w + v, w + [id] + v, reqs[id := r];
    forall k | 0 <= k < |heads|
      ensures RingOk(heads[k], with, k, |heads|)
    {
      assert RingOk(heads[k], reqs, k, |heads|);
      RingStays(heads[k], reqs, with, k, |heads|);
    }
    forall i | 0 <= i < |longer| && i != |w|
      ensures longer[i] == waiting[if i < |w| then i else i - 1]
    {
    }
    forall x | x in with
      ensures Placed(heads, longer, with, x)
    {
      if x != id {
        assert Placed(heads, waiting, reqs, x);
        if x in waiting {
          var i :| 0 <= i < |waiting| && waiting[i] == x;
          assert longer[if i < |w| then i else i + 1] == x;
        }
      } else {
        assert longer[|w|] == id;
      }
    }
  }

  lemma {:induction false} InWithout(ring: seq<Id>, i: nat, x: Id)
    requires i < |ring| && x in ring && x != ring[i]
    ensures x in Without(ring, i)
  {
    var j :| 0 <= j < |ring| && ring[j] == x;
    if j < i {
      assert Without(ring, i)[j] == x;
    } else {
      assert Without(ring, i)[j - 1] == x;
    }
  }

  lemma {:induction false} RingShrinks(ring: seq<Id>, reqs: map<Id, Req>, b: nat, n: nat, i: nat)
    requires n > 0 && i < |ring| && RingOk(ring, reqs, b, n)
    ensures RingOk(Without(ring, i), reqs - {ring[i]}, b, n) && ring[i] !in Without(ring, i)
  {
    var r, fewer := Without(ring, i), reqs - {ring[i]};
    forall j | 0 <= j < |r|
      ensures r[j] in fewer && fewer[r[j]] == reqs[r[j]] && InRing(reqs[r[j]], b, n)
    {
      var k := if j < i then j else j + 1;
      assert r[j] == ring[k] && ring[k] != ring[i];
    }
    forall j, k | 0 <= j < k < |r|
      ensures fewer[r[j]].transId != fewer[r[k]].transId
    {
      assert r[j] == ring[if j < i then j else j + 1] && r[k] == ring[if k < i then k else k + 1];
    }
  }

  /** An inflight request leaves its ring and is freed. */
  lemma {:induction false} RemovedInflight(heads: seq<seq<Id>>, waiting: seq<Id>, reqs: map<Id, Req>, b: nat, i: nat)
    requires ListsOk(heads, waiting, reqs) && b < |heads| && i < |heads[b]|
    ensures ListsOk(heads[b := Without(heads[b], i)], waiting, reqs - {heads[b][i]})
  {
    hide Without;
    var id := heads[b][i];
    var after, fewer := heads[b := Without(heads[b], i)], reqs - {id};
    assert RingOk(heads[b], reqs, b, |heads|);
    RingShrinks(heads[b], reqs, b, |heads|, i);
    forall k | 0 <= k < |heads|
      ensures RingOk(after[k], fewer, k, |heads|)
    {
      if k != b {
        assert RingOk(heads[k], reqs, k, |heads|);
        forall j | 0 <= j < |heads[k]|
          ensures heads[k][j] in fewer && fewer[heads[k][j]] == reqs[heads[k][j]]
        {
          assert InRing(reqs[heads[k][j]], k, |heads|) && InRing(reqs[id], b, |heads|);
        }
        RingStays(heads[k], reqs, fewer, k, |heads|);
      }
    }
    forall x | x in fewer
      ensures Placed(after, waiting, fewer, x)
    {
      assert Placed(heads, waiting, reqs, x);
      if x in heads[b] {
        InWithout(heads[b], i, x);
      }
    }
  }

  /** A waiting request leaves the waiting ring and is freed. */
  lemma {:induction false} RemovedWaiting(heads: seq<seq<Id>>, waiting: seq<Id>, reqs: map<Id, Req>, i: nat)
    requires ListsOk(heads, waiting, reqs) && i < |waiting|
    ensures ListsOk(heads, Without(waiting, i), reqs - {waiting[i]})
  {
    var id := waiting[i];
    var fewer := reqs - {id};
    forall k | 0 <= k < |heads|
      ensures RingOk(heads[k], fewer, k, |heads|)
    {
      assert RingOk(heads[k], reqs, k, |heads|);
      RingStays(heads[k], reqs, fewer, k, |heads|);
    }
    forall j | 0 <= j < |waiting| - 1
      ensures Without(waiting, i)[j] in fewer && fewer[Without(waiting, i)[j]].ns.None?
    {
      assert Without(waiting, i)[j] == waiting[if j < i then j else j + 1];
    }
    forall x | x in fewer
      ensures Placed(heads, Without(waiting, i), fewer, x)
    {
      assert Placed(heads, waiting, reqs, x);
      if x in waiting {
        InWithout(waiting, i, x);
      }
    }
  }

  // ---------- a new table of rings ----------

  ghost predicate UniqueIds(reqs: map<Id, Req>)
  {
    forall x, y | x in reqs && y in reqs && reqs[x].ns.Some? && reqs[y].ns.Some? && reqs[x].transId == reqs[y].transId :: x == y
  }

  /** Half way: each inflight request is either still in the old table or already in the new one. */
  ghost predicate Rehashing(older: seq<seq<Id>>, newer: seq<seq<Id>>, waiting: seq<Id>, reqs: map<Id, Req>)
  {
    && RingsOk(older, reqs) && RingsOk(newer, reqs) && WaitingOk(waiting, reqs) && UniqueIds(reqs)
    && forall id | id in reqs :: InOne(older, newer, waiting, reqs, id)
  }

  ghost predicate InOne(older: seq<seq<Id>>, newer: seq<seq<Id>>, waiting: seq<Id>, reqs: map<Id, Req>, id: Id)
    requires older != [] && newer != [] && id in reqs
  {
    if reqs[id].ns.Some? then id in older[reqs[id].transId % |older|] <==> id !in newer[reqs[id].transId % |newer|]
    else id in waiting
  }

  lemma {:induction false} RehashStart(older: seq<seq<Id>>, newer: seq<seq<Id>>, waiting: seq<Id>, reqs: map<Id, Req>)
    requires ListsOk(older, waiting, reqs) && newer != [] && forall b | 0 <= b < |newer| :: newer[b] == []
    ensures Rehashing(older, newer, waiting, reqs)
  {
    forall x, y | x in reqs && y in reqs && reqs[x].ns.Some? && reqs[y].ns.Some? && reqs[x].transId == reqs[y].transId
      ensures x == y
    {
      SameId(older, waiting, reqs, x, y);
    }
    forall id | id in reqs
      ensures InOne(older, newer, waiting, reqs, id)
    {
      assert Placed(older, waiting, reqs, id);
    }
  }

  /** Moving the head of an old ring. */
  lemma {:induction false} RehashStep(older: seq<seq<Id>>, newer: seq<seq<Id>>, waiting: seq<Id>, reqs: map<Id, Req>,
      i: nat)
    requires Rehashing(older, newer, waiting, reqs) && i < |older| && older[i] != []
    ensures older[i][0] in reqs
    ensures var id := older[i][0]; var b := reqs[id].transId % |newer|;
            Rehashing(older[i := older[i][1..]], newer[b := newer[b] + [id]], waiting, reqs)
  {
    var id := older[i][0];
    assert RingOk(older[i], reqs, i, |older|);
    assert InRing(reqs[id], i, |older|);
    var b := reqs[id].transId % |newer|;
    var older', newer' := older[i := older[i][1..]], newer[b := newer[b] + [id]];
    assert InOne(older, newer, waiting, reqs, id);
    forall k | 0 <= k < |older'|
      ensures RingOk(older'[k], reqs, k, |older'|)
    {
      assert RingOk(older[k], reqs, k, |older|);
    }
    forall k | 0 <= k < |newer'|
      ensures RingOk(newer'[k], reqs, k, |newer'|)
    {
      assert RingOk(newer[k], reqs, k, |newer|);
      if k == b {
        RingGrows(newer[b], reqs, b, |newer|, id);
      }
    }
    HeadMoved(older, newer, waiting, reqs, i, b);
  }

  lemma {:induction false} HeadMoved(older: seq<seq<Id>>, newer: seq<seq<Id>>, waiting: seq<Id>, reqs: map<Id, Req>,
      i: nat, b: nat)
    requires Rehashing(older, newer, waiting, reqs) && i < |older| && older[i] != [] && older[i][0] in reqs
    requires InRing(reqs[older[i][0]], i, |older|) && b == reqs[older[i][0]].transId % |newer|
    ensures forall x | x in reqs ::
              InOne(older[i := older[i][1..]], newer[b := newer[b] + [older[i][0]]], waiting, reqs, x)
  {
    var id := older[i][0];
    assert RingOk(older[i], reqs, i, |older|);
    forall x | x in reqs
      ensures InOne(older[i := older[i][1..]], newer[b := newer[b] + [id]], waiting, reqs, x)
    {
      assert InOne(older, newer, waiting, reqs, x);
      assert (newer[b] + [id])[|newer[b]|] == id;
      if x == id {
        assert x !in older[i][1..];
      } else {
        assert x in older[i] ==> x in older[i][1..] by {
          assert older[i] == [id] + older[i][1..];
        }
      }
    }
  }

  lemma {:induction false} RehashEnd(older: seq<seq<Id>>, newer: seq<seq<Id>>, waiting: seq<Id>, reqs: map<Id, Req>)
    requires Rehashing(older, newer, waiting, reqs) && forall b | 0 <= b < |older| :: older[b] == []
    ensures ListsOk(newer, waiting, reqs)
  {
    forall id | id in reqs
      ensures Placed(newer, waiting, reqs, id)
    {
      assert InOne(older, newer, waiting, reqs, id);
    }
  }

  // ---------- suspending ----------

  /** What clearing the nameservers makes of an inflight request. */
  const SUSPENDED := Req(0, None, 0, false, false)

  /** The head of ring `b` goes to the front of the waiting ring. */
  lemma {:induction false} SuspendStep(heads: seq<seq<Id>>, waiting: seq<Id>, reqs: map<Id, Req>, b: nat)
    requires ListsOk(heads, waiting, reqs) && b < |heads| && heads[b] != []
    ensures ListsOk(heads[b := heads[b][1..]], [heads[b][0]] + waiting, reqs[heads[b][0] := SUSPENDED])
  {
    var id := heads[b][0];
    RemovedInflight(heads, waiting, reqs, b, 0);
    assert Without(heads[b], 0) == heads[b][1..];
    assert [] + waiting == waiting && [] + [id] + waiting == [id] + waiting;
    InsertedWaiting(heads[b := heads[b][1..]], [], waiting, reqs - {id}, id, SUSPENDED);
    assert (reqs - {id})[id := SUSPENDED] == reqs[id := SUSPENDED];
  }

  function Reverse(s: seq<Id>): (r: seq<Id>)
    ensures |r| == |s|
  {
    if s == [] then [] else Reverse(s[1..]) + [s[0]]
  }

  lemma {:induction false} ReverseSnoc(s: seq<Id>, x: Id)
    ensures Reverse(s + [x]) == [x] + Reverse(s)
  {
    if s == [] {
      assert ([] + [x])[1..] == [];
    } else {
      assert (s + [x])[1..] == s[1..] + [x];
      ReverseSnoc(s[1..], x);
    }
  }

  /** All inflight requests, ring by ring. */
  function Inflight(heads: seq<seq<Id>>): (s: seq<Id>)
    ensures |s| == Total(heads)
  {
    if heads == [] then [] else heads[0] + Inflight(heads[1..])
  }

  lemma {:induction false} InflightSnoc(heads: seq<seq<Id>>, ring: seq<Id>)
    ensures Inflight(heads + [ring]) == Inflight(heads) + ring
  {
    if heads == [] {
      assert ([] + [ring])[1..] == [];
    } else {
      assert (heads + [ring])[1..] == heads[1..] + [ring];
      InflightSnoc(heads[1..], ring);
    }
  }

  // ---------- nameservers ----------

  /** The number of nameservers in the ring that are believed to be up. */
  function Good(ring: seq<Id>, servers: map<Id, Server>): nat
  {
    if ring == [] then 0 else (if ring[0] in servers && servers[ring[0]].up then 1 else 0) + Good(ring[1..], servers)
  }

  lemma {:induction false} GoodConcat(a: seq<Id>, b: seq<Id>, servers: map<Id, Server>)
    ensures Good(a + b, servers) == Good(a, servers) + Good(b, servers)
  {
    if a == [] {
      assert a + b == b;
    } else {
      assert (a + b)[1..] == a[1..] + b;
      GoodConcat(a[1..], b, servers);
    }
  }

  lemma {:induction false} NoneGood(ring: seq<Id>, servers: map<Id, Server>)
    requires forall i | 0 <= i < |ring| :: ring[i] in servers && !servers[ring[i]].up
    ensures Good(ring, servers) == 0
  {
    if ring != [] {
      NoneGood(ring[1..], servers);
    }
  }

  lemma {:induction false} SomeGood(ring: seq<Id>, servers: map<Id, Server>, i: nat)
    requires i < |ring| && ring[i] in servers && servers[ring[i]].up
    ensures Good(ring, servers) > 0
  {
    if i > 0 {
      SomeGood(ring[1..], servers, i - 1);
    }
  }

  lemma {:induction false} GoodElsewhere(ring: seq<Id>, servers: map<Id, Server>, s: Id, v: Server)
    requires s !in ring
    ensures Good(ring, servers[s := v]) == Good(ring, servers)
  {
    if ring != [] {
      GoodElsewhere(ring[1..], servers, s, v);
    }
  }

  lemma {:induction false} GoodChange(ring: seq<Id>, servers: map<Id, Server>, s: Id, v: Server)
    requires Distinct(ring) && s in ring && s in servers
    ensures Good(ring, servers[s := v]) ==
              Good(ring, servers) - (if servers[s].up then 1 else 0) + (if v.up then 1 else 0)
  {
    if ring[0] == s {
      assert s !in ring[1..];
      GoodElsewhere(ring[1..], servers, s, v);
    } else {
      assert s in ring[1..] by {
        assert ring == [ring[0]] + ring[1..];
      }
      GoodChange(ring[1..], servers, s, v);
    }
  }

  /** The ring of nameservers, each once, and the count of those that are up. */
  ghost predicate ServersOk(ring: seq<Id>, servers: map<Id, Server>, good: nat)
  {
    Distinct(ring) && (forall s :: s in ring <==> s in servers) && good == Good(ring, servers)
  }

  /**
   An inflight request has a known nameserver and is either timed or marked to be sent; a waiting
   one is not timed.
  */
  ghost predicate NsOk(reqs: map<Id, Req>, servers: map<Id, Server>, except: set<Id>)
  {
    forall id | id in reqs ::
      if reqs[id].ns.Some? then reqs[id].ns.value in servers && (reqs[id].timer || reqs[id].transmitMe || id in except)
      else !reqs[id].timer
  }

  lemma {:induction false} Rotated(ring: seq<Id>, servers: map<Id, Server>, good: nat, k: nat)
    requires ServersOk(ring, servers, good) && k <= |ring|
    ensures ServersOk(ring[k..] + ring[..k], servers, good)
  {
    hide Good;
    var r := ring[k..] + ring[..k];
    assert ring == ring[..k] + ring[k..];
    GoodConcat(ring[..k], ring[k..], servers);
    GoodConcat(ring[k..], ring[..k], servers);
    forall s
      ensures s in r <==> s in ring
    {
      assert s in ring <==> s in ring[..k] + ring[k..];
    }
    forall i | 0 <= i < |r|
      ensures r[i] == ring[if i < |ring| - k then i + k else i - (|ring| - k)]
    {
    }
  }

  lemma {:induction false} ServerChanged(ring: seq<Id>, servers: map<Id, Server>, good: nat, s: Id, v: Server)
    requires ServersOk(ring, servers, good) && s in servers
    ensures good >= if servers[s].up then 1 else 0
    ensures ServersOk(ring, servers[s := v], good - (if servers[s].up then 1 else 0) + (if v.up then 1 else 0))
  {
    hide Good;
    GoodChange(ring, servers, s, v);
    if servers[s].up {
      var i :| 0 <= i < |ring| && ring[i] == s;
      SomeGood(ring, servers, i);
    }
  }

  /**
   What nameserver_pick does: the first nameserver that is up, from the head on,
   and the ring goes on behind it; when none is up, the one after the head.
  */
  ghost predicate Picked(before: seq<Id>, servers: map<Id, Server>, after: seq<Id>, s: Id)
  {
    exists k: nat :: k < |before| && PickedAt(before, servers, after, s, k)
  }

  ghost predicate PickedAt(before: seq<Id>, servers: map<Id, Server>, after: seq<Id>, s: Id, k: nat)
    requires k < |before|
  {
    && (forall i | 0 <= i < k :: before[i] in servers && !servers[before[i]].up)
    && if before[k] in servers && servers[before[k]].up then s == before[k] && after == before[k + 1..] + before[..k + 1]
       else k == |before| - 1 && after == before[1..] + before[..1] && s == after[0]
  }
}
